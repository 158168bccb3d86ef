/** `os.path.splitext` and `os.path.join` on POSIX paths, and the choice of the
    report's file name from the `-o/--output` argument (shefmine.py:214-226). */
module Paths {
  import opened Common

  /** `s.rfind(c)`: the last index holding `c`, or -1. */
  function RFind(s: string, c: char): (r: int)
    ensures -1 <= r < |s|
    ensures r >= 0 ==> s[r] == c
    ensures forall k :: r < k < |s| ==> s[k] != c
  {
    if s == [] then -1
    else if s[|s| - 1] == c then |s| - 1
    else RFind(s[..|s| - 1], c)
  }

  /** The base name of `p` (after its last `/`) has a character other than `.`
      before index `dot`: the condition under which splitext cuts at `dot`. */
  predicate StemBefore(p: string, dot: int)
    requires dot <= |p|
  {
    exists k :: RFind(p, '/') < k < dot && p[k] != '.'
  }

  /** `os.path.splitext(p)` for POSIX paths: the extension runs from the last
      `.` of the base name, unless that base name is only leading dots. */
  function Splitext(p: string): (r: (string, string))
    ensures r.0 + r.1 == p
    ensures r.1 == [] || (r.1[0] == '.' && '/' !in r.1 && '.' !in r.1[1..])
    ensures r.1 != [] ==> StemBefore(p, |r.0|)
  {
    var sep := RFind(p, '/');
    var dot := RFind(p, '.');
    if sep < dot && StemBefore(p, dot) then
      ExtensionAfter(p, sep, dot);
      (p[..dot], p[dot..])
    else (p, [])
  }

  /** The text from the last `.` on holds no `/` when that `.` follows the
      last `/`, and no further `.`. */
  lemma ExtensionAfter(p: string, sep: int, dot: int)
    requires sep == RFind(p, '/') && dot == RFind(p, '.') && sep < dot
    ensures var extension := p[dot..];
      && extension[0] == '.' && '/' !in extension && '.' !in extension[1..]
  {
    var extension := p[dot..];
    forall k | 0 <= k < |extension| ensures extension[k] != '/' && (k > 0 ==> extension[k] != '.') {
      assert extension[k] == p[dot + k];
    }
    assert forall k :: 0 <= k < |extension| - 1 ==> extension[1..][k] == extension[k + 1];
  }

  /** Splitting `stem + ext` gives back the two parts, when `ext` is one
      extension and `stem` ends in a base name with a non-dot character. */
  lemma {:induction false} SplitextAppend(stem: string, ext: string, k: int)
    requires |ext| >= 1 && ext[0] == '.' && '/' !in ext && '.' !in ext[1..]
    requires 0 <= k < |stem| && stem[k] != '.' && '/' !in stem[k..]
    ensures Splitext(stem + ext) == (stem, ext)
  {
    var p := stem + ext;
    var sep, dot := RFind(p, '/'), RFind(p, '.');
    assert p[|stem|] == '.';
    forall j | |stem| < j < |p| ensures p[j] != '.' && p[j] != '/' {
      assert p[j] == ext[j - |stem|];
      assert ext[1..][j - |stem| - 1] == ext[j - |stem|];
    }
    assert dot == |stem|;
    forall j | k <= j < |p| ensures p[j] != '/' {
      if j < |stem| { assert stem[k..][j - k] == stem[j]; } else { assert p[j] == ext[j - |stem|]; }
    }
    assert sep < k && p[k] != '.';
    assert StemBefore(p, dot);
    assert p[..dot] == stem && p[dot..] == ext;
  }

  /** `os.path.join(a, b)` for a relative `b`. */
  function Join(a: string, b: string): (r: string)
    requires b == [] || b[0] != '/'
    ensures r == a + b || r == a + "/" + b
  {
    if a == [] || a[|a| - 1] == '/' then a + b else a + "/" + b
  }

  const DefaultOutput := "output.json"

  /** The path the report is written to, given the optional `--output` value.
      An empty value counts as absent (`if args.output:`); `realpath` is not
      applied. */
  function OutputPath(output: Option<string>): (path: string)
    ensures output.None? || output == Some("") ==> path == DefaultOutput
  {
    match output
    case None => DefaultOutput
    case Some(arg) =>
      if arg == [] then DefaultOutput
      else
        var (name, extension) := Splitext(arg);
        if extension != [] then
          if extension == ".json" then arg else name + ".json"
        else Join(name, DefaultOutput)
  }

  /** Whatever the argument, the chosen path has extension `.json`, and its
      stem is the argument's own stem when the argument had an extension. */
  lemma OutputPathIsJson(output: Option<string>)
    ensures Splitext(OutputPath(output)).1 == ".json"
    ensures output.Some? && Splitext(output.value).1 != [] ==>
              Splitext(OutputPath(output)).0 == Splitext(output.value).0
  {
    if output.None? || output.value == [] {
      DefaultIsJson();
    } else if Splitext(output.value).1 != [] {
      RenamedIsJson(output.value);
    } else {
      JoinedIsJson(output.value);
    }
  }

  lemma DefaultIsJson()
    ensures Splitext(DefaultOutput) == ("output", ".json")
  {
    assert DefaultOutput == "output" + ".json";
    assert '.' !in ".json"[1..];
    SplitextAppend("output", ".json", 0);
  }

  lemma RenamedIsJson(arg: string)
    requires Splitext(arg).1 != []
    ensures Splitext(Splitext(arg).0 + ".json") == (Splitext(arg).0, ".json")
  {
    var name := Splitext(arg).0;
    var k :| RFind(arg, '/') < k < |name| && arg[k] != '.';
    assert '/' !in name[k..] by {
      forall j | 0 <= j < |name| - k ensures name[k..][j] != '/' { assert name[k..][j] == arg[k + j]; }
    }
    assert name[k] == arg[k];
    assert '.' !in ".json"[1..];
    SplitextAppend(name, ".json", k);
  }

  lemma JoinedIsJson(name: string)
    requires name != []
    ensures Splitext(Join(name, DefaultOutput)).1 == ".json"
  {
    var stem := if name[|name| - 1] == '/' then name + "output" else name + "/output";
    assert stem[|stem| - 6..] == "output";
    assert Join(name, DefaultOutput) == stem + ".json";
    assert '.' !in ".json"[1..];
    SplitextAppend(stem, ".json", |stem| - 6);
  }

  /** Choosing the path again from the chosen path changes nothing. */
  lemma OutputPathIdempotent(output: Option<string>)
    ensures OutputPath(Some(OutputPath(output))) == OutputPath(output)
  {
    OutputPathIsJson(output);
  }

  /** A `.json` argument is kept verbatim; any other extension is replaced by
      `.json`; an argument without extension names a directory that gets
      `output.json`. */
  lemma OutputPathCases(arg: string)
    requires arg != []
    ensures Splitext(arg).1 == ".json" ==> OutputPath(Some(arg)) == arg
    ensures Splitext(arg).1 != [] ==> OutputPath(Some(arg)) == Splitext(arg).0 + ".json"
    ensures Splitext(arg).1 == [] ==>
              OutputPath(Some(arg)) == (if arg[|arg| - 1] == '/' then arg + DefaultOutput else arg + "/" + DefaultOutput)
  {
  }
}
