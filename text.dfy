/** The string primitives of Python that the core relies on: `str.isspace`,
    `str.strip`, ASCII `str.lower`, and the `\b` word boundary of `re`. */
module Text {

  /** Python's `str.isspace()` (the set `strip()` removes and `\s` matches). */
  predicate IsSpace(c: char) {
    || ('\t' <= c <= '\r')
    || ('\U{1C}' <= c <= ' ')
    || c == '\U{85}' || c == '\U{A0}' || c == '\U{1680}'
    || ('\U{2000}' <= c <= '\U{200A}')
    || c == '\U{2028}' || c == '\U{2029}' || c == '\U{202F}' || c == '\U{205F}' || c == '\U{3000}'
  }

  predicate AllSpace(s: string) {
    forall k :: 0 <= k < |s| ==> IsSpace(s[k])
  }

  /** Neither the first nor the last character is whitespace. */
  predicate NoOuterSpace(s: string) {
    s == [] || (!IsSpace(s[0]) && !IsSpace(s[|s| - 1]))
  }

  /** `r` is the slice of `s` starting at `i`, and everything around it is whitespace. */
  predicate StrippedAt(s: string, r: string, i: int) {
    && 0 <= i && i + |r| <= |s|
    && r == s[i..i + |r|]
    && AllSpace(s[..i])
    && AllSpace(s[i + |r|..])
  }

  function TrimLeft(s: string): string {
    if s != [] && IsSpace(s[0]) then TrimLeft(s[1..]) else s
  }

  function TrimRight(s: string): string {
    if s != [] && IsSpace(s[|s| - 1]) then TrimRight(s[..|s| - 1]) else s
  }

  /** `lstrip()` removes a whitespace prefix and stops at the first other character. */
  lemma {:induction false} TrimLeftSpec(s: string)
    ensures var r := TrimLeft(s);
      && |r| <= |s| && r == s[|s| - |r|..]
      && AllSpace(s[..|s| - |r|])
      && (r == [] || !IsSpace(r[0]))
  {
    if s != [] && IsSpace(s[0]) {
      TrimLeftSpec(s[1..]);
      var r := TrimLeft(s);
      assert s[1..][|s| - 1 - |r|..] == s[|s| - |r|..];
      var left, rest := s[..|s| - |r|], s[1..][..|s| - 1 - |r|];
      forall k | 0 < k < |left| ensures IsSpace(left[k]) {
        assert left[k] == rest[k - 1];
      }
    }
  }

  /** `rstrip()` removes a whitespace suffix and stops at the last other character. */
  lemma {:induction false} TrimRightSpec(s: string)
    ensures var r := TrimRight(s);
      && |r| <= |s| && r == s[..|r|]
      && AllSpace(s[|r|..])
      && (r == [] || !IsSpace(r[|r| - 1]))
  {
    if s != [] && IsSpace(s[|s| - 1]) {
      var s' := s[..|s| - 1];
      TrimRightSpec(s');
      var r := TrimRight(s);
      assert s'[..|r|] == s[..|r|];
      assert forall k :: 0 <= k < |s| - |r| - 1 ==> s[|r|..][k] == s'[|r|..][k];
      assert s[|r|..][|s| - |r| - 1] == s[|s| - 1];
    }
  }

  /** Python's `str.strip()`. */
  function Strip(s: string): string {
    TrimRight(TrimLeft(s))
  }

  /** The result of `strip()` neither starts nor ends with whitespace, and it
      is the slice of `s` left once its leading and trailing whitespace is removed. */
  lemma StripSpec(s: string)
    ensures NoOuterSpace(Strip(s))
    ensures StrippedAt(s, Strip(s), |s| - |TrimLeft(s)|)
  {
    var t := TrimLeft(s);
    var r := TrimRight(t);
    var i := |s| - |t|;
    TrimLeftSpec(s);
    TrimRightSpec(t);
    if r != [] {
      assert r[0] == t[0];
    }
    assert r == s[i..i + |r|] by {
      assert t[..|r|] == s[i..][..|r|];
    }
    assert s[i + |r|..] == t[|r|..];
  }

  /** Any whitespace-free-ends slice of `s` surrounded by whitespace is `Strip(s)`:
      the two clauses of Strip's contract determine its result. */
  lemma StripUnique(s: string, r: string, i: int)
    requires NoOuterSpace(r) && StrippedAt(s, r, i)
    ensures r == Strip(s)
  {
    var q := Strip(s);
    var j := |s| - |TrimLeft(s)|;
    StripSpec(s);
    SliceSpaces(s, r, i);
    SliceSpaces(s, q, j);
  }

  /** Where a stripped slice sits inside `s`: an empty one means `s` is all
      whitespace; a non-empty one starts at the first and ends at the last
      non-whitespace character. */
  lemma SliceSpaces(s: string, r: string, i: int)
    requires NoOuterSpace(r) && StrippedAt(s, r, i)
    ensures r == [] ==> AllSpace(s)
    ensures r != [] ==> !IsSpace(s[i]) && !IsSpace(s[i + |r| - 1])
    ensures forall k :: 0 <= k < i ==> IsSpace(s[k])
    ensures forall k :: i + |r| <= k < |s| ==> IsSpace(s[k])
  {
    forall k | 0 <= k < i ensures IsSpace(s[k]) { assert s[..i][k] == s[k]; }
    forall k | i + |r| <= k < |s| ensures IsSpace(s[k]) { assert s[i + |r|..][k - i - |r|] == s[k]; }
  }

  /** `strip()` is idempotent (process_diff strips an already stripped line). */
  lemma StripIdempotent(s: string)
    ensures Strip(Strip(s)) == Strip(s)
  {
    var r := Strip(s);
    StripSpec(s);
    assert StrippedAt(r, r, 0);
    StripUnique(r, r, 0);
  }

  /** ASCII `str.lower()` of one character. */
  function Lower(c: char): char {
    if 'A' <= c <= 'Z' then (c as int + 32) as char else c
  }

  function LowerStr(s: string): (r: string)
    ensures |r| == |s| && forall k :: 0 <= k < |s| ==> r[k] == Lower(s[k])
  {
    seq(|s|, k requires 0 <= k < |s| => Lower(s[k]))
  }

  /** The characters `\w` matches (ASCII letters, digits, underscore). */
  predicate IsWordChar(c: char) {
    ('a' <= c <= 'z') || ('A' <= c <= 'Z') || ('0' <= c <= '9') || c == '_'
  }

  /** Regex `\b` at position `p` of `s`: exactly one side of `p` is a word character. */
  predicate Boundary(s: string, p: int)
    requires 0 <= p <= |s|
  {
    (p > 0 && IsWordChar(s[p - 1])) != (p < |s| && IsWordChar(s[p]))
  }

  predicate BoundedAt(s: string, keyword: string, p: int) {
    && 0 <= p && p + |keyword| <= |s|
    && s[p..p + |keyword|] == keyword
    && Boundary(s, p) && Boundary(s, p + |keyword|)
  }

  /** `re.search(r'\b' + keyword + r'\b', s)` succeeds, for a keyword without
      regex metacharacters. */
  predicate WordBounded(s: string, keyword: string) {
    exists p :: 0 <= p <= |s| - |keyword| && BoundedAt(s, keyword, p)
  }

  /** A word-bounded occurrence cannot sit inside a longer identifier:
      if the keyword begins with a word character, the character before it is not one. */
  lemma WordBoundedNotInsideIdentifier(s: string, keyword: string, p: int)
    requires BoundedAt(s, keyword, p) && keyword != []
    ensures IsWordChar(keyword[0]) ==> p == 0 || !IsWordChar(s[p - 1])
    ensures IsWordChar(keyword[|keyword| - 1]) ==> p + |keyword| == |s| || !IsWordChar(s[p + |keyword|])
  {
    assert s[p..p + |keyword|][0] == s[p];
    assert s[p..p + |keyword|][|keyword| - 1] == s[p + |keyword| - 1];
  }

  /** `md5` is found in `md5 hash` but not inside the identifier
      `md5sum_helper`. */
  lemma Md5Examples()
    ensures WordBounded("md5 hash", "md5")
    ensures !WordBounded("md5sum_helper", "md5")
  {
    assert BoundedAt("md5 hash", "md5", 0);
    var s := "md5sum_helper";
    forall p | 0 <= p <= |s| - 3 ensures !BoundedAt(s, "md5", p) {
      if p == 0 {
        assert IsWordChar(s[3]);
      }
    }
  }
}
