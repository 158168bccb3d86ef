/** process_diff (shefmine.py:86-123): the 'grep'-like matcher for files of
    every supported language other than C/C++. */
module Grep {
  import opened Common
  import opened Text
  import opened Diffs
  import opened Seqs

  /** One `type -> [rule, ...]` entry of a language's `rule_set`. */
  datatype RuleCategory = RuleCategory(name: string, rules: seq<string>)

  /** A language profile: its file extensions, its `is_not_comment` test on a
      raw diff line, and its rule set in iteration order. */
  datatype Language = Language(extensions: set<string>, isNotComment: string -> bool, ruleSet: seq<RuleCategory>)

  /** Index of the first language registering `extension`, if any. */
  function FirstLanguage(languages: seq<Language>, extension: string): (r: Option<nat>)
    ensures r.Some? ==> r.value < |languages| && extension in languages[r.value].extensions
    ensures r.Some? ==> forall j :: 0 <= j < r.value ==> extension !in languages[j].extensions
    ensures r.None? ==> forall j :: 0 <= j < |languages| ==> extension !in languages[j].extensions
  {
    if languages == [] then None
    else
      var earlier := FirstLanguage(languages[..|languages| - 1], extension);
      if earlier.Some? then earlier
      else if extension in languages[|languages| - 1].extensions then Some(|languages| - 1)
      else None
  }

  /** What the generator at shefmine.py:101 yields for one raw line: nothing
      for an empty or comment line, else the line number and stripped text. */
  function CleanLine(language: Language, l: DiffLine): seq<DiffLine> {
    if l.text != [] && language.isNotComment(l.text) then [DiffLine(l.num, Strip(l.text))] else []
  }

  function Cleaned(language: Language, raw: seq<DiffLine>): seq<DiffLine> {
    if raw == [] then [] else Cleaned(language, raw[..|raw| - 1]) + CleanLine(language, raw[|raw| - 1])
  }

  /** The rules of one category that occur word-bounded in `line`, in order. */
  function RulesMatching(rules: seq<string>, line: string): seq<string> {
    if rules == [] then []
    else RulesMatching(rules[..|rules| - 1], line)
         + (if WordBounded(line, rules[|rules| - 1]) then [rules[|rules| - 1]] else [])
  }

  /** The `vulnerability` list built at shefmine.py:107-112 for one line. */
  function MatchedRules(ruleSet: seq<RuleCategory>, line: string): seq<string> {
    if ruleSet == [] then []
    else MatchedRules(ruleSet[..|ruleSet| - 1], line) + RulesMatching(ruleSet[|ruleSet| - 1].rules, line)
  }

  /** The finding a cleaned line contributes: one when some rule matches. */
  function FindingOf(ruleSet: seq<RuleCategory>, l: DiffLine): seq<Finding> {
    var vulnerability := MatchedRules(ruleSet, l.text);
    if vulnerability == [] then [] else [Finding(l.num, Strip(l.text), RuleNames(vulnerability))]
  }

  function Findings(ruleSet: seq<RuleCategory>, lines: seq<DiffLine>): seq<Finding> {
    if lines == [] then [] else Findings(ruleSet, lines[..|lines| - 1]) + FindingOf(ruleSet, lines[|lines| - 1])
  }

  /** The partial output of process_diff. Only the first language registering
      the extension contributes: a later one would iterate generators the
      first one has already exhausted. */
  function ProcessDiffSpec(languages: seq<Language>, diff: Diff, fileExtension: string): PartialOutput {
    match FirstLanguage(languages, LowerStr(fileExtension))
    case None => map[]
    case Some(i) =>
      var language := languages[i];
      PartialOf(Findings(language.ruleSet, Cleaned(language, diff.added)),
                Findings(language.ruleSet, Cleaned(language, diff.deleted)))
  }

  /** The sides `0..n` of `d` scanned into `p`, as the loop over `diff.items()` does. */
  function ScanSides(p: PartialOutput, ruleSet: seq<RuleCategory>, d: Diff, n: nat): PartialOutput
    requires n <= |Sides|
  {
    if n == 0 then p
    else Extend(ScanSides(p, ruleSet, d, n - 1), Sides[n - 1], Findings(ruleSet, Lines(d, Sides[n - 1])))
  }

  /** process_diff, with its loops (shefmine.py:95-123). */
  method ProcessDiff(languages: seq<Language>, diff: Diff, fileExtension: string) returns (partialOutput: PartialOutput)
    ensures partialOutput == ProcessDiffSpec(languages, diff, fileExtension)
  {
    var extension := LowerStr(fileExtension);
    var current := diff;  // the variable `diff`, rebound at shefmine.py:101
    partialOutput := map[];
    for li := 0 to |languages|
      invariant FirstLanguage(languages[..li], extension).None? ==> current == diff && partialOutput == map[]
      invariant FirstLanguage(languages[..li], extension).Some? ==>
                  current == Diff([], []) && partialOutput == ProcessDiffSpec(languages, diff, fileExtension)
    {
      var language := languages[li];
      if extension in language.extensions {
        ghost var p0, d0 := partialOutput, current;
        current := Diff(Cleaned(language, current.added), Cleaned(language, current.deleted));
        partialOutput := ScanDiff(partialOutput, language.ruleSet, current);
        LanguageStep(languages, diff, fileExtension, li, p0, d0, partialOutput);
        current := Diff([], []);  // both generators are now exhausted
      }
      FirstLanguageSnoc(languages, extension, li);
    }
    assert languages[..|languages|] == languages;
  }

  /** The loop over `diff.items()` (shefmine.py:105-122): `added`, then `deleted`. */
  method ScanDiff(partialOutput: PartialOutput, ruleSet: seq<RuleCategory>, d: Diff) returns (r: PartialOutput)
    ensures r == Extend(Extend(partialOutput, Added, Findings(ruleSet, d.added)), Deleted, Findings(ruleSet, d.deleted))
  {
    r := partialOutput;
    for si := 0 to |Sides|
      invariant r == ScanSides(partialOutput, ruleSet, d, si)
    {
      r := ScanSide(r, ruleSet, Sides[si], Lines(d, Sides[si]));
    }
    ScanBothSides(partialOutput, ruleSet, d);
  }

  /** How the first registering language changes when one more language is considered. */
  lemma FirstLanguageSnoc(languages: seq<Language>, extension: string, li: nat)
    requires li < |languages|
    ensures FirstLanguage(languages[..li + 1], extension)
            == if FirstLanguage(languages[..li], extension).Some? then FirstLanguage(languages[..li], extension)
               else if extension in languages[li].extensions then Some(li)
               else None
  {
    assert languages[..li + 1][..li] == languages[..li];
  }

  /** One supported language's pass: the first one builds the partial
      output; a later one finds both generators exhausted and adds nothing. */
  lemma LanguageStep(languages: seq<Language>, diff: Diff, fileExtension: string, li: nat,
                     p0: PartialOutput, d0: Diff, p: PartialOutput)
    requires li < |languages| && LowerStr(fileExtension) in languages[li].extensions
    requires FirstLanguage(languages[..li], LowerStr(fileExtension)).None? ==> d0 == diff && p0 == map[]
    requires FirstLanguage(languages[..li], LowerStr(fileExtension)).Some? ==>
               d0 == Diff([], []) && p0 == ProcessDiffSpec(languages, diff, fileExtension)
    requires var l := languages[li];
      p == Extend(Extend(p0, Added, Findings(l.ruleSet, Cleaned(l, d0.added))),
                  Deleted, Findings(l.ruleSet, Cleaned(l, d0.deleted)))
    ensures p == ProcessDiffSpec(languages, diff, fileExtension)
  {
    var extension := LowerStr(fileExtension);
    if FirstLanguage(languages[..li], extension).None? {
      assert forall j :: 0 <= j < li ==> languages[..li][j] == languages[j];
      assert FirstLanguage(languages, extension) == Some(li);
    }
  }

  /** The loop over `diff.items()` extends `added`, then `deleted`. */
  lemma ScanBothSides(p: PartialOutput, ruleSet: seq<RuleCategory>, d: Diff)
    ensures ScanSides(p, ruleSet, d, |Sides|)
            == Extend(Extend(p, Added, Findings(ruleSet, d.added)), Deleted, Findings(ruleSet, d.deleted))
  {
    assert Sides[0] == Added && Sides[1] == Deleted;
    assert ScanSides(p, ruleSet, d, 1) == Extend(p, Added, Findings(ruleSet, d.added));
  }

  /** The loop over one side's lines (shefmine.py:106-122): each line with a
      matching rule appends one finding under `side`. */
  method ScanSide(partialOutput: PartialOutput, ruleSet: seq<RuleCategory>, side: Side, value: seq<DiffLine>)
    returns (r: PartialOutput)
    ensures r == Extend(partialOutput, side, Findings(ruleSet, value))
  {
    r := partialOutput;
    for j := 0 to |value|
      invariant r == Extend(partialOutput, side, Findings(ruleSet, value[..j]))
    {
      var num, line := value[j].num, value[j].text;
      var vulnerability := MatchLine(ruleSet, line);
      ghost var before := r;
      if vulnerability != [] {
        r := Append(r, side, Finding(num, Strip(line), RuleNames(vulnerability)));
      }
      ScanStep(partialOutput, before, r, side, ruleSet, value, j);
    }
    assert value[..|value|] == value;
  }

  /** `partial_output[key].append(item)`, creating the list when the key is new. */
  method Append(p: PartialOutput, side: Side, f: Finding) returns (r: PartialOutput)
    ensures r == Extend(p, side, [f])
  {
    r := p;
    if side !in r {
      r := r[side := []];
    }
    r := r[side := r[side] + [f]];
  }

  lemma ScanStep(p: PartialOutput, before: PartialOutput, after: PartialOutput, side: Side,
                 ruleSet: seq<RuleCategory>, value: seq<DiffLine>, j: nat)
    requires j < |value|
    requires before == Extend(p, side, Findings(ruleSet, value[..j]))
    requires after == Extend(before, side, FindingOf(ruleSet, value[j]))
    ensures after == Extend(p, side, Findings(ruleSet, value[..j + 1]))
  {
    TakeSnoc(value, j);
    ExtendTwice(p, side, Findings(ruleSet, value[..j]), FindingOf(ruleSet, value[j]));
  }

  /** The rule loops of shefmine.py:107-112: every rule of every category,
      in order, that occurs word-bounded in `line`. */
  method MatchLine(ruleSet: seq<RuleCategory>, line: string) returns (vulnerability: seq<string>)
    ensures vulnerability == MatchedRules(ruleSet, line)
  {
    vulnerability := [];
    for ci := 0 to |ruleSet|
      invariant vulnerability == MatchedRules(ruleSet[..ci], line)
    {
      var rules := ruleSet[ci].rules;
      for ri := 0 to |rules|
        invariant vulnerability == MatchedRules(ruleSet[..ci], line) + RulesMatching(rules[..ri], line)
      {
        if WordBounded(line, rules[ri]) {
          vulnerability := vulnerability + [rules[ri]];
        }
        assert rules[..ri + 1][..ri] == rules[..ri];
      }
      assert ruleSet[..ci + 1][..ci] == ruleSet[..ci];
      assert rules[..|rules|] == rules;
    }
    assert ruleSet[..|ruleSet|] == ruleSet;
  }

  /** The shape of process_diff's result: `{}` for an extension no language
      registers; otherwise a side's key is present exactly when the first
      registering language finds something on that side, and then holds those
      findings. No key ever holds an empty list. */
  lemma ProcessDiffShape(languages: seq<Language>, diff: Diff, fileExtension: string)
    ensures var r := ProcessDiffSpec(languages, diff, fileExtension);
      && NoEmptySide(r)
      && ((forall i :: 0 <= i < |languages| ==> LowerStr(fileExtension) !in languages[i].extensions) ==> r == map[])
      && forall i :: 0 <= i < |languages| && FirstLanguage(languages, LowerStr(fileExtension)) == Some(i) ==>
           var l := languages[i];
           && (Added in r <==> Findings(l.ruleSet, Cleaned(l, diff.added)) != [])
           && (Deleted in r <==> Findings(l.ruleSet, Cleaned(l, diff.deleted)) != [])
           && (Added in r ==> r[Added] == Findings(l.ruleSet, Cleaned(l, diff.added)))
           && (Deleted in r ==> r[Deleted] == Findings(l.ruleSet, Cleaned(l, diff.deleted)))
  {
    match FirstLanguage(languages, LowerStr(fileExtension))
    case None =>
    case Some(i) =>
      var l := languages[i];
      PartialOfKeys(Findings(l.ruleSet, Cleaned(l, diff.added)), Findings(l.ruleSet, Cleaned(l, diff.deleted)));
  }

  /** Raw line `x` of a diff side is reported as finding `f`: it is non-empty,
      not a comment, and its stripped text contains some rule word-bounded. */
  predicate Reported(ruleSet: seq<RuleCategory>, language: Language, x: DiffLine, f: Finding) {
    && x.text != []
    && language.isNotComment(x.text)
    && var line := Strip(x.text);
    && MatchedRules(ruleSet, line) != []
    && f == Finding(x.num, line, RuleNames(MatchedRules(ruleSet, line)))
  }

  /** Findings of concatenated lines are the concatenated findings: the
      findings of a side appear in the order of its lines. */
  lemma {:induction false} FindingsAppend(ruleSet: seq<RuleCategory>, a: seq<DiffLine>, b: seq<DiffLine>)
    ensures Findings(ruleSet, a + b) == Findings(ruleSet, a) + Findings(ruleSet, b)
    decreases |b|
  {
    if b == [] {
      assert a + b == a;
    } else {
      var b' := b[..|b| - 1];
      InitOfConcat(a, b);
      FindingsAppend(ruleSet, a, b');
      ConcatAssoc(Findings(ruleSet, a), Findings(ruleSet, b'), FindingOf(ruleSet, b[|b| - 1]));
    }
  }

  lemma {:induction false} CleanedAppend(language: Language, a: seq<DiffLine>, b: seq<DiffLine>)
    ensures Cleaned(language, a + b) == Cleaned(language, a) + Cleaned(language, b)
    decreases |b|
  {
    if b == [] {
      assert a + b == a;
    } else {
      var b' := b[..|b| - 1];
      InitOfConcat(a, b);
      CleanedAppend(language, a, b');
      ConcatAssoc(Cleaned(language, a), Cleaned(language, b'), CleanLine(language, b[|b| - 1]));
    }
  }

  /** process_diff keeps the order of the diff: the findings for `a + b`
      are those for `a` followed by those for `b`. */
  lemma FindingsOrder(language: Language, a: seq<DiffLine>, b: seq<DiffLine>)
    ensures Findings(language.ruleSet, Cleaned(language, a + b))
            == Findings(language.ruleSet, Cleaned(language, a)) + Findings(language.ruleSet, Cleaned(language, b))
  {
    CleanedAppend(language, a, b);
    FindingsAppend(language.ruleSet, Cleaned(language, a), Cleaned(language, b));
  }

  /** What one raw line contributes: the finding it is reported as, or nothing. */
  lemma OneLine(language: Language, x: DiffLine, f: Finding)
    ensures f in Findings(language.ruleSet, Cleaned(language, [x])) <==> Reported(language.ruleSet, language, x, f)
  {
    var rs := language.ruleSet;
    assert Cleaned(language, [x]) == CleanLine(language, x) by {
      assert [x][..0] == [];
    }
    if x.text != [] && language.isNotComment(x.text) {
      var y := DiffLine(x.num, Strip(x.text));
      assert Findings(rs, [y]) == FindingOf(rs, y) by {
        assert [y][..0] == [];
      }
      StripIdempotent(x.text);
    }
  }

  /** A finding is in a side's output exactly when some raw line of that
      side is reported as it. */
  lemma FindingsMembership(language: Language, raw: seq<DiffLine>, f: Finding)
    ensures f in Findings(language.ruleSet, Cleaned(language, raw))
            <==> exists k :: 0 <= k < |raw| && Reported(language.ruleSet, language, raw[k], f)
  {
    if f in Findings(language.ruleSet, Cleaned(language, raw)) {
      var k := FindingSource(language, raw, f);
    }
    if exists k :: 0 <= k < |raw| && Reported(language.ruleSet, language, raw[k], f) {
      var k :| 0 <= k < |raw| && Reported(language.ruleSet, language, raw[k], f);
      FindingOfLine(language, raw, k, f);
    }
  }

  /** Every finding comes from a raw line reported as it. */
  lemma {:induction false} FindingSource(language: Language, raw: seq<DiffLine>, f: Finding) returns (k: nat)
    requires f in Findings(language.ruleSet, Cleaned(language, raw))
    ensures k < |raw| && Reported(language.ruleSet, language, raw[k], f)
    decreases |raw|
  {
    var init, x := raw[..|raw| - 1], raw[|raw| - 1];
    SplitLast(raw);
    FindingsOrder(language, init, [x]);
    OneLine(language, x, f);
    if f in Findings(language.ruleSet, Cleaned(language, init)) {
      k := FindingSource(language, init, f);
      assert raw[k] == init[k];
    } else {
      k := |raw| - 1;
    }
  }

  /** Every raw line reported as a finding contributes it. */
  lemma {:induction false} FindingOfLine(language: Language, raw: seq<DiffLine>, k: nat, f: Finding)
    requires k < |raw| && Reported(language.ruleSet, language, raw[k], f)
    ensures f in Findings(language.ruleSet, Cleaned(language, raw))
    decreases |raw|
  {
    var init, x := raw[..|raw| - 1], raw[|raw| - 1];
    SplitLast(raw);
    FindingsOrder(language, init, [x]);
    if k < |init| {
      assert init[k] == raw[k];
      FindingOfLine(language, init, k, f);
    } else {
      OneLine(language, x, f);
    }
  }

  /** A rule of one category is reported exactly when it occurs word-bounded. */
  lemma {:induction false} RulesMatchingMembership(rules: seq<string>, line: string, rule: string)
    ensures rule in RulesMatching(rules, line) <==> rule in rules && WordBounded(line, rule)
    decreases |rules|
  {
    if rules != [] {
      var init := rules[..|rules| - 1];
      assert rules == init + [rules[|rules| - 1]];
      RulesMatchingMembership(init, line, rule);
    }
  }

  /** The `vulnerability` list of a line names exactly the rules, of any
      category, that occur word-bounded in it. */
  lemma MatchedRulesMembership(ruleSet: seq<RuleCategory>, line: string, rule: string)
    ensures rule in MatchedRules(ruleSet, line)
            <==> exists c :: 0 <= c < |ruleSet| && rule in ruleSet[c].rules && WordBounded(line, rule)
  {
    if rule in MatchedRules(ruleSet, line) {
      var c := RuleSource(ruleSet, line, rule);
    }
    if exists c :: 0 <= c < |ruleSet| && rule in ruleSet[c].rules && WordBounded(line, rule) {
      var c :| 0 <= c < |ruleSet| && rule in ruleSet[c].rules && WordBounded(line, rule);
      RuleReported(ruleSet, line, c, rule);
    }
  }

  lemma {:induction false} RuleSource(ruleSet: seq<RuleCategory>, line: string, rule: string) returns (c: nat)
    requires rule in MatchedRules(ruleSet, line)
    ensures c < |ruleSet| && rule in ruleSet[c].rules && WordBounded(line, rule)
    decreases |ruleSet|
  {
    var init, last := ruleSet[..|ruleSet| - 1], ruleSet[|ruleSet| - 1];
    RulesMatchingMembership(last.rules, line, rule);
    if rule in MatchedRules(init, line) {
      c := RuleSource(init, line, rule);
      assert ruleSet[c] == init[c];
    } else {
      c := |ruleSet| - 1;
    }
  }

  lemma {:induction false} RuleReported(ruleSet: seq<RuleCategory>, line: string, c: nat, rule: string)
    requires c < |ruleSet| && rule in ruleSet[c].rules && WordBounded(line, rule)
    ensures rule in MatchedRules(ruleSet, line)
    decreases |ruleSet|
  {
    var init, last := ruleSet[..|ruleSet| - 1], ruleSet[|ruleSet| - 1];
    RulesMatchingMembership(last.rules, line, rule);
    if c < |init| {
      assert init[c] == ruleSet[c];
      RuleReported(init, line, c, rule);
    }
  }
}
