/** run_flawfinder (shefmine.py:126-173): each side of a C/C++ diff is cleaned,
    written to a file, analysed by flawfinder, and every surviving hit is
    mapped back to the number and text of the diff line it was found on. */
module CScan {
  import opened Common
  import opened Text
  import opened Diffs
  import opened Seqs

  /** One flawfinder hit: the rule name, its risk level, and the text of the
      line it was reported on. */
  datatype Hit = Hit(name: string, level: int, contextText: string)

  /** The C/C++ language profile: `c_extensions`, `c_comments.match` and
      `remove_comment`. */
  datatype CProfile = CProfile(extensions: set<string>, isComment: string -> bool, removeComment: string -> string)

  /** The flawfinder module as shefmine uses it: the global `hitlist`, and the
      analysis `process_c_file` runs on a file, which appends that file's hits. */
  class Flawfinder {
    var hitlist: seq<Hit>
    const analyse: string -> seq<Hit>

    constructor(analyse: string -> seq<Hit>)
      ensures this.analyse == analyse && hitlist == []
    {
      this.analyse := analyse;
      hitlist := [];
    }

    /** `process_c_file(name, None)` on a file whose contents are `contents`. */
    method ProcessCFile(contents: string)
      modifies this
      ensures hitlist == old(hitlist) + analyse(contents)
    {
      hitlist := hitlist + analyse(contents);
    }
  }

  /** A raw line survives the `linelist` filter: it is non-empty and its
      stripped text is not a comment line. */
  predicate Kept(c: CProfile, l: DiffLine) {
    l.text != [] && !c.isComment(Strip(l.text))
  }

  /** `linelist` (shefmine.py:144-145): the surviving lines, stripped and
      with inline comments removed, with their original numbers. */
  function LineList(c: CProfile, raw: seq<DiffLine>): seq<DiffLine> {
    if raw == [] then []
    else
      var l := raw[|raw| - 1];
      LineList(c, raw[..|raw| - 1]) + (if Kept(c, l) then [DiffLine(l.num, c.removeComment(Strip(l.text)))] else [])
  }

  /** The contents of the temporary file: every cleaned line followed by a newline. */
  function BufferText(linelist: seq<DiffLine>): string {
    if linelist == [] then []
    else BufferText(linelist[..|linelist| - 1]) + linelist[|linelist| - 1].text + "\n"
  }

  /** The filter of shefmine.py:157-158. */
  predicate Survives(c: CProfile, h: Hit) {
    h.level > 0 && !c.isComment(h.contextText)
  }

  function FilteredHits(c: CProfile, hits: seq<Hit>): seq<Hit> {
    if hits == [] then []
    else FilteredHits(c, hits[..|hits| - 1]) + (if Survives(c, hits[|hits| - 1]) then [hits[|hits| - 1]] else [])
  }

  /** `next(x for x in s if p(x))`, as an index: the first element of `s`
      satisfying `p`, or none. */
  function FirstWhere<T>(s: seq<T>, p: T -> bool): (r: Option<nat>)
    ensures r.Some? ==> r.value < |s| && p(s[r.value])
    ensures r.Some? ==> forall j :: 0 <= j < r.value ==> !p(s[j])
    ensures r.None? ==> forall j :: 0 <= j < |s| ==> !p(s[j])
  {
    if s == [] then None
    else if p(s[0]) then Some(0)
    else match FirstWhere(s[1..], p)
      case None => None
      case Some(i) => Some(i + 1)
  }

  /** The test of shefmine.py:165: a cleaned line whose text is `text`. */
  function WithText(text: string): DiffLine -> bool {
    (l: DiffLine) => l.text == text
  }

  /** The test of shefmine.py:169: a raw line numbered `num`. */
  function Numbered(num: int): DiffLine -> bool {
    (l: DiffLine) => l.num == num
  }

  /** The finding for one surviving hit (shefmine.py:165-171). Each of the two
      generator lookups raises StopIteration when nothing matches. */
  function HitFinding(raw: seq<DiffLine>, linelist: seq<DiffLine>, h: Hit): Result<Finding> {
    match FirstWhere(linelist, WithText(h.contextText))
    case None => Err(StopIteration)
    case Some(i) =>
      match FirstWhere(raw, Numbered(linelist[i].num))
      case None => Err(StopIteration)
      case Some(k) => Ok(Finding(linelist[i].num, Strip(raw[k].text), HitName(h.name)))
  }

  /** The findings for a list of hits, in order, or the first failure. */
  function Reconcile(raw: seq<DiffLine>, linelist: seq<DiffLine>, hits: seq<Hit>): Result<seq<Finding>> {
    if hits == [] then Ok([])
    else match Reconcile(raw, linelist, hits[..|hits| - 1])
      case Err(e) => Err(e)
      case Ok(fs) =>
        match HitFinding(raw, linelist, hits[|hits| - 1])
        case Err(e) => Err(e)
        case Ok(f) => Ok(fs + [f])
  }

  /** The hits flawfinder reports on one side, after the filter. */
  function SideHits(c: CProfile, analyse: string -> seq<Hit>, raw: seq<DiffLine>): seq<Hit> {
    FilteredHits(c, analyse(BufferText(LineList(c, raw))))
  }

  function SideFindings(c: CProfile, analyse: string -> seq<Hit>, raw: seq<DiffLine>): Result<seq<Finding>> {
    Reconcile(raw, LineList(c, raw), SideHits(c, analyse, raw))
  }

  /** The result of run_flawfinder: the partial output, or the StopIteration
      that escapes it. */
  function RunFlawfinderSpec(c: CProfile, analyse: string -> seq<Hit>, diff: Diff): Result<PartialOutput> {
    match SideFindings(c, analyse, diff.added)
    case Err(e) => Err(e)
    case Ok(added) =>
      match SideFindings(c, analyse, diff.deleted)
      case Err(e) => Err(e)
      case Ok(deleted) => Ok(PartialOf(added, deleted))
  }

  /** The side whose analysis is left in `hitlist`: the first side when it fails. */
  function LastScanned(c: CProfile, analyse: string -> seq<Hit>, diff: Diff): seq<DiffLine> {
    if SideFindings(c, analyse, diff.added).Err? then diff.added else diff.deleted
  }

  /** The loop over `diff.items()` after its first `n` sides. */
  function ScanUpTo(c: CProfile, analyse: string -> seq<Hit>, diff: Diff, n: nat): Result<PartialOutput>
    requires n <= |Sides|
  {
    if n == 0 then Ok(map[])
    else match ScanUpTo(c, analyse, diff, n - 1)
      case Err(e) => Err(e)
      case Ok(p) =>
        match SideFindings(c, analyse, Lines(diff, Sides[n - 1]))
        case Err(e) => Err(e)
        case Ok(fs) => Ok(Extend(p, Sides[n - 1], fs))
  }

  /** Scanning both sides gives the result of run_flawfinder. */
  lemma ScanUpToSpec(c: CProfile, analyse: string -> seq<Hit>, diff: Diff)
    ensures ScanUpTo(c, analyse, diff, |Sides|) == RunFlawfinderSpec(c, analyse, diff)
  {
    assert Sides[0] == Added && Sides[1] == Deleted;
    assert ScanUpTo(c, analyse, diff, 0) == Ok(map[]);
  }

  /** A failure on side `n` ends the scan there, leaving that side's analysis in `hitlist`. */
  lemma ScanFailsAt(c: CProfile, analyse: string -> seq<Hit>, diff: Diff, n: nat)
    requires n < |Sides| && ScanUpTo(c, analyse, diff, n).Ok?
    requires SideFindings(c, analyse, Lines(diff, Sides[n])).Err?
    ensures RunFlawfinderSpec(c, analyse, diff).Err?
    ensures LastScanned(c, analyse, diff) == Lines(diff, Sides[n])
  {
    assert Sides[0] == Added && Sides[1] == Deleted;
    ScanUpToSpec(c, analyse, diff);
    assert ScanUpTo(c, analyse, diff, n + 1).Err?;
    if n == 0 {
      assert ScanUpTo(c, analyse, diff, 2).Err?;
    } else {
      assert ScanUpTo(c, analyse, diff, 0) == Ok(map[]);
    }
  }

  /** When both sides succeed, the second side's analysis is left in `hitlist`. */
  lemma ScanSucceeds(c: CProfile, analyse: string -> seq<Hit>, diff: Diff)
    requires ScanUpTo(c, analyse, diff, |Sides|).Ok?
    ensures LastScanned(c, analyse, diff) == Lines(diff, Sides[|Sides| - 1])
  {
    assert Sides[0] == Added && Sides[1] == Deleted;
    ScanUpToSpec(c, analyse, diff);
  }

  /** run_flawfinder, with its loops (shefmine.py:138-173). */
  method RunFlawfinder(c: CProfile, flawfinder: Flawfinder, diff: Diff) returns (r: Result<PartialOutput>)
    modifies flawfinder
    ensures r == RunFlawfinderSpec(c, flawfinder.analyse, diff)
    ensures flawfinder.hitlist == flawfinder.analyse(BufferText(LineList(c, LastScanned(c, flawfinder.analyse, diff))))
  {
    var partialOutput := map[];
    for si := 0 to |Sides|
      invariant ScanUpTo(c, flawfinder.analyse, diff, si) == Ok(partialOutput)
      invariant si > 0 ==> flawfinder.hitlist == flawfinder.analyse(BufferText(LineList(c, Lines(diff, Sides[si - 1]))))
    {
      var side := AnalyseSide(c, flawfinder, partialOutput, Sides[si], Lines(diff, Sides[si]));
      if side.Err? {
        ScanFailsAt(c, flawfinder.analyse, diff, si);
        return side;
      }
      partialOutput := side.value;
    }
    ScanUpToSpec(c, flawfinder.analyse, diff);
    ScanSucceeds(c, flawfinder.analyse, diff);
    r := Ok(partialOutput);
  }

  /** One iteration of the loop over `diff.items()` (shefmine.py:139-171). */
  method AnalyseSide(c: CProfile, flawfinder: Flawfinder, partialOutput: PartialOutput, key: Side, value: seq<DiffLine>)
    returns (r: Result<PartialOutput>)
    modifies flawfinder
    ensures r == match SideFindings(c, flawfinder.analyse, value)
                 case Err(e) => Err(e)
                 case Ok(fs) => Ok(Extend(partialOutput, key, fs))
    ensures flawfinder.hitlist == flawfinder.analyse(BufferText(LineList(c, value)))
  {
    flawfinder.hitlist := [];
    var linelist := LineList(c, value);
    var buffer := WriteLines(linelist);
    flawfinder.ProcessCFile(buffer);
    assert flawfinder.hitlist == flawfinder.analyse(buffer);
    r := AddHits(partialOutput, key, value, linelist, FilteredHits(c, flawfinder.hitlist));
  }

  /** The writes of shefmine.py:147-148 into the temporary file. */
  method WriteLines(linelist: seq<DiffLine>) returns (buffer: string)
    ensures buffer == BufferText(linelist)
  {
    buffer := [];
    for i := 0 to |linelist|
      invariant buffer == BufferText(linelist[..i])
    {
      TakeSnoc(linelist, i);
      buffer := buffer + linelist[i].text + "\n";
    }
    assert linelist[..|linelist|] == linelist;
  }

  /** The loop over the filtered hits (shefmine.py:161-171). */
  method AddHits(partialOutput: PartialOutput, key: Side, value: seq<DiffLine>, linelist: seq<DiffLine>, hits: seq<Hit>)
    returns (r: Result<PartialOutput>)
    ensures r == match Reconcile(value, linelist, hits)
                 case Err(e) => Err(e)
                 case Ok(fs) => Ok(Extend(partialOutput, key, fs))
  {
    var p := partialOutput;
    for i := 0 to |hits|
      invariant Reconcile(value, linelist, hits[..i]).Ok?
      invariant p == Extend(partialOutput, key, Reconcile(value, linelist, hits[..i]).value)
    {
      var hit := hits[i];
      ghost var before := p;
      if key !in p {
        p := p[key := []];
      }
      var found := FirstWhere(linelist, WithText(hit.contextText));
      if found.None? {
        ReconcileFails(value, linelist, hits, i);
        return Err(StopIteration);
      }
      var lineNum := linelist[found.value].num;
      var source := FirstWhere(value, Numbered(lineNum));
      if source.None? {
        ReconcileFails(value, linelist, hits, i);
        return Err(StopIteration);
      }
      p := p[key := p[key] + [Finding(lineNum, Strip(value[source.value].text), HitName(hit.name))]];
      AppendOne(before, key, Finding(lineNum, Strip(value[source.value].text), HitName(hit.name)));
      HitStep(partialOutput, before, p, key, value, linelist, hits, i);
    }
    assert hits[..|hits|] == hits;
    r := Ok(p);
  }

  /** A hit that finds no line makes the whole reconciliation fail. */
  lemma ReconcileFails(raw: seq<DiffLine>, linelist: seq<DiffLine>, hits: seq<Hit>, i: nat)
    requires i < |hits| && HitFinding(raw, linelist, hits[i]).Err?
    ensures Reconcile(raw, linelist, hits).Err?
  {
    assert Reconcile(raw, linelist, hits[..i + 1]).Err? by {
      assert hits[..i + 1][..i] == hits[..i];
    }
    FailurePersists(raw, linelist, hits, i + 1);
  }

  lemma {:induction false} FailurePersists(raw: seq<DiffLine>, linelist: seq<DiffLine>, hits: seq<Hit>, n: nat)
    requires n <= |hits| && Reconcile(raw, linelist, hits[..n]).Err?
    ensures Reconcile(raw, linelist, hits).Err?
    decreases |hits| - n
  {
    if n < |hits| {
      assert hits[..n + 1][..n] == hits[..n];
      FailurePersists(raw, linelist, hits, n + 1);
    } else {
      assert hits[..n] == hits;
    }
  }

  lemma HitStep(p: PartialOutput, before: PartialOutput, after: PartialOutput, key: Side,
                raw: seq<DiffLine>, linelist: seq<DiffLine>, hits: seq<Hit>, i: nat)
    requires i < |hits|
    requires Reconcile(raw, linelist, hits[..i]).Ok?
    requires before == Extend(p, key, Reconcile(raw, linelist, hits[..i]).value)
    requires HitFinding(raw, linelist, hits[i]).Ok?
    requires after == Extend(before, key, [HitFinding(raw, linelist, hits[i]).value])
    ensures Reconcile(raw, linelist, hits[..i + 1]).Ok?
    ensures after == Extend(p, key, Reconcile(raw, linelist, hits[..i + 1]).value)
  {
    TakeSnoc(hits, i);
    assert hits[..i + 1][..i] == hits[..i];
    ExtendTwice(p, key, Reconcile(raw, linelist, hits[..i]).value, [HitFinding(raw, linelist, hits[i]).value]);
  }

  /** `i` is the first cleaned line whose text is `text`. */
  predicate FirstWithText(linelist: seq<DiffLine>, i: int, text: string) {
    && 0 <= i < |linelist| && linelist[i].text == text
    && forall j :: 0 <= j < i ==> linelist[j].text != text
  }

  /** `k` is the first raw line numbered `num`. */
  predicate FirstNumbered(raw: seq<DiffLine>, k: int, num: int) {
    && 0 <= k < |raw| && raw[k].num == num
    && forall j :: 0 <= j < k ==> raw[j].num != num
  }

  /** Every cleaned line comes from a kept raw line with the same number. */
  lemma {:induction false} LineListSource(c: CProfile, raw: seq<DiffLine>, i: nat) returns (k: nat)
    requires i < |LineList(c, raw)|
    ensures k < |raw| && Kept(c, raw[k])
    ensures LineList(c, raw)[i] == DiffLine(raw[k].num, c.removeComment(Strip(raw[k].text)))
    decreases |raw|
  {
    var init := raw[..|raw| - 1];
    if i < |LineList(c, init)| {
      k := LineListSource(c, init, i);
      assert raw[k] == init[k];
    } else {
      k := |raw| - 1;
    }
  }

  /** Every kept raw line is in the cleaned list, with its number. */
  lemma {:induction false} LineListKeeps(c: CProfile, raw: seq<DiffLine>, k: nat)
    requires k < |raw| && Kept(c, raw[k])
    ensures DiffLine(raw[k].num, c.removeComment(Strip(raw[k].text))) in LineList(c, raw)
    decreases |raw|
  {
    var init := raw[..|raw| - 1];
    if k < |init| {
      assert init[k] == raw[k];
      LineListKeeps(c, init, k);
    }
  }

  /** The lookup of shefmine.py:169 never fails: the number of a cleaned line
      is the number of some raw line. */
  lemma NumberAlwaysFound(c: CProfile, raw: seq<DiffLine>, i: nat)
    requires i < |LineList(c, raw)|
    ensures FirstWhere(raw, Numbered(LineList(c, raw)[i].num)).Some?
  {
    var k := LineListSource(c, raw, i);
    assert Numbered(LineList(c, raw)[i].num)(raw[k]);
  }

  /** The finding of a surviving hit: the number of the first cleaned line
      with the hit's text, the stripped text of the first raw line with that
      number, and the hit's name; StopIteration exactly when no cleaned line
      has the hit's text. */
  lemma HitFindingSpec(c: CProfile, raw: seq<DiffLine>, h: Hit)
    ensures var linelist := LineList(c, raw);
      HitFinding(raw, linelist, h).Err? <==> forall j :: 0 <= j < |linelist| ==> linelist[j].text != h.contextText
    ensures var linelist := LineList(c, raw);
      HitFinding(raw, linelist, h).Ok? ==>
        exists i, k :: FirstWithText(linelist, i, h.contextText) && FirstNumbered(raw, k, linelist[i].num)
          && HitFinding(raw, linelist, h).value == Finding(linelist[i].num, Strip(raw[k].text), HitName(h.name))
  {
    var linelist := LineList(c, raw);
    match FirstWhere(linelist, WithText(h.contextText))
    case None =>
      assert forall j :: 0 <= j < |linelist| ==> !WithText(h.contextText)(linelist[j]);
    case Some(i) =>
      NumberAlwaysFound(c, raw, i);
      var k := FirstWhere(raw, Numbered(linelist[i].num)).value;
      assert FirstWithText(linelist, i, h.contextText) && FirstNumbered(raw, k, linelist[i].num);
  }

  /** Reconciliation succeeds exactly when every hit finds its line, and then
      yields one finding per hit, in hit order. */
  lemma ReconcileSpec(raw: seq<DiffLine>, linelist: seq<DiffLine>, hits: seq<Hit>)
    ensures Reconcile(raw, linelist, hits).Ok? <==> forall k :: 0 <= k < |hits| ==> HitFinding(raw, linelist, hits[k]).Ok?
    ensures Reconcile(raw, linelist, hits).Ok? ==>
      var fs := Reconcile(raw, linelist, hits).value;
      |fs| == |hits| && forall k :: 0 <= k < |hits| ==> HitFinding(raw, linelist, hits[k]) == Ok(fs[k])
  {
    ReconcileOk(raw, linelist, hits);
    if Reconcile(raw, linelist, hits).Ok? {
      ReconcileValues(raw, linelist, hits);
    }
  }

  lemma {:induction false} ReconcileOk(raw: seq<DiffLine>, linelist: seq<DiffLine>, hits: seq<Hit>)
    ensures Reconcile(raw, linelist, hits).Ok? <==> forall k :: 0 <= k < |hits| ==> HitFinding(raw, linelist, hits[k]).Ok?
    decreases |hits|
  {
    if hits != [] {
      var init := hits[..|hits| - 1];
      ReconcileOk(raw, linelist, init);
      assert forall k :: 0 <= k < |init| ==> init[k] == hits[k];
    }
  }

  lemma {:induction false} ReconcileValues(raw: seq<DiffLine>, linelist: seq<DiffLine>, hits: seq<Hit>)
    requires Reconcile(raw, linelist, hits).Ok?
    ensures var fs := Reconcile(raw, linelist, hits).value;
      |fs| == |hits| && forall k :: 0 <= k < |hits| ==> HitFinding(raw, linelist, hits[k]) == Ok(fs[k])
    decreases |hits|
  {
    if hits != [] {
      var init := hits[..|hits| - 1];
      ReconcileValues(raw, linelist, init);
      assert forall k :: 0 <= k < |init| ==> init[k] == hits[k];
    }
  }

  /** Only hits with a positive level whose text is not a comment survive,
      and all of those do. */
  lemma {:induction false} FilteredHitsMembership(c: CProfile, hits: seq<Hit>, h: Hit)
    ensures h in FilteredHits(c, hits) <==> h in hits && Survives(c, h)
    decreases |hits|
  {
    if hits != [] {
      var init := hits[..|hits| - 1];
      SplitLast(hits);
      FilteredHitsMembership(c, init, h);
    }
  }

  /** Some surviving hit of a side has text that no cleaned line has. */
  predicate Unmatched(c: CProfile, analyse: string -> seq<Hit>, raw: seq<DiffLine>) {
    var linelist, hits := LineList(c, raw), SideHits(c, analyse, raw);
    exists k :: 0 <= k < |hits| && forall j :: 0 <= j < |linelist| ==> linelist[j].text != hits[k].contextText
  }

  /** A side's findings fail exactly when one of its surviving hits is unmatched,
      and otherwise number one per surviving hit. */
  lemma SideFindingsSpec(c: CProfile, analyse: string -> seq<Hit>, raw: seq<DiffLine>)
    ensures SideFindings(c, analyse, raw).Err? <==> Unmatched(c, analyse, raw)
    ensures SideFindings(c, analyse, raw).Ok? ==> |SideFindings(c, analyse, raw).value| == |SideHits(c, analyse, raw)|
  {
    var linelist, hits := LineList(c, raw), SideHits(c, analyse, raw);
    ReconcileSpec(raw, linelist, hits);
    forall k | 0 <= k < |hits|
      ensures HitFinding(raw, linelist, hits[k]).Err?
              <==> forall j :: 0 <= j < |linelist| ==> linelist[j].text != hits[k].contextText
    {
      HitFindingSpec(c, raw, hits[k]);
    }
  }

  /** run_flawfinder fails exactly when some side has an unmatched surviving
      hit; otherwise a side's key is present exactly when one of its hits
      survives the filter, and then holds one finding per surviving hit. */
  lemma RunFlawfinderShape(c: CProfile, analyse: string -> seq<Hit>, diff: Diff)
    ensures RunFlawfinderSpec(c, analyse, diff).Err?
            <==> Unmatched(c, analyse, diff.added) || Unmatched(c, analyse, diff.deleted)
    ensures RunFlawfinderSpec(c, analyse, diff).Ok? ==>
      var p := RunFlawfinderSpec(c, analyse, diff).value;
      && NoEmptySide(p)
      && (Added in p <==> SideHits(c, analyse, diff.added) != [])
      && (Deleted in p <==> SideHits(c, analyse, diff.deleted) != [])
      && (Added in p ==> |p[Added]| == |SideHits(c, analyse, diff.added)|)
      && (Deleted in p ==> |p[Deleted]| == |SideHits(c, analyse, diff.deleted)|)
  {
    SideFindingsSpec(c, analyse, diff.added);
    SideFindingsSpec(c, analyse, diff.deleted);
    if RunFlawfinderSpec(c, analyse, diff).Ok? {
      PartialOfKeys(SideFindings(c, analyse, diff.added).value, SideFindings(c, analyse, diff.deleted).value);
    }
  }
}
