/** The per-file diff that pydriller's `parse_diff` hands to the analysers,
    and the partial output both analysers build from it. */
module Diffs {

  /** One `(line_number, line_text)` pair of a diff side. */
  datatype DiffLine = DiffLine(num: int, text: string)

  /** `{'added': [...], 'deleted': [...]}`, iterated in that order. */
  datatype Diff = Diff(added: seq<DiffLine>, deleted: seq<DiffLine>)

  datatype Side = Added | Deleted

  /** The key order of `diff.items()`. */
  const Sides: seq<Side> := [Added, Deleted]

  function Lines(d: Diff, side: Side): seq<DiffLine> {
    match side
    case Added => d.added
    case Deleted => d.deleted
  }

  /** The `vulnerability` value of a finding: the list of matching rules
      (process_diff) or the single hit name (run_flawfinder). */
  datatype Labels = RuleNames(names: seq<string>) | HitName(name: string)

  /** `{'line_num': ..., 'line': ..., 'vulnerability': ...}` */
  datatype Finding = Finding(lineNum: int, line: string, vulnerability: Labels)

  /** The `partial_output` dictionary: a key is present only once a finding
      for it has been appended. */
  type PartialOutput = map<Side, seq<Finding>>

  /** Appending `fs` one by one under `side`, creating the key on the first
      append (`if key not in partial_output: partial_output[key] = []`). */
  function Extend(p: PartialOutput, side: Side, fs: seq<Finding>): (r: PartialOutput)
    ensures r.Keys == if fs == [] then p.Keys else p.Keys + {side}
    ensures forall s :: s in p && s != side ==> r[s] == p[s]
    ensures side in r ==> r[side] == (if side in p then p[side] else []) + fs
  {
    if fs == [] then p else p[side := (if side in p then p[side] else []) + fs]
  }

  /** Extending twice under one side is extending once with both lists. */
  lemma ExtendTwice(p: PartialOutput, side: Side, fs: seq<Finding>, gs: seq<Finding>)
    ensures Extend(Extend(p, side, fs), side, gs) == Extend(p, side, fs + gs)
  {
    if fs == [] {
      assert fs + gs == gs;
    } else if gs == [] {
      assert fs + gs == fs;
    } else {
      var before := if side in p then p[side] else [];
      var m := p[side := before + fs];
      assert Extend(m, side, gs) == m[side := (before + fs) + gs];
      assert (before + fs) + gs == before + (fs + gs);
      assert m[side := before + (fs + gs)] == p[side := before + (fs + gs)];
    }
  }

  /** `if key not in partial_output: partial_output[key] = []` followed by
      `partial_output[key].append(f)` extends the side by `f`. */
  lemma AppendOne(before: PartialOutput, side: Side, f: Finding)
    ensures var created := if side in before then before else before[side := []];
      created[side := created[side] + [f]] == Extend(before, side, [f])
  {
  }

  /** The partial output made of the findings of each side. */
  function PartialOf(added: seq<Finding>, deleted: seq<Finding>): PartialOutput {
    Extend(Extend(map[], Added, added), Deleted, deleted)
  }

  /** Every key present holds at least one finding. */
  predicate NoEmptySide(p: PartialOutput) {
    forall side :: side in p ==> p[side] != []
  }

  /** A side's key is present exactly when it has findings, and then holds
      them all; no key maps to an empty list. */
  lemma PartialOfKeys(added: seq<Finding>, deleted: seq<Finding>)
    ensures var p := PartialOf(added, deleted);
      && (Added in p <==> added != []) && (Added in p ==> p[Added] == added)
      && (Deleted in p <==> deleted != []) && (Deleted in p ==> p[Deleted] == deleted)
      && NoEmptySide(p)
      && (p == map[] <==> added == [] && deleted == [])
  {
    var p := PartialOf(added, deleted);
    if added != [] { assert Added in p; }
    if deleted != [] { assert Deleted in p; }
  }
}
