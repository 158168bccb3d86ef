/** What search_repository (shefmine.py:20-70) promises about its output:
    which commits get an entry, what the entry holds, and which changed files
    are listed under it. */
module SearchProperties {
  import opened Common
  import opened Text
  import opened Paths
  import opened Normaliser
  import opened Diffs
  import opened Grep
  import opened CScan
  import opened Seqs
  import opened Search

  /** The first catalog entry whose regex finds something in `message`, as
      the vulnerability recorded for it. */
  function FirstMatch(catalog: seq<VulnerabilityRule>, message: string): (r: Option<Vulnerability>)
    ensures r.None? <==> forall i :: 0 <= i < |catalog| ==> catalog[i].search(message).None?
  {
    if catalog == [] then None
    else
      var earlier := FirstMatch(catalog[..|catalog| - 1], message);
      var rule := catalog[|catalog| - 1];
      if earlier.Some? then earlier
      else if rule.search(message).Some? then Some(Vulnerability(rule.name, rule.search(message).value))
      else None
  }

  /** Entry `i` is the first of the catalog whose regex matches `message`. */
  predicate FirstRule(catalog: seq<VulnerabilityRule>, message: string, i: int) {
    && 0 <= i < |catalog|
    && catalog[i].search(message).Some?
    && forall j :: 0 <= j < i ==> catalog[j].search(message).None?
  }

  /** A match names the first matching catalog entry and the text its regex matched. */
  lemma {:induction false} FirstMatchRule(catalog: seq<VulnerabilityRule>, message: string) returns (i: int)
    requires FirstMatch(catalog, message).Some?
    ensures FirstRule(catalog, message, i)
    ensures FirstMatch(catalog, message).value == Vulnerability(catalog[i].name, catalog[i].search(message).value)
  {
    var n := |catalog| - 1;
    if FirstMatch(catalog[..n], message).Some? {
      i := FirstMatchRule(catalog[..n], message);
      assert catalog[..n][i] == catalog[i];
    } else {
      i := n;
      assert forall j :: 0 <= j < n ==> catalog[..n][j] == catalog[j];
    }
  }

  /** The catalog loop leaves an output that already holds the commit alone;
      otherwise it records the first match, if any. */
  lemma {:induction false} ClassifiedFirst(catalog: seq<VulnerabilityRule>, output: Output, commit: Commit, message: string)
    ensures Classified(catalog, output, commit, message) ==
      if commit.hash in output.entries then output
      else match FirstMatch(catalog, message)
        case None => output
        case Some(v) => Record(output, commit, v)
  {
    if catalog != [] {
      ClassifiedFirst(catalog[..|catalog| - 1], output, commit, message);
    }
  }

  /** The `files_changed` list, empty while absent. */
  function FilesOf(report: CommitReport): seq<FileReport> {
    if report.filesChanged.Some? then report.filesChanged.value else []
  }

  /** One commit's effect on the output: an entry that exists gets the files
      of this commit appended; a matched commit without an entry gets a new
      one, last in key order; nothing else changes. */
  lemma CommitEffect(catalog: seq<VulnerabilityRule>, o: Output, commit: Commit, message: string,
                     scans: seq<FileScan>, o': Output)
    requires ProcessCommit(catalog, o, commit, message, scans) == Ok(o')
    ensures forall h :: h != commit.hash ==> (h in o'.entries <==> h in o.entries)
    ensures forall h :: h != commit.hash && h in o.entries ==> o'.entries[h] == o.entries[h]
    ensures commit.hash in o'.entries <==> commit.hash in o.entries || FirstMatch(catalog, message).Some?
    ensures commit.hash in o.entries ==>
      o'.order == o.order && Attach(o.entries[commit.hash], scans) == Ok(o'.entries[commit.hash])
    ensures commit.hash !in o.entries && FirstMatch(catalog, message).Some? ==>
      && o'.order == o.order + [commit.hash]
      && Attach(CommitReport(commit.msg, [FirstMatch(catalog, message).value], None), scans) == Ok(o'.entries[commit.hash])
    ensures commit.hash !in o.entries && FirstMatch(catalog, message).None? ==> o' == o
  {
    ClassifiedFirst(catalog, o, commit, message);
  }

  /** A run that ends in `Ok` went through the shorter prefix with `Ok`. */
  lemma PrefixOk(catalog: seq<VulnerabilityRule>, commits: seq<Commit>, messages: seq<string>, scans: seq<seq<FileScan>>)
    requires |messages| == |commits| && |scans| == |commits| && commits != []
    requires Run(catalog, commits, messages, scans).Ok?
    ensures var n := |commits| - 1;
      && Run(catalog, commits[..n], messages[..n], scans[..n]).Ok?
      && ProcessCommit(catalog, Run(catalog, commits[..n], messages[..n], scans[..n]).value, commits[n], messages[n], scans[n])
           == Run(catalog, commits, messages, scans)
  {
  }

  // ---------------------------------------------------------------------
  // The modification loop (shefmine.py:48-64)
  // ---------------------------------------------------------------------

  /** The loop fails exactly when the analysis of some modification fails. */
  lemma {:induction false} AttachOk(report: CommitReport, scans: seq<FileScan>)
    ensures Attach(report, scans).Ok? <==> forall i :: 0 <= i < |scans| ==> scans[i].result.Ok?
  {
    if scans != [] {
      var n := |scans| - 1;
      AttachOk(report, scans[..n]);
      assert forall i :: 0 <= i < n ==> scans[..n][i] == scans[i];
    }
  }

  /** The loop keeps the message and the vulnerabilities, only appends to
      `files_changed`, and leaves it absent exactly when it was absent and
      every modification had an empty partial output. */
  lemma {:induction false} AttachKeeps(report: CommitReport, scans: seq<FileScan>)
    requires Attach(report, scans).Ok?
    ensures var r := Attach(report, scans).value;
      && r.message == report.message
      && r.vulnerabilities == report.vulnerabilities
      && (r.filesChanged.None? <==> report.filesChanged.None? && forall i :: 0 <= i < |scans| ==> scans[i].result == Ok(map[]))
      && |FilesOf(report)| <= |FilesOf(r)|
      && FilesOf(r)[..|FilesOf(report)|] == FilesOf(report)
  {
    if scans != [] {
      var n := |scans| - 1;
      AttachKeeps(report, scans[..n]);
      var before := Attach(report, scans[..n]).value;
      var r := Attach(report, scans).value;
      assert forall i :: 0 <= i < n ==> scans[..n][i] == scans[i];
      if scans[n].result.value != map[] {
        var f := FileReport(scans[n].file, scans[n].result.value);
        assert FilesOf(r) == FilesOf(before) + [f];
        PrefixOfPrefix(FilesOf(r), |FilesOf(report)|, |FilesOf(before)|);
      }
    } else {
      WholePrefix(FilesOf(report));
    }
  }

  /** Every file report the loop appends comes from a modification whose
      partial output is non-empty, under the path that modification is
      reported under. */
  lemma {:induction false} AttachedSource(report: CommitReport, scans: seq<FileScan>, k: int) returns (i: int)
    requires Attach(report, scans).Ok?
    requires |FilesOf(report)| <= k < |FilesOf(Attach(report, scans).value)|
    ensures 0 <= i < |scans| && scans[i].result.Ok? && scans[i].result.value != map[]
    ensures FilesOf(Attach(report, scans).value)[k] == FileReport(scans[i].file, scans[i].result.value)
  {
    var n := |scans| - 1;
    AttachKeeps(report, scans[..n]);
    var before := Attach(report, scans[..n]).value;
    if k < |FilesOf(before)| {
      i := AttachedSource(report, scans[..n], k);
      assert scans[..n][i] == scans[i];
    } else {
      i := n;
    }
  }

  /** Every modification with a non-empty partial output gets a file report. */
  lemma {:induction false} AttachedReported(report: CommitReport, scans: seq<FileScan>, i: int) returns (k: int)
    requires Attach(report, scans).Ok?
    requires 0 <= i < |scans| && scans[i].result.Ok? && scans[i].result.value != map[]
    ensures |FilesOf(report)| <= k < |FilesOf(Attach(report, scans).value)|
    ensures FilesOf(Attach(report, scans).value)[k] == FileReport(scans[i].file, scans[i].result.value)
  {
    var n := |scans| - 1;
    AttachKeeps(report, scans[..n]);
    var before := Attach(report, scans[..n]).value;
    if i < n {
      assert scans[..n][i] == scans[i];
      k := AttachedReported(report, scans[..n], i);
    } else {
      k := |FilesOf(before)|;
    }
  }

  /** A report as search_repository builds it: one vulnerability, and a
      `files_changed` list that is absent or non-empty and lists only files
      with findings, none under an empty side. */
  predicate ReportWellFormed(report: CommitReport) {
    && |report.vulnerabilities| == 1
    && (report.filesChanged.Some? ==> report.filesChanged.value != [])
    && forall k :: 0 <= k < |FilesOf(report)| ==>
         FilesOf(report)[k].findings != map[] && NoEmptySide(FilesOf(report)[k].findings)
  }

  /** No partial output among the scans has an empty side. */
  predicate ScansWellFormed(scans: seq<FileScan>) {
    forall i :: 0 <= i < |scans| && scans[i].result.Ok? ==> NoEmptySide(scans[i].result.value)
  }

  /** The loop keeps a report well formed. */
  lemma {:induction false} AttachWellFormed(report: CommitReport, scans: seq<FileScan>)
    requires Attach(report, scans).Ok? && ReportWellFormed(report) && ScansWellFormed(scans)
    ensures ReportWellFormed(Attach(report, scans).value)
  {
    if scans != [] {
      var n := |scans| - 1;
      assert forall i :: 0 <= i < n ==> scans[..n][i] == scans[i];
      AttachWellFormed(report, scans[..n]);
      var before := Attach(report, scans[..n]).value;
      if scans[n].result.value != map[] {
        var f := FileReport(scans[n].file, scans[n].result.value);
        var r := Attach(report, scans).value;
        assert FilesOf(r) == FilesOf(before) + [f];
        assert forall k :: 0 <= k < |FilesOf(before)| ==> FilesOf(r)[k] == FilesOf(before)[k];
      }
    }
  }

  /** A partial output never has an empty side, and only the C/C++ scan can fail. */
  lemma FileResultShape(cfg: Config, analyse: string -> seq<Hit>, m: Modification)
    ensures FileResult(cfg, analyse, m).Ok? ==> NoEmptySide(FileResult(cfg, analyse, m).value)
    ensures FileResult(cfg, analyse, m).Err? ==>
      && LowerStr(Splitext(ReportedPath(m)).1) in cfg.c.extensions
      && RunFlawfinderSpec(cfg.c, analyse, m.diff).Err?
  {
    ProcessDiffShape(cfg.languages, m.diff, Splitext(ReportedPath(m)).1);
    RunFlawfinderShape(cfg.c, analyse, m.diff);
  }

  /** A file whose extension neither the C/C++ scan nor any language profile
      claims contributes nothing. */
  lemma UnsupportedFileSkipped(cfg: Config, analyse: string -> seq<Hit>, m: Modification)
    requires LowerStr(Splitext(ReportedPath(m)).1) !in cfg.c.extensions
    requires forall i :: 0 <= i < |cfg.languages| ==> LowerStr(Splitext(ReportedPath(m)).1) !in cfg.languages[i].extensions
    ensures FileResult(cfg, analyse, m) == Ok(map[])
  {
    ProcessDiffShape(cfg.languages, m.diff, Splitext(ReportedPath(m)).1);
  }

  /** The scans of every commit's modifications are well formed. */
  lemma AllScansWellFormed(cfg: Config, analyse: string -> seq<Hit>, commits: seq<Commit>)
    ensures forall k :: 0 <= k < |commits| ==> ScansWellFormed(AllScans(cfg, analyse, commits)[k])
  {
    forall k, i | 0 <= k < |commits| && 0 <= i < |commits[k].modifications|
      ensures FileResult(cfg, analyse, commits[k].modifications[i]).Ok? ==>
                NoEmptySide(FileResult(cfg, analyse, commits[k].modifications[i]).value)
    {
      FileResultShape(cfg, analyse, commits[k].modifications[i]);
    }
  }

  // ---------------------------------------------------------------------
  // The commit loop (shefmine.py:30-64)
  // ---------------------------------------------------------------------

  /** The `output` dictionary is well formed: each key once in insertion
      order, the same keys as the entries, and each entry well formed. */
  predicate WellFormed(o: Output) {
    && (forall i, j :: 0 <= i < j < |o.order| ==> o.order[i] != o.order[j])
    && o.entries.Keys == set h | h in o.order
    && (forall h :: h in o.entries ==> ReportWellFormed(o.entries[h]))
  }

  /** One commit keeps the output well formed. */
  lemma CommitWellFormed(catalog: seq<VulnerabilityRule>, o: Output, commit: Commit, message: string,
                         scans: seq<FileScan>, o': Output)
    requires ProcessCommit(catalog, o, commit, message, scans) == Ok(o')
    requires WellFormed(o) && ScansWellFormed(scans)
    ensures WellFormed(o')
  {
    CommitEffect(catalog, o, commit, message, scans, o');
    if commit.hash in o.entries {
      AttachWellFormed(o.entries[commit.hash], scans);
    } else if FirstMatch(catalog, message).Some? {
      AttachWellFormed(CommitReport(commit.msg, [FirstMatch(catalog, message).value], None), scans);
      assert forall i :: 0 <= i < |o.order| ==> o'.order[i] == o.order[i];
    }
  }

  /** The loop keeps the output well formed. In this and the following
      lemmas, `messages[k]` stands for the normalised message of `commits[k]`
      and `scans[k]` for the scans of its modifications; the facts hold
      whatever they are. */
  lemma {:induction false} RunWellFormed(catalog: seq<VulnerabilityRule>, commits: seq<Commit>, messages: seq<string>,
                                         scans: seq<seq<FileScan>>)
    requires |messages| == |commits| && |scans| == |commits| && Run(catalog, commits, messages, scans).Ok?
    requires forall k :: 0 <= k < |scans| ==> ScansWellFormed(scans[k])
    ensures WellFormed(Run(catalog, commits, messages, scans).value)
  {
    if commits != [] {
      var n := |commits| - 1;
      PrefixOk(catalog, commits, messages, scans);
      assert forall k :: 0 <= k < n ==> scans[..n][k] == scans[k];
      RunWellFormed(catalog, commits[..n], messages[..n], scans[..n]);
      CommitWellFormed(catalog, Run(catalog, commits[..n], messages[..n], scans[..n]).value, commits[n], messages[n],
                       scans[n], Run(catalog, commits, messages, scans).value);
    }
  }

  /** Every commit some catalog entry matches has an entry (even one without
      changed files). */
  lemma {:induction false} RunKeepsMatched(catalog: seq<VulnerabilityRule>, commits: seq<Commit>, messages: seq<string>,
                                           scans: seq<seq<FileScan>>, k: int)
    requires |messages| == |commits| && |scans| == |commits| && Run(catalog, commits, messages, scans).Ok?
    requires 0 <= k < |commits| && FirstMatch(catalog, messages[k]).Some?
    ensures commits[k].hash in Run(catalog, commits, messages, scans).value.entries
  {
    var n := |commits| - 1;
    PrefixOk(catalog, commits, messages, scans);
    var o := Run(catalog, commits[..n], messages[..n], scans[..n]).value;
    CommitEffect(catalog, o, commits[n], messages[n], scans[n], Run(catalog, commits, messages, scans).value);
    if k < n {
      assert commits[..n][k] == commits[k] && messages[..n][k] == messages[k];
      RunKeepsMatched(catalog, commits[..n], messages[..n], scans[..n], k);
    }
  }

  /** Every entry comes from the first commit with its hash that a catalog
      entry matches, and holds that commit's raw message and first match. */
  lemma {:induction false} RunEntrySource(catalog: seq<VulnerabilityRule>, commits: seq<Commit>, messages: seq<string>,
                                          scans: seq<seq<FileScan>>, h: string) returns (k: int)
    requires |messages| == |commits| && |scans| == |commits| && Run(catalog, commits, messages, scans).Ok?
    requires h in Run(catalog, commits, messages, scans).value.entries
    ensures 0 <= k < |commits| && commits[k].hash == h && FirstMatch(catalog, messages[k]).Some?
    ensures forall j :: 0 <= j < k && commits[j].hash == h ==> FirstMatch(catalog, messages[j]).None?
    ensures var entry := Run(catalog, commits, messages, scans).value.entries[h];
      && entry.message == commits[k].msg
      && entry.vulnerabilities == [FirstMatch(catalog, messages[k]).value]
  {
    var n := |commits| - 1;
    var commit := commits[n];
    PrefixOk(catalog, commits, messages, scans);
    var o := Run(catalog, commits[..n], messages[..n], scans[..n]).value;
    var o' := Run(catalog, commits, messages, scans).value;
    CommitEffect(catalog, o, commit, messages[n], scans[n], o');
    if h in o.entries {
      k := RunEntrySource(catalog, commits[..n], messages[..n], scans[..n], h);
      assert commits[..n][k] == commits[k] && messages[..n][k] == messages[k];
      assert forall j :: 0 <= j < k ==> commits[..n][j] == commits[j] && messages[..n][j] == messages[j];
      if h == commit.hash {
        AttachKeeps(o.entries[h], scans[n]);
      }
    } else {
      k := n;
      forall j | 0 <= j < n && commits[j].hash == h ensures FirstMatch(catalog, messages[j]).None? {
        if FirstMatch(catalog, messages[j]).Some? {
          assert commits[..n][j] == commits[j] && messages[..n][j] == messages[j];
          RunKeepsMatched(catalog, commits[..n], messages[..n], scans[..n], j);
        }
      }
      AttachKeeps(CommitReport(commit.msg, [FirstMatch(catalog, messages[n]).value], None), scans[n]);
    }
  }

  /** No two commits share a hash (as in a git history). */
  predicate DistinctHashes(commits: seq<Commit>) {
    forall i, j :: 0 <= i < j < |commits| ==> commits[i].hash != commits[j].hash
  }

  /** The hashes of the commits some catalog entry matches, in commit order. */
  function MatchedHashes(catalog: seq<VulnerabilityRule>, commits: seq<Commit>, messages: seq<string>): seq<string>
    requires |messages| == |commits|
  {
    if commits == [] then []
    else
      var n := |commits| - 1;
      MatchedHashes(catalog, commits[..n], messages[..n])
        + (if FirstMatch(catalog, messages[n]).Some? then [commits[n].hash] else [])
  }

  /** With distinct hashes, the keys of the output are the hashes of the
      matched commits, in commit order, and each entry is the matched commit's
      raw message and first match followed by the file reports of its own
      modifications. */
  lemma {:induction false} RunDistinct(catalog: seq<VulnerabilityRule>, commits: seq<Commit>, messages: seq<string>,
                                       scans: seq<seq<FileScan>>)
    requires |messages| == |commits| && |scans| == |commits| && Run(catalog, commits, messages, scans).Ok?
    requires DistinctHashes(commits)
    ensures var o := Run(catalog, commits, messages, scans).value;
      && o.order == MatchedHashes(catalog, commits, messages)
      && forall k :: 0 <= k < |commits| && FirstMatch(catalog, messages[k]).Some? ==>
           && commits[k].hash in o.entries
           && Attach(CommitReport(commits[k].msg, [FirstMatch(catalog, messages[k]).value], None), scans[k])
                == Ok(o.entries[commits[k].hash])
  {
    if commits != [] {
      var n := |commits| - 1;
      var commit := commits[n];
      PrefixOk(catalog, commits, messages, scans);
      var o := Run(catalog, commits[..n], messages[..n], scans[..n]).value;
      var o' := Run(catalog, commits, messages, scans).value;
      assert DistinctHashes(commits[..n]);
      RunDistinct(catalog, commits[..n], messages[..n], scans[..n]);
      if commit.hash in o.entries {
        var j := RunEntrySource(catalog, commits[..n], messages[..n], scans[..n], commit.hash);
        assert false;
      }
      CommitEffect(catalog, o, commit, messages[n], scans[n], o');
      forall k | 0 <= k < n && FirstMatch(catalog, messages[k]).Some?
        ensures commits[k].hash in o'.entries
        ensures Attach(CommitReport(commits[k].msg, [FirstMatch(catalog, messages[k]).value], None), scans[k])
                  == Ok(o'.entries[commits[k].hash])
      {
        assert commits[..n][k] == commits[k] && messages[..n][k] == messages[k] && scans[..n][k] == scans[k];
      }
    }
  }

  /** A run fails only when the analysis of some modification of a matched
      commit fails. */
  lemma {:induction false} RunFailureSource(catalog: seq<VulnerabilityRule>, commits: seq<Commit>, messages: seq<string>,
                                            scans: seq<seq<FileScan>>) returns (k: int, i: int)
    requires |messages| == |commits| && |scans| == |commits| && Run(catalog, commits, messages, scans).Err?
    ensures 0 <= k < |commits| && 0 <= i < |scans[k]| && scans[k][i].result.Err?
    ensures Run(catalog, commits[..k], messages[..k], scans[..k]).Ok?
    ensures commits[k].hash in Classified(catalog, Run(catalog, commits[..k], messages[..k], scans[..k]).value,
                                          commits[k], messages[k]).entries
  {
    var n := |commits| - 1;
    if Run(catalog, commits[..n], messages[..n], scans[..n]).Err? {
      k, i := RunFailureSource(catalog, commits[..n], messages[..n], scans[..n]);
      assert commits[..n][k] == commits[k] && messages[..n][k] == messages[k] && scans[..n][k] == scans[k];
      PrefixOfPrefix(commits, k, n);
      PrefixOfPrefix(messages, k, n);
      PrefixOfPrefix(scans, k, n);
    } else {
      var o := Run(catalog, commits[..n], messages[..n], scans[..n]).value;
      var c := Classified(catalog, o, commits[n], messages[n]);
      AttachOk(c.entries[commits[n].hash], scans[n]);
      k := n;
      i :| 0 <= i < |scans[n]| && scans[n][i].result.Err?;
    }
  }

  /** search_repository fails only when the C/C++ scan of a changed file of
      a matched commit fails (the StopIteration of shefmine.py:165). */
  lemma SearchFailureSource(cfg: Config, analyse: string -> seq<Hit>, commits: seq<Commit>) returns (k: int, i: int)
    requires SearchSpec(cfg, analyse, commits).Err?
    ensures 0 <= k < |commits| && 0 <= i < |commits[k].modifications|
    ensures var m := commits[k].modifications[i];
      && LowerStr(Splitext(ReportedPath(m)).1) in cfg.c.extensions
      && RunFlawfinderSpec(cfg.c, analyse, m.diff).Err?
  {
    var scans := AllScans(cfg, analyse, commits);
    k, i := RunFailureSource(cfg.catalog, commits, Normalised(commits), scans);
    FileResultShape(cfg, analyse, commits[k].modifications[i]);
  }

  /** The output of search_repository is well formed. */
  lemma SearchWellFormed(cfg: Config, analyse: string -> seq<Hit>, commits: seq<Commit>)
    requires SearchSpec(cfg, analyse, commits).Ok?
    ensures WellFormed(SearchSpec(cfg, analyse, commits).value)
  {
    AllScansWellFormed(cfg, analyse, commits);
    RunWellFormed(cfg.catalog, commits, Normalised(commits), AllScans(cfg, analyse, commits));
  }

  /** Every commit whose normalised message some catalog entry matches has
      an entry in the output of search_repository. */
  lemma SearchKeepsMatched(cfg: Config, analyse: string -> seq<Hit>, commits: seq<Commit>, k: int)
    requires SearchSpec(cfg, analyse, commits).Ok?
    requires 0 <= k < |commits| && FirstMatch(cfg.catalog, ProcessCommitMessage(commits[k].msg)).Some?
    ensures commits[k].hash in SearchSpec(cfg, analyse, commits).value.entries
  {
    RunKeepsMatched(cfg.catalog, commits, Normalised(commits), AllScans(cfg, analyse, commits), k);
  }

  /** Every entry of the output of search_repository belongs to a commit
      whose normalised message some catalog entry matches (the first such
      commit with that hash), and holds its raw message and its first match. */
  lemma SearchEntrySource(cfg: Config, analyse: string -> seq<Hit>, commits: seq<Commit>, h: string) returns (k: int)
    requires SearchSpec(cfg, analyse, commits).Ok? && h in SearchSpec(cfg, analyse, commits).value.entries
    ensures 0 <= k < |commits| && commits[k].hash == h
    ensures FirstMatch(cfg.catalog, ProcessCommitMessage(commits[k].msg)).Some?
    ensures forall j :: 0 <= j < k && commits[j].hash == h ==> FirstMatch(cfg.catalog, ProcessCommitMessage(commits[j].msg)).None?
    ensures var entry := SearchSpec(cfg, analyse, commits).value.entries[h];
      && entry.message == commits[k].msg
      && entry.vulnerabilities == [FirstMatch(cfg.catalog, ProcessCommitMessage(commits[k].msg)).value]
  {
    var messages := Normalised(commits);
    k := RunEntrySource(cfg.catalog, commits, messages, AllScans(cfg, analyse, commits), h);
    assert forall j :: 0 <= j < |commits| ==> messages[j] == ProcessCommitMessage(commits[j].msg);
  }

  // ---------------------------------------------------------------------
  // flawfinder's global hit list (shefmine.py:141-154)
  // ---------------------------------------------------------------------

  /** A modification flawfinder is not run on leaves the hit list alone, and
      a failing one is always a C/C++ file, so it has run flawfinder. */
  lemma FlawfinderHitsShape(cfg: Config, analyse: string -> seq<Hit>, m: Modification)
    ensures Scan(cfg, analyse, m).hits.None? <==> LowerStr(Splitext(ReportedPath(m)).1) !in cfg.c.extensions
    ensures Scan(cfg, analyse, m).result.Err? ==> Scan(cfg, analyse, m).hits.Some?
  {
    FileResultShape(cfg, analyse, m);
  }

  /** When no modification runs flawfinder, the modification loop leaves the
      hit list as it was. */
  lemma {:induction false} HitsAfterUnchanged(h: seq<Hit>, scans: seq<FileScan>)
    requires forall i :: 0 <= i < |scans| ==> scans[i].hits.None?
    ensures HitsAfter(h, scans) == h
    decreases |scans|
  {
    if scans != [] {
      HitsAfterUnchanged(h, scans[1..]);
    }
  }

  /** When every modification succeeds, the hit list left is the initial one
      if no modification runs flawfinder, and otherwise that of the last
      modification that does. */
  lemma {:induction false} HitsAfterLast(h: seq<Hit>, scans: seq<FileScan>) returns (i: int)
    requires forall k :: 0 <= k < |scans| ==> scans[k].result.Ok?
    ensures -1 <= i < |scans|
    ensures i == -1 ==> HitsAfter(h, scans) == h && forall j :: 0 <= j < |scans| ==> scans[j].hits.None?
    ensures i >= 0 ==> && scans[i].hits.Some? && HitsAfter(h, scans) == scans[i].hits.value
                       && forall j :: i < j < |scans| ==> scans[j].hits.None?
    decreases |scans|
  {
    if scans == [] {
      i := -1;
    } else {
      var h' := if scans[0].hits.Some? then scans[0].hits.value else h;
      var i' := HitsAfterLast(h', scans[1..]);
      if i' >= 0 {
        i := i' + 1;
      } else if scans[0].hits.Some? {
        i := 0;
      } else {
        i := -1;
        forall j | 0 <= j < |scans| ensures scans[j].hits.None? {
          if j > 0 { assert scans[j] == scans[1..][j - 1]; }
        }
      }
    }
  }

  /** The modification loop ends at the first failing modification: the
      modifications after it do not change the hit list. */
  lemma {:induction false} HitsAfterStops(h: seq<Hit>, scans: seq<FileScan>, i: int)
    requires 0 <= i < |scans| && scans[i].result.Err?
    requires forall j :: 0 <= j < i ==> scans[j].result.Ok?
    ensures HitsAfter(h, scans) == HitsAfter(h, scans[..i + 1])
    decreases i
  {
    if i > 0 {
      var h' := if scans[0].hits.Some? then scans[0].hits.value else h;
      assert scans[..i + 1][1..] == scans[1..][..i];
      HitsAfterStops(h', scans[1..], i - 1);
    }
  }

  /** When no modification of any commit runs flawfinder, the commit loop
      leaves the hit list as it was. */
  lemma {:induction false} RunHitsUnchanged(catalog: seq<VulnerabilityRule>, h: seq<Hit>, output: Output,
                                            commits: seq<Commit>, messages: seq<string>, scans: seq<seq<FileScan>>)
    requires |messages| == |commits| && |scans| == |commits|
    requires forall k, i :: 0 <= k < |scans| && 0 <= i < |scans[k]| ==> scans[k][i].hits.None?
    ensures RunHits(catalog, h, output, commits, messages, scans) == h
    decreases |commits|
  {
    if commits != [] {
      HitsAfterUnchanged(h, scans[0]);
      match ProcessCommit(catalog, output, commits[0], messages[0], scans[0])
      case Err(_) =>
      case Ok(o) =>
        assert forall k :: 0 <= k < |scans| - 1 ==> scans[1..][k] == scans[k + 1];
        RunHitsUnchanged(catalog, h, o, commits[1..], messages[1..], scans[1..]);
    }
  }

  /** A search over commits none of whose changed files has a C/C++
      extension never touches flawfinder's hit list. */
  lemma SearchKeepsHitlist(cfg: Config, analyse: string -> seq<Hit>, commits: seq<Commit>, h: seq<Hit>)
    requires forall k, i :: 0 <= k < |commits| && 0 <= i < |commits[k].modifications| ==>
               LowerStr(Splitext(ReportedPath(commits[k].modifications[i])).1) !in cfg.c.extensions
    ensures RunHits(cfg.catalog, h, Output([], map[]), commits, Normalised(commits), AllScans(cfg, analyse, commits)) == h
  {
    var scans: seq<seq<FileScan>> := AllScans(cfg, analyse, commits);
    forall k, i | 0 <= k < |scans| && 0 <= i < |scans[k]| ensures scans[k][i].hits.None? {
      assert scans[k][i] == Scan(cfg, analyse, commits[k].modifications[i]);
    }
    RunHitsUnchanged(cfg.catalog, h, Output([], map[]), commits, Normalised(commits), scans);
  }
}
