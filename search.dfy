/** search_repository (shefmine.py:20-70): classify each commit by its
    normalised message against the vulnerability catalog, then attach the
    findings of every changed file of a classified commit. */
module Search {
  import opened Common
  import opened Text
  import opened Paths
  import opened Normaliser
  import opened Diffs
  import opened Grep
  import opened CScan
  import opened Seqs

  /** One entry of `vulnerability_list`: its name, and `regex.search` on a
      normalised message, giving the matched text when it matches. */
  datatype VulnerabilityRule = VulnerabilityRule(name: string, search: string -> Option<string>)

  /** pydriller's modification types. */
  datatype ChangeType = Add | Copy | Rename | Delete | Modify | Unknown

  /** One changed file of a commit, with its already parsed diff. */
  datatype Modification = Modification(changeType: ChangeType, oldPath: string, newPath: string, diff: Diff)

  datatype Commit = Commit(hash: string, msg: string, modifications: seq<Modification>)

  /** `{'name': ..., 'match': ...}` */
  datatype Vulnerability = Vulnerability(name: string, matched: string)

  /** `{'file': ..., **partial_output}` */
  datatype FileReport = FileReport(file: string, findings: PartialOutput)

  /** The report of one commit; `filesChanged` is `None` while the
      `files_changed` key is absent. */
  datatype CommitReport = CommitReport(message: string, vulnerabilities: seq<Vulnerability>, filesChanged: Option<seq<FileReport>>)

  /** The `output` dictionary: its keys in insertion order, and its entries. */
  datatype Output = Output(order: seq<string>, entries: map<string, CommitReport>)

  /** What the core reads from elsewhere: the vulnerability catalog, the
      language profiles of the generic matcher, and the C/C++ profile. */
  datatype Config = Config(catalog: seq<VulnerabilityRule>, languages: seq<Language>, c: CProfile)

  /** A new entry for `commit`, holding its raw message and one vulnerability
      (shefmine.py:36-44). */
  function Record(output: Output, commit: Commit, v: Vulnerability): Output {
    Output(output.order + [commit.hash],
           output.entries[commit.hash := CommitReport(commit.msg, [v], None)])
  }

  /** The catalog loop of shefmine.py:31-44 for one commit, whose normalised
      message is `message`. */
  function Classified(catalog: seq<VulnerabilityRule>, output: Output, commit: Commit, message: string): Output {
    if catalog == [] then output
    else
      var o := Classified(catalog[..|catalog| - 1], output, commit, message);
      var rule := catalog[|catalog| - 1];
      var regexMatch := rule.search(message);
      if regexMatch.Some? && commit.hash !in o.entries then Record(o, commit, Vulnerability(rule.name, regexMatch.value))
      else o
  }

  /** The file a modification is reported under (shefmine.py:50). */
  function ReportedPath(m: Modification): string {
    if m.changeType == Delete then m.oldPath else m.newPath
  }

  /** The partial output of one modification (shefmine.py:51-58). */
  function FileResult(cfg: Config, analyse: string -> seq<Hit>, m: Modification): Result<PartialOutput> {
    var fileExtension := Splitext(ReportedPath(m)).1;
    if LowerStr(fileExtension) in cfg.c.extensions then RunFlawfinderSpec(cfg.c, analyse, m.diff)
    else Ok(ProcessDiffSpec(cfg.languages, m.diff, fileExtension))
  }

  function AddFile(report: CommitReport, f: FileReport): CommitReport {
    report.(filesChanged := Some((if report.filesChanged.Some? then report.filesChanged.value else []) + [f]))
  }

  /** The hit list flawfinder holds after one modification: `None` when the
      modification is not a C/C++ file and flawfinder is not run, otherwise
      the hits of the last side `run_flawfinder` analysed (shefmine.py:54-55). */
  function FlawfinderHits(cfg: Config, analyse: string -> seq<Hit>, m: Modification): Option<seq<Hit>> {
    if LowerStr(Splitext(ReportedPath(m)).1) in cfg.c.extensions
    then Some(analyse(BufferText(LineList(cfg.c, LastScanned(cfg.c, analyse, m.diff)))))
    else None
  }

  /** What the dispatch of shefmine.py:50-58 yields for one modification:
      the path it is reported under, its partial output or the failure of
      its analysis, and the hit list flawfinder is left with. */
  datatype FileScan = FileScan(file: string, result: Result<PartialOutput>, hits: Option<seq<Hit>>)

  function Scan(cfg: Config, analyse: string -> seq<Hit>, m: Modification): FileScan {
    FileScan(ReportedPath(m), FileResult(cfg, analyse, m), FlawfinderHits(cfg, analyse, m))
  }

  /** The scan of each modification, in order. */
  function FileScans(cfg: Config, analyse: string -> seq<Hit>, mods: seq<Modification>): (r: seq<FileScan>)
    ensures |r| == |mods|
  {
    seq(|mods|, i requires 0 <= i < |mods| => Scan(cfg, analyse, mods[i]))
  }

  /** The modification loop of shefmine.py:48-64 on a commit's report, given
      the scan of each modification: a non-empty partial output is appended
      as a file report, an empty one is skipped, and a failure ends the loop. */
  function Attach(report: CommitReport, scans: seq<FileScan>): Result<CommitReport> {
    if scans == [] then Ok(report)
    else match Attach(report, scans[..|scans| - 1])
      case Err(e) => Err(e)
      case Ok(r) =>
        var last := scans[|scans| - 1];
        match last.result
        case Err(e) => Err(e)
        case Ok(p) => Ok(if p == map[] then r else AddFile(r, FileReport(last.file, p)))
  }

  /** The hit list flawfinder holds after the modification loop, starting
      from `h`: each file flawfinder runs on replaces it, and the loop ends
      at the first failure. */
  function HitsAfter(h: seq<Hit>, scans: seq<FileScan>): seq<Hit>
    decreases |scans|
  {
    if scans == [] then h
    else
      var h' := if scans[0].hits.Some? then scans[0].hits.value else h;
      if scans[0].result.Err? then h' else HitsAfter(h', scans[1..])
  }

  /** One iteration of the commit loop (shefmine.py:30-64), for a commit
      whose normalised message is `message` and whose modifications scan to
      `scans`. */
  function ProcessCommit(catalog: seq<VulnerabilityRule>, output: Output, commit: Commit, message: string,
                         scans: seq<FileScan>): Result<Output>
  {
    var o := Classified(catalog, output, commit, message);
    if commit.hash in o.entries then
      match Attach(o.entries[commit.hash], scans)
      case Err(e) => Err(e)
      case Ok(report) => Ok(o.(entries := o.entries[commit.hash := report]))
    else Ok(o)
  }

  /** The normalised message of each commit (shefmine.py:32). */
  function Normalised(commits: seq<Commit>): (r: seq<string>)
    ensures |r| == |commits|
  {
    seq(|commits|, k requires 0 <= k < |commits| => ProcessCommitMessage(commits[k].msg))
  }

  /** The scans of each commit's modifications. */
  function AllScans(cfg: Config, analyse: string -> seq<Hit>, commits: seq<Commit>): (r: seq<seq<FileScan>>)
    ensures |r| == |commits|
  {
    seq(|commits|, k requires 0 <= k < |commits| => FileScans(cfg, analyse, commits[k].modifications))
  }

  /** The commit loop over `commits`, given their normalised messages and
      their scans: the output, or the StopIteration that escapes it. */
  function Run(catalog: seq<VulnerabilityRule>, commits: seq<Commit>, messages: seq<string>, scans: seq<seq<FileScan>>)
    : Result<Output>
    requires |messages| == |commits| && |scans| == |commits|
  {
    if commits == [] then Ok(Output([], map[]))
    else
      var n := |commits| - 1;
      match Run(catalog, commits[..n], messages[..n], scans[..n])
      case Err(e) => Err(e)
      case Ok(o) => ProcessCommit(catalog, o, commits[n], messages[n], scans[n])
  }

  /** The hit list flawfinder holds after the commit loop over `commits`,
      starting from `h` and the output `output`: only the modifications of
      classified commits are scanned, and the loop ends at the first failure. */
  function RunHits(catalog: seq<VulnerabilityRule>, h: seq<Hit>, output: Output, commits: seq<Commit>,
                   messages: seq<string>, scans: seq<seq<FileScan>>): seq<Hit>
    requires |messages| == |commits| && |scans| == |commits|
    decreases |commits|
  {
    if commits == [] then h
    else
      var classified := commits[0].hash in Classified(catalog, output, commits[0], messages[0]).entries;
      var h' := if classified then HitsAfter(h, scans[0]) else h;
      match ProcessCommit(catalog, output, commits[0], messages[0], scans[0])
      case Err(_) => h'
      case Ok(o) => RunHits(catalog, h', o, commits[1..], messages[1..], scans[1..])
  }

  /** The result of search_repository over `commits`. */
  function SearchSpec(cfg: Config, analyse: string -> seq<Hit>, commits: seq<Commit>): Result<Output> {
    Run(cfg.catalog, commits, Normalised(commits), AllScans(cfg, analyse, commits))
  }

  /** search_repository, with its loops (shefmine.py:28-70). */
  method SearchRepository(cfg: Config, flawfinder: Flawfinder, commits: seq<Commit>) returns (r: Result<Output>)
    modifies flawfinder
    ensures r == SearchSpec(cfg, flawfinder.analyse, commits)
    ensures flawfinder.hitlist == RunHits(cfg.catalog, old(flawfinder.hitlist), Output([], map[]), commits,
                                          Normalised(commits), AllScans(cfg, flawfinder.analyse, commits))
  {
    ghost var messages := Normalised(commits);
    ghost var scans := AllScans(cfg, flawfinder.analyse, commits);
    ghost var hits := RunHits(cfg.catalog, flawfinder.hitlist, Output([], map[]), commits, messages, scans);
    var output := Output([], map[]);
    for ci := 0 to |commits|
      invariant Run(cfg.catalog, commits[..ci], messages[..ci], scans[..ci]) == Ok(output)
      invariant hits == RunHits(cfg.catalog, flawfinder.hitlist, output, commits[ci..], messages[ci..], scans[ci..])
    {
      var commit := commits[ci];
      ghost var before := output;
      ghost var h := flawfinder.hitlist;
      output := ClassifyCommit(cfg.catalog, output, commit);
      if commit.hash in output.entries {
        var report := ScanModifications(cfg, flawfinder, output.entries[commit.hash], commit.modifications);
        if report.Err? {
          CommitFails(cfg.catalog, commits, messages, scans, ci, before);
          RunHitsFails(cfg.catalog, commits, messages, scans, ci, h, before, flawfinder.hitlist);
          return Err(report.error);
        }
        output := output.(entries := output.entries[commit.hash := report.value]);
      }
      CommitStep(cfg.catalog, commits, messages, scans, ci, before, output);
      RunHitsStep(cfg.catalog, commits, messages, scans, ci, h, before, flawfinder.hitlist, output);
    }
    WholePrefix(commits);
    WholePrefix(messages);
    WholePrefix(scans);
    r := Ok(output);
  }

  /** One commit step of `RunHits`, when the commit is processed without failure. */
  lemma RunHitsStep(catalog: seq<VulnerabilityRule>, commits: seq<Commit>, messages: seq<string>,
                    scans: seq<seq<FileScan>>, ci: nat, h: seq<Hit>, before: Output, h': seq<Hit>, after: Output)
    requires |messages| == |commits| && |scans| == |commits| && ci < |commits|
    requires h' == if commits[ci].hash in Classified(catalog, before, commits[ci], messages[ci]).entries
                   then HitsAfter(h, scans[ci]) else h
    requires ProcessCommit(catalog, before, commits[ci], messages[ci], scans[ci]) == Ok(after)
    ensures RunHits(catalog, h, before, commits[ci..], messages[ci..], scans[ci..])
            == RunHits(catalog, h', after, commits[ci + 1..], messages[ci + 1..], scans[ci + 1..])
  {
    assert commits[ci..][1..] == commits[ci + 1..];
    assert messages[ci..][1..] == messages[ci + 1..];
    assert scans[ci..][1..] == scans[ci + 1..];
  }

  /** The commit step of `RunHits` at which the commit loop fails ends it. */
  lemma RunHitsFails(catalog: seq<VulnerabilityRule>, commits: seq<Commit>, messages: seq<string>,
                     scans: seq<seq<FileScan>>, ci: nat, h: seq<Hit>, before: Output, h': seq<Hit>)
    requires |messages| == |commits| && |scans| == |commits| && ci < |commits|
    requires h' == if commits[ci].hash in Classified(catalog, before, commits[ci], messages[ci]).entries
                   then HitsAfter(h, scans[ci]) else h
    requires ProcessCommit(catalog, before, commits[ci], messages[ci], scans[ci]).Err?
    ensures RunHits(catalog, h, before, commits[ci..], messages[ci..], scans[ci..]) == h'
  {
  }

  lemma CommitStep(catalog: seq<VulnerabilityRule>, commits: seq<Commit>, messages: seq<string>,
                   scans: seq<seq<FileScan>>, ci: nat, before: Output, after: Output)
    requires |messages| == |commits| && |scans| == |commits| && ci < |commits|
    requires Run(catalog, commits[..ci], messages[..ci], scans[..ci]) == Ok(before)
    requires ProcessCommit(catalog, before, commits[ci], messages[ci], scans[ci]) == Ok(after)
    ensures Run(catalog, commits[..ci + 1], messages[..ci + 1], scans[..ci + 1]) == Ok(after)
  {
    PrefixOfPrefix(commits, ci, ci + 1);
    PrefixOfPrefix(messages, ci, ci + 1);
    PrefixOfPrefix(scans, ci, ci + 1);
  }

  lemma CommitFails(catalog: seq<VulnerabilityRule>, commits: seq<Commit>, messages: seq<string>,
                    scans: seq<seq<FileScan>>, ci: nat, before: Output)
    requires |messages| == |commits| && |scans| == |commits| && ci < |commits|
    requires Run(catalog, commits[..ci], messages[..ci], scans[..ci]) == Ok(before)
    requires ProcessCommit(catalog, before, commits[ci], messages[ci], scans[ci]).Err?
    ensures Run(catalog, commits, messages, scans).Err?
  {
    assert Run(catalog, commits[..ci + 1], messages[..ci + 1], scans[..ci + 1]).Err? by {
      PrefixOfPrefix(commits, ci, ci + 1);
      PrefixOfPrefix(messages, ci, ci + 1);
      PrefixOfPrefix(scans, ci, ci + 1);
    }
    RunFailurePersists(catalog, commits, messages, scans, ci + 1);
  }

  lemma {:induction false} RunFailurePersists(catalog: seq<VulnerabilityRule>, commits: seq<Commit>,
                                              messages: seq<string>, scans: seq<seq<FileScan>>, n: nat)
    requires |messages| == |commits| && |scans| == |commits| && n <= |commits|
    requires Run(catalog, commits[..n], messages[..n], scans[..n]).Err?
    ensures Run(catalog, commits, messages, scans).Err?
    decreases |commits| - n
  {
    if n < |commits| {
      PrefixOfPrefix(commits, n, n + 1);
      PrefixOfPrefix(messages, n, n + 1);
      PrefixOfPrefix(scans, n, n + 1);
      RunFailurePersists(catalog, commits, messages, scans, n + 1);
    } else {
      WholePrefix(commits);
      WholePrefix(messages);
      WholePrefix(scans);
    }
  }

  /** The catalog loop (shefmine.py:31-44). */
  method ClassifyCommit(catalog: seq<VulnerabilityRule>, output: Output, commit: Commit) returns (r: Output)
    ensures r == Classified(catalog, output, commit, ProcessCommitMessage(commit.msg))
  {
    r := output;
    for vi := 0 to |catalog|
      invariant r == Classified(catalog[..vi], output, commit, ProcessCommitMessage(commit.msg))
    {
      var vulnerability := catalog[vi];
      var commitMessage := ProcessCommitMessage(commit.msg);
      var regexMatch := vulnerability.search(commitMessage);
      if regexMatch.Some? && commit.hash !in r.entries {
        ghost var before := r;
        r := Output(r.order + [commit.hash], r.entries[commit.hash := CommitReport(commit.msg, [], None)]);
        var entry := r.entries[commit.hash];
        r := r.(entries := r.entries[commit.hash := entry.(vulnerabilities := entry.vulnerabilities
                                                              + [Vulnerability(vulnerability.name, regexMatch.value)])]);
        RecordInSteps(before, commit, Vulnerability(vulnerability.name, regexMatch.value));
      }
      PrefixOfPrefix(catalog, vi, vi + 1);
    }
    WholePrefix(catalog);
  }

  /** Creating the entry with an empty list and then appending to it records it. */
  lemma RecordInSteps(output: Output, commit: Commit, v: Vulnerability)
    ensures var created := Output(output.order + [commit.hash],
                                  output.entries[commit.hash := CommitReport(commit.msg, [], None)]);
      var entry := created.entries[commit.hash];
      created.(entries := created.entries[commit.hash := entry.(vulnerabilities := entry.vulnerabilities + [v])])
        == Record(output, commit, v)
  {
    assert [] + [v] == [v];
  }

  /** The modification loop (shefmine.py:48-64). */
  method ScanModifications(cfg: Config, flawfinder: Flawfinder, report: CommitReport, mods: seq<Modification>)
    returns (r: Result<CommitReport>)
    modifies flawfinder
    ensures r == Attach(report, FileScans(cfg, flawfinder.analyse, mods))
    ensures flawfinder.hitlist == HitsAfter(old(flawfinder.hitlist), FileScans(cfg, flawfinder.analyse, mods))
  {
    ghost var scans := FileScans(cfg, flawfinder.analyse, mods);
    ghost var hits := HitsAfter(flawfinder.hitlist, scans);
    var current := report;
    for mi := 0 to |mods|
      invariant Attach(report, scans[..mi]) == Ok(current)
      invariant hits == HitsAfter(flawfinder.hitlist, scans[mi..])
    {
      ghost var h := flawfinder.hitlist;
      HitsStep(h, scans, mi);
      var modification := mods[mi];
      var file := if modification.changeType == Delete then modification.oldPath else modification.newPath;
      var fileExtension := Splitext(file).1;
      var partialOutput;
      if LowerStr(fileExtension) in cfg.c.extensions {
        var scanned := RunFlawfinder(cfg.c, flawfinder, modification.diff);
        if scanned.Err? {
          FileFails(report, scans, mi);
          return Err(scanned.error);
        }
        partialOutput := scanned.value;
      } else {
        partialOutput := ProcessDiff(cfg.languages, modification.diff, fileExtension);
      }
      ghost var before := current;
      if partialOutput != map[] {
        var files := if current.filesChanged.Some? then current.filesChanged.value else [];
        current := current.(filesChanged := Some(files + [FileReport(file, partialOutput)]));
      }
      FileStep(report, scans, mi, before, current);
    }
    WholePrefix(scans);
    r := Ok(current);
  }

  /** One modification step of `HitsAfter`. */
  lemma HitsStep(h: seq<Hit>, scans: seq<FileScan>, mi: nat)
    requires mi < |scans|
    ensures var h' := if scans[mi].hits.Some? then scans[mi].hits.value else h;
      HitsAfter(h, scans[mi..]) == if scans[mi].result.Err? then h' else HitsAfter(h', scans[mi + 1..])
  {
    assert scans[mi..][1..] == scans[mi + 1..];
  }

  lemma FileStep(report: CommitReport, scans: seq<FileScan>, mi: nat, before: CommitReport, after: CommitReport)
    requires mi < |scans| && Attach(report, scans[..mi]) == Ok(before)
    requires scans[mi].result.Ok?
    requires var p := scans[mi].result.value;
      after == if p == map[] then before else AddFile(before, FileReport(scans[mi].file, p))
    ensures Attach(report, scans[..mi + 1]) == Ok(after)
  {
    PrefixOfPrefix(scans, mi, mi + 1);
  }

  lemma FileFails(report: CommitReport, scans: seq<FileScan>, mi: nat)
    requires mi < |scans| && Attach(report, scans[..mi]).Ok?
    requires scans[mi].result.Err?
    ensures Attach(report, scans).Err?
  {
    assert Attach(report, scans[..mi + 1]).Err? by {
      PrefixOfPrefix(scans, mi, mi + 1);
    }
    AttachFailurePersists(report, scans, mi + 1);
  }

  lemma {:induction false} AttachFailurePersists(report: CommitReport, scans: seq<FileScan>, n: nat)
    requires n <= |scans| && Attach(report, scans[..n]).Err?
    ensures Attach(report, scans).Err?
    decreases |scans| - n
  {
    if n < |scans| {
      PrefixOfPrefix(scans, n, n + 1);
      AttachFailurePersists(report, scans, n + 1);
    } else {
      WholePrefix(scans);
    }
  }
}
