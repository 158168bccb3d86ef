# shefmine in Dafny

shefmine mines a Git repository for commits that fix security
vulnerabilities. For each commit it normalises the commit message by
removing trailer lines such as `Signed-off-by:` and `git-svn-id`, then
matches the message against a catalog of vulnerability patterns. A commit
whose message matches is recorded with its raw message and the first
vulnerability that matched. The tool then scans each changed file of that
commit:

- C/C++ files go through flawfinder. Each hit is mapped back to the diff
  line it came from.
- Files in other supported languages go through a keyword ("grep"-like)
  scan, which flags added or deleted lines that contain a rule keyword as
  a whole word.

A file is reported only when its scan found something. The command line
also works out where the JSON result is written.

The model has one module per part of `shefmine.py`:

- `Normaliser`: `process_commit_message`. Its regular expression is
  modelled concretely: leftmost, non-overlapping matches; alternatives
  tried in order; backtracking over the optional `[\s\-_]off`;
  case-insensitive; `.` matches anything but a newline.
- `Grep`: `process_diff`.
- `CScan`: `run_flawfinder`. The class `Flawfinder` holds the hit list
  that flawfinder keeps as a global variable.
- `Search` and `SearchProperties`: `search_repository`.
- `Paths`: choosing the output path.
- `Text`, `Diffs`, `Seqs` and `Common`: supporting definitions:
  - Python's `strip`, `lower` and `\b`;
  - the diff and partial-output types;
  - sequence facts;
  - `Option` and `Result`.

The three loops of the source (`search_repository`, `process_diff` and
`run_flawfinder`) are methods. Each is proved equal to a recursive
specification function, and the properties the source promises are lemmas
about those functions.

Some collaborators are inputs to the model, as function values:

- the catalog's regular expressions;
- each language's comment test;
- the C comment matcher and `remove_comment`;
- flawfinder's analysis of a buffer.

Behaviours of the code worth noting:

- Blank diff lines: only lines that are empty as given are dropped.
  Whitespace-only lines reach the comment test and the scanners
  (`shefmine.py:101`, `shefmine.py:147`).
- Multiple catalog matches: only the first vulnerability that matches is
  recorded. Once the hash is in `output`, the test on line 35 skips every
  later entry.
- Commits with no reported file stay in the output without a
  `files_changed` key. The removal at lines 66-68 is commented out.
- An extension shared by two languages: the second language sees the
  already exhausted generators and adds nothing. Only the first language
  that accepts the extension contributes findings.
- A flawfinder hit whose context text matches no cleaned line raises
  `StopIteration` at line 165. Nothing catches it, so the whole search
  fails. This is the `Err` result.

## Model

| member | source | states |
|---|---|---|
| Search.SearchRepository | shefmine.py:28-70 | the commit loop returns exactly `SearchSpec`: the normalised messages classified in order, then each classified commit's files attached, or the first `StopIteration`; flawfinder's hit list is left as `RunHits` says |
| Search.ClassifyCommit | shefmine.py:31-44 | the catalog loop over one commit yields `Classified` of its normalised message |
| Search.ScanModifications | shefmine.py:47-64 | the modifications loop yields `Attach` of the per-file scans: the same report, or the error of the first failing file; flawfinder's hit list is left as `HitsAfter` says |
| Search.Record | shefmine.py:36-44 | a new entry under the commit's hash, appended to the key order, holding the raw message, the one vulnerability and no `files_changed` |
| Search.Classified | shefmine.py:31-44 | the catalog loop for one commit: each entry's search runs on the normalised message, and a match is recorded only while the hash is not yet in the output |
| Search.ReportedPath | shefmine.py:50 | the old path of a deleted file, the new path otherwise |
| Search.FileResult | shefmine.py:51-57 | routes on the lower-cased extension: a C/C++ extension gets flawfinder's result, any other the generic language scan of the extension |
| Search.FlawfinderHits | shefmine.py:54-55 | the hit list flawfinder holds after a C/C++ file (that of the last side analysed), or none when flawfinder is not run |
| Search.Attach | shefmine.py:59-64 | appends each non-empty partial output as a file report under its path, skips empty ones, and stops at the first failure |
| Search.HitsAfter | shefmine.py:49-57 | the hit list after the modification loop: each file flawfinder runs on replaces it, and the loop ends at the first failure |
| Search.ProcessCommit | shefmine.py:30-64 | one commit: classify it, then attach its files when it has an entry |
| Search.Run | shefmine.py:30-64 | the commit loop over the normalised messages and scans, ending at the first failure |
| Search.RunHits | shefmine.py:30-64 | the hit list after the commit loop: only classified commits' files are scanned, and the loop ends at the first failure |
| SearchProperties.FirstMatch | shefmine.py:31-35 | no vulnerability is recorded exactly when every catalog search fails on the message |
| SearchProperties.FirstMatchRule | shefmine.py:31-44 | a recorded vulnerability comes from the first catalog entry whose search succeeds, with that entry's name and matched text |
| SearchProperties.ClassifiedFirst | shefmine.py:31-44 | a commit already in the output is left alone; otherwise a new entry holds the raw message and the first matching vulnerability, or nothing changes when none matches |
| SearchProperties.CommitEffect | shefmine.py:30-64 | one commit changes only its own entry; it is added, in insertion order, exactly when it was present or its message matches; its files come from `Attach` over its scans |
| SearchProperties.PrefixOk | shefmine.py:30-64 | a successful run over all commits was successful on every earlier prefix and extends it by one commit step |
| SearchProperties.AttachOk | shefmine.py:54-57 | attaching files succeeds iff every file's scan succeeded |
| SearchProperties.AttachKeeps | shefmine.py:59-64 | attaching keeps the message and vulnerabilities; `files_changed` stays absent iff every scan was empty; earlier files are kept as a prefix |
| SearchProperties.AttachedSource | shefmine.py:60-64 | every attached file is a scanned file with its non-empty partial output |
| SearchProperties.AttachedReported | shefmine.py:60-64 | every scanned file with a non-empty partial output is attached |
| SearchProperties.AttachWellFormed | shefmine.py:59-64 | attaching keeps each report well formed: one vulnerability, `files_changed` absent or non-empty, no file with an empty side |
| SearchProperties.FileResultShape | shefmine.py:50-57 | a file's partial output never holds an empty side, and a file fails only when it has a C/C++ extension and flawfinder's results cannot be reconciled |
| SearchProperties.UnsupportedFileSkipped | shefmine.py:51-57 | a file whose lower-cased extension no profile supports yields an empty partial output |
| SearchProperties.AllScansWellFormed | shefmine.py:49-57 | every scan of every commit has no empty side |
| SearchProperties.CommitWellFormed | shefmine.py:30-64 | one commit step keeps the output well formed |
| SearchProperties.RunWellFormed | shefmine.py:30-64 | a successful run yields distinct keys in insertion order, keys matching the entries, and well-formed reports |
| SearchProperties.RunKeepsMatched | shefmine.py:35-44 | every commit whose normalised message matches the catalog ends up in the output |
| SearchProperties.RunEntrySource | shefmine.py:35-44 | every output entry comes from the first commit with that hash whose message matched, and holds that commit's raw message and first matching vulnerability |
| SearchProperties.RunDistinct | shefmine.py:30-64 | with distinct hashes, the output's keys are the matching commits in order, and each entry is its commit's report with that commit's files attached |
| SearchProperties.RunFailureSource | shefmine.py:54-57 | a failed run points to a classified commit and one of its files whose scan failed, with every earlier commit processed |
| SearchProperties.SearchFailureSource | shefmine.py:54-57 | the search fails only because some changed file has a C/C++ extension and flawfinder's hits cannot be reconciled |
| SearchProperties.SearchWellFormed | shefmine.py:28-70 | the output of a successful search is well formed |
| SearchProperties.SearchKeepsMatched | shefmine.py:32-44 | every commit whose normalised message matches is reported |
| SearchProperties.SearchEntrySource | shefmine.py:32-44 | every reported commit is the first with its hash whose normalised message matched; the entry holds its raw message and first matching vulnerability |
| SearchProperties.FlawfinderHitsShape | shefmine.py:54-57 | a file leaves the hit list alone iff it has no C/C++ extension, and a failing file always ran flawfinder |
| SearchProperties.HitsAfterUnchanged | shefmine.py:49-57 | when no file runs flawfinder, the modification loop keeps the hit list |
| SearchProperties.HitsAfterLast | shefmine.py:49-57 | when every file succeeds, the hit list left is the initial one if no file runs flawfinder, otherwise that of the last file that does |
| SearchProperties.HitsAfterStops | shefmine.py:54-57 | files after the first failing one do not change the hit list |
| SearchProperties.RunHitsUnchanged | shefmine.py:30-64 | when no file of any commit runs flawfinder, the commit loop keeps the hit list |
| SearchProperties.SearchKeepsHitlist | shefmine.py:28-70 | a search over commits with no C/C++ file leaves flawfinder's hit list as it was |
| Normaliser.ProcessCommitMessage | shefmine.py:82-83 | the normalised message has no outer whitespace and is no longer than the original |
| Normaliser.NoTriggerOnlyStrips | shefmine.py:82-83 | a message with no colon and no `git-svn-id` is only stripped |
| Normaliser.SignOffLineMatches | shefmine.py:82 | `Signed-off-by: ` followed by the rest of a line matches through to the end of that line |
| Normaliser.SignOffOnly | shefmine.py:82-83 | a message that is a single sign-off line normalises to the empty string |
| Normaliser.SignOffTrailerExample | shefmine.py:82-83 | a body line followed by a sign-off normalises to the body line alone |
| Normaliser.MatchNeedsKeywordStart | shefmine.py:82 | no match starts at a character that begins none of the alternatives |
| Normaliser.NoKeywordNoMatch | shefmine.py:82 | the keyword alternatives fail at a position where none of the remaining keywords occurs |
| Normaliser.PrefixKept | shefmine.py:82-83 | a stretch of positions where no match starts is copied unchanged into the result |
| Normaliser.SkipUnmatched | shefmine.py:82-83 | a character where no match starts is kept, and the substitution continues after it |
| Normaliser.LineEnd | shefmine.py:82 | `.*` stops at the first newline or the end of the message |
| Normaliser.SkipSeparators | shefmine.py:82 | `[\s\-_]*` consumes exactly the maximal run of separators |
| Normaliser.TrailerTail | shefmine.py:82 | the separators, optional `by` or `on`, colon and rest of the line after a keyword; a match, when there is one, runs past a colon |
| Normaliser.KeywordTail | shefmine.py:82 | a keyword followed by its tail; for `signed`, first with `[\s\-_]off` and then without |
| Normaliser.KeywordMatch | shefmine.py:82 | the keyword alternatives tried in order; a match, when there is one, runs past a colon |
| Normaliser.RemoveTrailers | shefmine.py:82-83 | `re.sub` with the empty string: matches removed leftmost first without overlapping, every other character kept, never longer than the input |
| Normaliser.MatchAt | shefmine.py:82 | a match is non-empty, and apart from `git-svn-id` it includes a colon |
| Text.Strip | shefmine.py:83 | Python's `strip()`: removes leading, then trailing whitespace |
| Text.StripSpec | shefmine.py:83 | `strip()` returns the slice left after removing leading and trailing whitespace, with no whitespace at either end |
| Text.StripUnique | shefmine.py:83 | any slice with those two properties is the result of `strip()` |
| Text.StripIdempotent | shefmine.py:101 | stripping twice equals stripping once |
| Text.LowerStr | shefmine.py:54 | `lower()` folds each ASCII capital and keeps the length |
| Text.WordBounded | shefmine.py:111 | `re.search` of `\b` + keyword + `\b`: the keyword occurs with a word boundary on each side |
| Text.WordBoundedNotInsideIdentifier | shefmine.py:111 | a `\b`-bounded keyword match does not continue an identifier on either side |
| Text.Md5Examples | shefmine.py:111 | `md5` is found in `md5 hash` but not in `md5sum_helper` |
| Paths.RFind | shefmine.py:51 | returns the last index of the character, or -1 |
| Paths.Splitext | shefmine.py:51 | `splitext` splits the path into a stem and an extension that concatenate to it; the extension is empty or a dot with no further dot or slash, and follows a non-dot stem character |
| Paths.SplitextAppend | shefmine.py:215 | splitting a stem with a proper extension appended gives the stem and the extension back |
| Paths.Join | shefmine.py:224 | `os.path.join` of a relative path is the second path appended to the first, with at most one separator inserted |
| Paths.OutputPath | shefmine.py:214-226 | no output argument, or an empty one, gives `output.json` |
| Paths.OutputPathIsJson | shefmine.py:214-226 | the chosen output path always has extension `.json` and keeps the given stem |
| Paths.OutputPathCases | shefmine.py:214-226 | the three branches: kept when it is `.json`, renamed to `.json`, or `output.json` inside the given directory |
| Paths.OutputPathIdempotent | shefmine.py:214-226 | choosing the output path again from its own result changes nothing |
| Diffs.Extend | shefmine.py:115-122 | appending findings to a side creates the key only when there is something to append and leaves the other side unchanged |
| Diffs.ExtendTwice | shefmine.py:115-122 | appending in two steps equals appending the concatenation |
| Diffs.AppendOne | shefmine.py:115-122 | create-if-missing then append is `Extend` by one finding |
| Diffs.PartialOfKeys | shefmine.py:114-122 | a side is present iff it has findings, it holds exactly those findings, and the output is empty iff both sides are |
| Grep.ProcessDiff | shefmine.py:86-123 | the language loop returns `ProcessDiffSpec`: the first language accepting the lower-cased extension scans both cleaned sides |
| Grep.ScanDiff | shefmine.py:105-122 | both sides' findings are appended, the added side first |
| Grep.ScanSide | shefmine.py:106-122 | one side's lines append exactly that side's findings |
| Grep.MatchLine | shefmine.py:107-112 | the rule loops collect the matching rules in the language's rule-set order |
| Grep.CleanLine | shefmine.py:101 | a raw line survives cleaning iff it is non-empty and not a comment, and is then stripped with its number kept |
| Grep.Cleaned | shefmine.py:101-102 | cleans a side's lines in order |
| Grep.RulesMatching | shefmine.py:110-112 | the rules of one category that occur in the line as whole words, in order |
| Grep.MatchedRules | shefmine.py:109-112 | the matching rules of every category, category by category |
| Grep.FindingOf | shefmine.py:107-122 | a line gives one finding with its number, stripped text and matching rules, or none when no rule matches |
| Grep.Findings | shefmine.py:106-122 | the findings of a side's lines, in order |
| Grep.Append | shefmine.py:115-122 | create-if-missing then append equals `Extend` by one finding |
| Grep.FirstLanguage | shefmine.py:98-100 | the chosen language is the first whose extensions contain the extension; there is none when no language does |
| Grep.FirstLanguageSnoc | shefmine.py:98-100 | considering one more language changes the choice only when none was found before and that language accepts the extension |
| Grep.LanguageStep | shefmine.py:98-123 | a language that accepts the extension completes the result, or adds nothing once the generators are exhausted |
| Grep.ScanBothSides | shefmine.py:105 | scanning the two sides in dictionary order appends added, then deleted |
| Grep.ScanStep | shefmine.py:106-122 | one more line extends the side by that line's findings |
| Grep.ProcessDiffShape | shefmine.py:95-123 | no empty side; an extension no language supports gives `{}`; each side is present iff it has findings, and holds them |
| Grep.FindingsAppend | shefmine.py:106 | findings of concatenated lines are the concatenated findings |
| Grep.CleanedAppend | shefmine.py:101 | cleaning distributes over concatenation |
| Grep.FindingsOrder | shefmine.py:101-122 | findings appear in diff order |
| Grep.OneLine | shefmine.py:101-122 | a single line is reported iff it is non-empty, not a comment and matches a rule, with its number, stripped text and matching rules |
| Grep.FindingsMembership | shefmine.py:101-122 | a finding is reported iff some diff line produces it |
| Grep.FindingSource | shefmine.py:101-122 | every finding comes from a non-empty, non-comment diff line that matches a rule |
| Grep.FindingOfLine | shefmine.py:101-122 | every such line gives a finding |
| Grep.RulesMatchingMembership | shefmine.py:110-112 | a rule of a category is listed iff it occurs in the line as a whole word |
| Grep.MatchedRulesMembership | shefmine.py:109-112 | a rule is listed iff some category holds it and it occurs as a whole word |
| Grep.RuleSource | shefmine.py:109-112 | each listed rule belongs to some category and occurs as a whole word |
| Grep.RuleReported | shefmine.py:109-112 | each rule of some category that occurs as a whole word is listed |
| CScan.Flawfinder.ProcessCFile | shefmine.py:154 | processing a file appends flawfinder's hits for its contents to the hit list |
| CScan.Flawfinder.constructor | shefmine.py:7 | flawfinder's module state when it is imported: the given analysis and an empty hit list |
| CScan.RunFlawfinder | shefmine.py:126-173 | the side loop returns `RunFlawfinderSpec`, and the hit list afterwards is that of the last side scanned |
| CScan.AnalyseSide | shefmine.py:141-171 | one side resets the hit list, analyses the cleaned buffer, and appends its reconciled findings or fails |
| CScan.WriteLines | shefmine.py:149-150 | the temporary file holds each cleaned line followed by a newline |
| CScan.AddHits | shefmine.py:161-171 | the hit loop appends one finding per filtered hit, or fails at the first hit with no line |
| CScan.FirstWhere | shefmine.py:165-169 | `next()` over a filtering generator: the first element that passes the test, or none exactly when no element does |
| CScan.LineList | shefmine.py:146-147 | the non-empty raw lines that are not comments, stripped and with inline comments removed, numbers kept |
| CScan.BufferText | shefmine.py:149-150 | the temporary file's text: each cleaned line followed by a newline |
| CScan.FilteredHits | shefmine.py:157-158 | the hits with a positive level whose context is not a comment, in order |
| CScan.HitFinding | shefmine.py:165-171 | a hit's finding from the first cleaned line with its text and the first raw line with that number, or StopIteration |
| CScan.Reconcile | shefmine.py:161-171 | the findings of the hits in order, or the first StopIteration |
| CScan.ScanUpToSpec | shefmine.py:140 | scanning both sides in dictionary order is `RunFlawfinderSpec` |
| CScan.ScanFailsAt | shefmine.py:140-171 | a failing side makes the whole call fail, and it is the last side scanned |
| CScan.ScanSucceeds | shefmine.py:140-171 | when both sides succeed, the deleted side is the last scanned |
| CScan.ReconcileFails | shefmine.py:161-171 | one unmatched hit fails the whole side |
| CScan.FailurePersists | shefmine.py:161-171 | once a prefix of the hits fails, the side fails |
| CScan.HitStep | shefmine.py:161-171 | one more matched hit appends exactly its finding |
| CScan.LineListSource | shefmine.py:146-147 | each cleaned line is a kept raw line, stripped, with its comment removed and its number kept |
| CScan.LineListKeeps | shefmine.py:146-147 | every non-empty raw line that is not a comment appears, cleaned |
| CScan.NumberAlwaysFound | shefmine.py:169 | the lookup of the line's original text never fails |
| CScan.HitFindingSpec | shefmine.py:165-171 | a hit fails iff no cleaned line has its context text; otherwise it reports the first such line's number, the stripped raw text and the hit's name |
| CScan.ReconcileSpec | shefmine.py:161-171 | the side succeeds iff every hit is matched, and then gives one finding per hit, in order |
| CScan.ReconcileOk | shefmine.py:161-171 | the side succeeds iff every hit is matched |
| CScan.ReconcileValues | shefmine.py:161-171 | a successful side gives one finding per hit, in hit order |
| CScan.FilteredHitsMembership | shefmine.py:157-158 | a hit survives iff its level is positive and its context is not a comment |
| CScan.SideFindingsSpec | shefmine.py:141-171 | a side fails iff some surviving hit has no matching line; otherwise it has one finding per surviving hit |
| CScan.RunFlawfinderShape | shefmine.py:137-173 | the call fails iff one side has an unmatched hit; otherwise there is no empty side, a side is present iff it has surviving hits, with one finding per hit |

## Left out

- The catalog's regular expressions, each language's comment test, the C
  comment matcher, `remove_comment` and flawfinder's analysis are inputs to
  the model. Their definitions live in the modules `vulnerability`,
  `languages.language`, `languages.c` and `flawfinder`, which are not part of
  this model.
- Case folding and `\b` are ASCII only. Non-ASCII capitals are not folded,
  and non-ASCII letters are not word characters.
- Language rules are literal keywords. A rule containing regex
  metacharacters is not modelled.
- Temporary files and `fp.seek` are not modelled. The file written for
  flawfinder is modelled as the text it contains, and flawfinder reads that
  text. Its name, built from the commit hash and file name, is not
  modelled.
- pydriller is not modelled. A repository is a sequence of commits, and
  each modification carries an already parsed diff. `traverse_commits`
  options (branch, single commit, merges, order) and `parse_diff` are left
  out.
- `modification.change_type.name is 'DELETE'` is modelled as equality,
  which is what CPython's interned strings give.
- Paths are strings, never `None`.
- `os.path.realpath` is left out because it depends on the file system.
- `output_result`, JSON serialisation, `print`, timing, `argparse` and the
  `git` exceptions at lines 233-236 are left out because they are I/O.
- The key order inside a partial output is left out. A partial output is a
  map; the model proves that the added side is appended before the
  deleted side.
- `SearchProperties.RunDistinct` states the link between each reported
  commit and its files at the `Run` level, over any normalised messages
  and scans. The same statement about `SearchSpec` directly is left out
  because of its verification cost.
- `SearchProperties.RunDistinct` assumes distinct commit hashes, which
  pydriller gives for one traversal.
