/** The commit-message normaliser of shefmine.py:73-83: one case-insensitive
    `re.sub` that deletes svn migration markers and attribution trailers,
    followed by `strip()`. A match is either `git-svn-id` and the rest of
    its line, or one of the `Keywords` (with `signed` optionally followed by
    one separator and `off`), then any run of separators, an optional `by`
    or `on`, a colon and the rest of the line. The expression is modelled by
    hand: leftmost, non-overlapping matches, alternatives in order, `.`
    stopping at a newline, `\s` the whitespace of `str.isspace`. */
module Normaliser {
  import opened Common
  import opened Text
  import opened Seqs

  /** `s` holds `word` at `i`, ignoring ASCII case (`word` is lower case). */
  predicate CiAt(s: string, i: nat, word: string) {
    i + |word| <= |s| && forall k :: 0 <= k < |word| ==> Lower(s[i + k]) == word[k]
  }

  /** Some character in `s[lo..hi]` is a colon. */
  predicate HasColon(s: string, lo: int, hi: int) {
    exists m :: lo <= m < hi && 0 <= m < |s| && s[m] == ':'
  }

  /** Where a greedy `.*` begun at `i` stops: the next newline, or the end. */
  function LineEnd(s: string, i: nat): (j: nat)
    requires i <= |s|
    ensures i <= j <= |s| && (j == |s| || s[j] == '\n')
    ensures forall k :: i <= k < j ==> s[k] != '\n'
    decreases |s| - i
  {
    if i == |s| || s[i] == '\n' then i else LineEnd(s, i + 1)
  }

  /** The class `[\s\-_]`. */
  predicate IsSeparator(c: char) {
    IsSpace(c) || c == '-' || c == '_'
  }

  /** Where a greedy `[\s\-_]*` begun at `i` stops. */
  function SkipSeparators(s: string, i: nat): (j: nat)
    requires i <= |s|
    ensures i <= j <= |s| && (j == |s| || !IsSeparator(s[j]))
    ensures forall k :: i <= k < j ==> IsSeparator(s[k])
    decreases |s| - i
  {
    if i < |s| && IsSeparator(s[i]) then SkipSeparators(s, i + 1) else i
  }

  /** End of `[\s\-_]*(by|on)?:.*` matched at `i`, if it matches there. Only
      the longest separator run can be followed by `:`, `by:` or `on:`, so
      backtracking into the run never finds another match. */
  function TrailerTail(s: string, i: nat): (r: Option<nat>)
    requires i <= |s|
    ensures r.Some? ==> i < r.value <= |s| && HasColon(s, i, r.value)
  {
    var j := SkipSeparators(s, i);
    if j < |s| && s[j] == ':' then Some(LineEnd(s, j + 1))
    else if (CiAt(s, j, "by") || CiAt(s, j, "on")) && j + 2 < |s| && s[j + 2] == ':' then
      Some(LineEnd(s, j + 3))
    else None
  }

  /** The trailer keywords, in the order the alternation tries them. */
  const Keywords: seq<string> := ["acked", "cc", "reported", "reviewed", "signed", "submitted", "tested"]

  /** The rest of a trailer after keyword `kw` found at `i`; for `signed` the
      optional group `([\s\-_]off)?` is tried first and dropped on failure. */
  function KeywordTail(s: string, i: nat, kw: string): (r: Option<nat>)
    requires i + |kw| <= |s|
    ensures r.Some? ==> i < r.value <= |s| && HasColon(s, i, r.value)
  {
    if kw == "signed" && i + 10 <= |s| && IsSeparator(s[i + 6]) && CiAt(s, i + 7, "off") then
      var withOff := TrailerTail(s, i + 10);
      if withOff.Some? then withOff else TrailerTail(s, i + 6)
    else TrailerTail(s, i + |kw|)
  }

  /** The second alternative of the pattern at `i`, trying the keywords from
      index `n` on, in order. */
  function KeywordMatch(s: string, i: nat, n: nat): (r: Option<nat>)
    requires i <= |s| && n <= |Keywords|
    ensures r.Some? ==> i < r.value <= |s| && HasColon(s, i, r.value)
    decreases |Keywords| - n
  {
    if n == |Keywords| then None
    else
      var here := if CiAt(s, i, Keywords[n]) then KeywordTail(s, i, Keywords[n]) else None;
      if here.Some? then here else KeywordMatch(s, i, n + 1)
  }

  /** End of the match of the whole pattern starting exactly at `i`, if any. */
  function MatchAt(s: string, i: nat): (r: Option<nat>)
    requires i <= |s|
    ensures r.Some? ==> i < r.value <= |s|
    ensures r.Some? && !CiAt(s, i, "git-svn-id") ==> HasColon(s, i, r.value)
  {
    if CiAt(s, i, "git-svn-id") then Some(LineEnd(s, i + 10))
    else KeywordMatch(s, i, 0)
  }

  /** `re.sub(pattern, '', s[i..], flags=re.I)`: scanning left to right, each
      match is deleted and scanning resumes where it ended. */
  function RemoveTrailers(s: string, i: nat): (r: string)
    requires i <= |s|
    ensures |r| <= |s| - i
    decreases |s| - i
  {
    if i == |s| then []
    else match MatchAt(s, i)
      case Some(j) => RemoveTrailers(s, j)
      case None => [s[i]] + RemoveTrailers(s, i + 1)
  }

  /** process_commit_message: the normalised message never begins or ends
      with whitespace. */
  function ProcessCommitMessage(message: string): (r: string)
    ensures NoOuterSpace(r)
    ensures |r| <= |message|
  {
    var kept := RemoveTrailers(message, 0);
    StripSpec(kept);
    Strip(kept)
  }

  /** A message with no colon and no `git-svn-id` (in any case) gives the
      pattern nothing to match: normalising only strips it. */
  lemma NoTriggerOnlyStrips(message: string)
    requires ':' !in message
    requires forall i :: 0 <= i <= |message| ==> !CiAt(message, i, "git-svn-id")
    ensures ProcessCommitMessage(message) == Strip(message)
  {
    NothingRemoved(message, 0);
  }

  lemma {:induction false} NothingRemoved(s: string, i: nat)
    requires i <= |s|
    requires ':' !in s
    requires forall k :: 0 <= k <= |s| ==> !CiAt(s, k, "git-svn-id")
    ensures RemoveTrailers(s, i) == s[i..]
    decreases |s| - i
  {
    if i < |s| {
      assert MatchAt(s, i).None?;
      NothingRemoved(s, i + 1);
    }
  }

  /** A message that is a single sign-off line normalises to nothing. */
  lemma SignOffOnly(who: string)
    requires '\n' !in who
    ensures ProcessCommitMessage("Signed-off-by: " + who) == ""
  {
    var s := "Signed-off-by: " + who;
    SignOffLineMatches(s, 0, |s|);
  }

  /** A line beginning `Signed-off-by:` at `i` is matched up to its end `e`. */
  lemma SignOffLineMatches(s: string, i: nat, e: nat)
    requires i + 15 <= e <= |s| && s[i..i + 15] == "Signed-off-by: "
    requires e == |s| || s[e] == '\n'
    requires forall k :: i + 15 <= k < e ==> s[k] != '\n'
    ensures MatchAt(s, i) == Some(e)
  {
    SignOffChars(s, i);
    SignedMatches(s, i, e);
    Mismatch(s, i, "git-svn-id", 0);
    SignedTriedFifth(s, i);
  }

  /** Before `signed`, the alternation tries four keywords that cannot start
      with `S`. */
  lemma SignedTriedFifth(s: string, i: nat)
    requires i < |s| && s[i] == 'S'
    ensures KeywordMatch(s, i, 0) == KeywordMatch(s, i, 4)
  {
    assert KeywordMatch(s, i, 3) == KeywordMatch(s, i, 4) by { Mismatch(s, i, "reviewed", 0); }
    assert KeywordMatch(s, i, 2) == KeywordMatch(s, i, 3) by { Mismatch(s, i, "reported", 0); }
    assert KeywordMatch(s, i, 1) == KeywordMatch(s, i, 2) by { Mismatch(s, i, "cc", 0); }
    assert KeywordMatch(s, i, 0) == KeywordMatch(s, i, 1) by { Mismatch(s, i, "acked", 0); }
  }

  lemma SignOffChars(s: string, i: nat)
    requires i + 15 <= |s| && s[i..i + 15] == "Signed-off-by: "
    ensures s[i] == 'S' && s[i + 1] == 'i' && s[i + 2] == 'g' && s[i + 3] == 'n' && s[i + 4] == 'e' && s[i + 5] == 'd'
    ensures s[i + 6] == '-' && s[i + 7] == 'o' && s[i + 8] == 'f' && s[i + 9] == 'f'
    ensures s[i + 10] == '-' && s[i + 11] == 'b' && s[i + 12] == 'y' && s[i + 13] == ':' && s[i + 14] == ' '
  {
    var t := s[i..i + 15];
    assert s[i] == t[0] && s[i + 1] == t[1] && s[i + 2] == t[2] && s[i + 3] == t[3] && s[i + 4] == t[4];
    assert s[i + 5] == t[5] && s[i + 6] == t[6] && s[i + 7] == t[7] && s[i + 8] == t[8] && s[i + 9] == t[9];
    assert s[i + 10] == t[10] && s[i + 11] == t[11] && s[i + 12] == t[12] && s[i + 13] == t[13] && s[i + 14] == t[14];
  }

  /** The `signed` alternative, tried fifth, matches the whole sign-off line. */
  lemma SignedMatches(s: string, i: nat, e: nat)
    requires i + 15 <= e <= |s|
    requires s[i] == 'S' && s[i + 1] == 'i' && s[i + 2] == 'g' && s[i + 3] == 'n' && s[i + 4] == 'e' && s[i + 5] == 'd'
    requires s[i + 6] == '-' && s[i + 7] == 'o' && s[i + 8] == 'f' && s[i + 9] == 'f'
    requires s[i + 10] == '-' && s[i + 11] == 'b' && s[i + 12] == 'y' && s[i + 13] == ':' && s[i + 14] == ' '
    requires e == |s| || s[e] == '\n'
    requires forall k :: i + 15 <= k < e ==> s[k] != '\n'
    ensures KeywordMatch(s, i, 4) == Some(e)
  {
    SignedOffByTail(s, i, e);
    SignedAt(s, i);
    assert Keywords[4] == "signed";
  }

  lemma SignedAt(s: string, i: nat)
    requires i + 6 <= |s|
    requires s[i] == 'S' && s[i + 1] == 'i' && s[i + 2] == 'g' && s[i + 3] == 'n' && s[i + 4] == 'e' && s[i + 5] == 'd'
    ensures CiAt(s, i, "signed")
  {
  }

  lemma SignedOffByTail(s: string, i: nat, e: nat)
    requires i + 15 <= e <= |s|
    requires s[i + 6] == '-' && s[i + 7] == 'o' && s[i + 8] == 'f' && s[i + 9] == 'f'
    requires s[i + 10] == '-' && s[i + 11] == 'b' && s[i + 12] == 'y' && s[i + 13] == ':' && s[i + 14] == ' '
    requires e == |s| || s[e] == '\n'
    requires forall k :: i + 15 <= k < e ==> s[k] != '\n'
    ensures KeywordTail(s, i, "signed") == Some(e)
  {
    assert CiAt(s, i + 7, "off");
    assert CiAt(s, i + 11, "by");
    assert SkipSeparators(s, i + 10) == i + 11;
    assert LineEnd(s, i + 14) == e;
    assert TrailerTail(s, i + 10) == Some(e);
  }

  /** One differing character rules a word out. */
  lemma Mismatch(s: string, i: nat, w: string, k: nat)
    requires k < |w| && i + k < |s| && Lower(s[i + k]) != w[k]
    ensures !CiAt(s, i, w)
  {
    assert Lower(s[i + k]) != w[k];
  }

  /** Every match starts with a letter of `git-svn-id` or of a keyword. */
  lemma MatchNeedsKeywordStart(s: string, k: nat)
    requires k < |s| && Lower(s[k]) !in "gacrst"
    ensures MatchAt(s, k).None?
  {
    forall m | 0 <= m < |Keywords| ensures !CiAt(s, k, Keywords[m]) {
      Mismatch(s, k, Keywords[m], 0);
    }
    Mismatch(s, k, "git-svn-id", 0);
    NoKeywordNoMatch(s, k, 0);
  }

  lemma {:induction false} NoKeywordNoMatch(s: string, k: nat, n: nat)
    requires k <= |s| && n <= |Keywords|
    requires forall m :: n <= m < |Keywords| ==> !CiAt(s, k, Keywords[m])
    ensures KeywordMatch(s, k, n).None?
    decreases |Keywords| - n
  {
    if n < |Keywords| { NoKeywordNoMatch(s, k, n + 1); }
  }

  /** When no match starts in `[lo, i)`, the text there is kept as it is. */
  lemma PrefixKept(s: string, lo: nat, i: nat)
    requires lo <= i <= |s|
    requires forall k :: lo <= k < i ==> MatchAt(s, k).None?
    ensures RemoveTrailers(s, lo) == s[lo..i] + RemoveTrailers(s, i)
  {
    UnmatchedKept(s, lo, i);
    ConsChain(s, (k: nat) => if k <= |s| then RemoveTrailers(s, k) else [], lo, i);
  }

  /** Each position in `[lo, i)` where no match starts keeps its character. */
  lemma UnmatchedKept(s: string, lo: nat, i: nat)
    requires lo <= i <= |s|
    requires forall k :: lo <= k < i ==> MatchAt(s, k).None?
    ensures forall k :: lo <= k < i ==> RemoveTrailers(s, k) == [s[k]] + RemoveTrailers(s, k + 1)
  {
    forall k | lo <= k < i ensures RemoveTrailers(s, k) == [s[k]] + RemoveTrailers(s, k + 1) {
      SkipUnmatched(s, k);
    }
  }

  /** A position where no match starts keeps its character. */
  lemma SkipUnmatched(s: string, i: nat)
    requires i < |s| && MatchAt(s, i).None?
    ensures RemoveTrailers(s, i) == [s[i]] + RemoveTrailers(s, i + 1)
  {
  }

  /** A sign-off trailer line is removed and the first line is kept, for
      any signer. */
  lemma SignOffTrailerExample(who: string)
    requires '\n' !in who
    ensures ProcessCommitMessage("Fixes overflow bug.\n" + "Signed-off-by: " + who) == "Fixes overflow bug."
  {
    var body, sig := "Fixes overflow bug.\n", "Signed-off-by: ";
    var s := body + sig + who;
    assert s[..20] == body;
    assert s[20..35] == sig;
    ExampleBodyUnmatched(s);
    PrefixKept(s, 0, 20);
    assert forall k :: 35 <= k < |s| ==> s[k] != '\n' by {
      forall k | 35 <= k < |s| ensures s[k] != '\n' { assert s[k] == who[k - 35]; }
    }
    SignOffLineMatches(s, 20, |s|);
    assert RemoveTrailers(s, 0) == body;
    assert StrippedAt(body, "Fixes overflow bug.", 0);
    StripUnique(body, "Fixes overflow bug.", 0);
  }

  lemma ExampleBodyUnmatched(s: string)
    requires |s| >= 20 && s[..20] == "Fixes overflow bug.\n"
    ensures forall k :: 0 <= k < 20 ==> MatchAt(s, k).None?
  {
    forall k | 0 <= k < 20 ensures MatchAt(s, k).None? {
      assert s[k] == s[..20][k];
      if k == 4 || k == 9 || k == 17 {
        assert s[k + 1] == s[..20][k + 1];
        forall m | 0 <= m < |Keywords| ensures !CiAt(s, k, Keywords[m]) {
          if Lower(s[k]) != Keywords[m][0] { Mismatch(s, k, Keywords[m], 0); } else { Mismatch(s, k, Keywords[m], 1); }
        }
        Mismatch(s, k, "git-svn-id", 1);
        NoKeywordNoMatch(s, k, 0);
      } else {
        MatchNeedsKeywordStart(s, k);
      }
    }
  }
}
