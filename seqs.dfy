/** Sequence facts the proofs use in contexts where the solver would
    otherwise have to rediscover them among many unrelated definitions. */
module Seqs {

  lemma ConcatAssoc<T>(a: seq<T>, b: seq<T>, c: seq<T>)
    ensures a + (b + c) == (a + b) + c
  {
  }

  /** A prefix one element longer is the prefix with that element appended. */
  lemma TakeSnoc<T>(s: seq<T>, j: nat)
    requires j < |s|
    ensures s[..j + 1] == s[..j] + [s[j]]
  {
  }

  lemma PrefixOfPrefix<T>(s: seq<T>, m: nat, n: nat)
    requires m <= n <= |s|
    ensures s[..n][..m] == s[..m]
  {
  }

  lemma WholePrefix<T>(s: seq<T>)
    ensures s[..|s|] == s
  {
  }

  lemma SplitLast<T>(s: seq<T>)
    requires s != []
    ensures s == s[..|s| - 1] + [s[|s| - 1]]
  {
  }

  lemma SliceCons<T>(s: seq<T>, lo: nat, hi: nat)
    requires lo < hi <= |s|
    ensures s[lo..hi] == [s[lo]] + s[lo + 1..hi]
  {
  }

  /** Dropping the last element of `a + b`, for a non-empty `b`. */
  lemma InitOfConcat<T>(a: seq<T>, b: seq<T>)
    requires b != []
    ensures (a + b)[..|a + b| - 1] == a + b[..|b| - 1]
  {
  }

  /** A sequence of suffix results where each one is a character of `s`
      followed by the next: the first is the slice of `s` followed by the last. */
  lemma {:induction false} ConsChain<T>(s: seq<T>, f: nat -> seq<T>, lo: nat, i: nat)
    requires lo <= i <= |s|
    requires forall k: nat :: lo <= k < i ==> f(k) == [s[k]] + f(k + 1)
    ensures f(lo) == s[lo..i] + f(i)
    decreases i - lo
  {
    if lo < i {
      ConsChain(s, f, lo + 1, i);
      assert s[lo..i] == [s[lo]] + s[lo + 1..i];
    }
  }
}
