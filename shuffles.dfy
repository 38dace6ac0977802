/**
 * Row-index orders. A random shuffle of `(0..n).collect()` is modelled by the
 * permutation it produces, supplied by the caller.
 */
module Shuffles {

  /** `(0..n).collect::<Vec<usize>>()`. */
  function Range(n: nat): (s: seq<nat>)
    ensures |s| == n && forall i :: 0 <= i < n ==> s[i] == i
  {
    seq(n, i requires 0 <= i => i)
  }

  /** p is some rearrangement of 0..n, as `shuffle` leaves the index vector. */
  predicate IsShuffle(p: seq<nat>, n: nat) {
    |p| == n && multiset(p) == multiset(Range(n))
  }

  lemma {:induction false} RangeMultiplicity(n: nat, v: nat)
    ensures multiset(Range(n))[v] == if v < n then 1 else 0
  {
    if n > 0 {
      assert Range(n) == Range(n - 1) + [n - 1];
      RangeMultiplicity(n - 1, v);
    }
  }

  /** Two positions holding the same value make that value occur twice. */
  lemma TwiceAt(p: seq<nat>, i: nat, j: nat)
    requires i < j < |p| && p[i] == p[j]
    ensures multiset(p)[p[i]] >= 2
  {
    assert p == p[..i] + [p[i]] + p[i + 1..j] + [p[j]] + p[j + 1..];
  }

  /** A shuffle of 0..n has n entries, all below n, pairwise distinct, and covers every index. */
  lemma ShuffleFacts(p: seq<nat>, n: nat)
    requires IsShuffle(p, n)
    ensures |p| == n
    ensures forall i :: 0 <= i < |p| ==> p[i] < n
    ensures forall k: nat :: k < n ==> k in p
    ensures forall i, j :: 0 <= i < j < |p| ==> p[i] != p[j]
  {
    assert |multiset(p)| == |p|;
    forall i | 0 <= i < |p|
      ensures p[i] < n
    {
      assert p[i] in multiset(p);
      RangeMultiplicity(n, p[i]);
    }
    forall k: nat | k < n
      ensures k in p
    {
      RangeMultiplicity(n, k);
      assert k in multiset(p);
    }
    forall i, j | 0 <= i < j < |p|
      ensures p[i] != p[j]
    {
      if p[i] == p[j] {
        TwiceAt(p, i, j);
        RangeMultiplicity(n, p[i]);
      }
    }
  }

  /** Cutting a shuffle of 0..n at t puts every index in exactly one of the two parts. */
  lemma SplitPartitions(p: seq<nat>, n: nat, t: nat)
    requires IsShuffle(p, n) && t <= n
    ensures |p| == n
    ensures forall k: nat :: k < n ==> k in p[..t] || k in p[t..]
    ensures forall k: nat :: k in p[..t] ==> k !in p[t..]
  {
    ShuffleFacts(p, n);
    assert p == p[..t] + p[t..];
    forall k: nat | k < n
      ensures k in p[..t] || k in p[t..]
    {
      assert k in p;
    }
    forall k: nat | k in p[..t]
      ensures k !in p[t..]
    {
      var i :| 0 <= i < t && p[..t][i] == k;
      assert forall j :: 0 <= j < n - t ==> p[t..][j] == p[t + j] != p[i];
    }
  }

  /** The unshuffled order is a shuffle too. */
  lemma RangeIsShuffle(n: nat)
    ensures IsShuffle(Range(n), n)
  {
  }
}
