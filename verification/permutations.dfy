/** The random source of the permutation test, taken as an input.

    NumPy's `rng.permutation(b)` returns `b` reordered by a random
    permutation of its positions.  The model does not reproduce the
    generator; a trial's draw is any permutation `p` of `0..n-1`, and the
    shuffled series is `b[p[0]], b[p[1]], ...`.  Every property proved
    about the null distribution therefore holds for every seed. */
module Permutations {

  /** `p` is a bijection of `0..n-1` onto itself. */
  predicate IsPermutation(p: seq<nat>, n: nat)
  {
    && |p| == n
    && (forall i :: 0 <= i < n ==> p[i] < n)
    && (forall i, j :: 0 <= i < j < n ==> p[i] != p[j])
    && (forall v :: 0 <= v < n ==> v in p)
  }

  /** The draws of one Monte Carlo run: one permutation of the `n` rows per trial. */
  predicate IsDrawStream(draws: seq<seq<nat>>, trials: nat, n: nat)
  {
    |draws| == trials && forall t :: 0 <= t < trials ==> IsPermutation(draws[t], n)
  }

  /** `b` reordered by the permutation `p`. */
  function Shuffle<T>(b: seq<T>, p: seq<nat>): (s: seq<T>)
    requires IsPermutation(p, |b|)
    ensures |s| == |b|
    ensures forall j :: 0 <= j < |s| ==> s[j] in b
    ensures forall i :: 0 <= i < |b| ==> b[i] in s
  {
    var s := seq(|p|, j requires 0 <= j < |p| => b[p[j]]);
    assert forall i :: 0 <= i < |b| ==> b[i] in s by {
      forall i | 0 <= i < |b|
        ensures b[i] in s
      {
        assert i in p;
        var j :| 0 <= j < |p| && p[j] == i;
        assert s[j] == b[i];
      }
    }
    s
  }

  /** Sending the position that draws the last row to the end leaves a
      permutation of the first `n - 1` rows. */
  lemma {:induction false} MoveLastToEnd(p: seq<nat>, n: nat, k: nat)
    requires n > 0 && IsPermutation(p, n)
    requires k < n && p[k] == n - 1
    ensures IsPermutation(p[k := p[n - 1]][..n - 1], n - 1)
  {
    var last := n - 1;
    var q := p[k := p[last]][..last];
    forall i | 0 <= i < last
      ensures q[i] < last
    {
      if i == k {
        assert p[last] != p[k];
      } else {
        assert p[i] != p[k];
      }
    }
    forall i, j | 0 <= i < j < last
      ensures q[i] != q[j]
    {
      var pi := if i == k then last else i;
      var pj := if j == k then last else j;
      assert q[i] == p[pi] && q[j] == p[pj];
      if pi < pj {
        assert p[pi] != p[pj];
      } else {
        assert p[pj] != p[pi];
      }
    }
    forall v | 0 <= v < last
      ensures v in q
    {
      assert v in p;
      var i :| 0 <= i < n && p[i] == v;
      if i == last {
        assert k != last && q[k] == v;
      } else {
        assert i != k && q[i] == v;
      }
    }
  }

  /** Shuffling by `p` and then swapping positions `k` and `n - 1` gives the
      shuffle of the first `n - 1` rows by the reduced permutation, followed
      by the last row. */
  lemma ShuffleSwapLast<T>(b: seq<T>, p: seq<nat>, k: nat)
    requires |b| > 0 && IsPermutation(p, |b|)
    requires k < |b| && p[k] == |b| - 1
    requires IsPermutation(p[k := p[|b| - 1]][..|b| - 1], |b| - 1)
    ensures var s := Shuffle(b, p);
            s[k := s[|b| - 1]][|b| - 1 := s[k]]
            == Shuffle(b[..|b| - 1], p[k := p[|b| - 1]][..|b| - 1]) + [b[|b| - 1]]
  {
  }

  /** If swapping position `k` of `s` with its last position yields `rest`
      followed by the last element of `b`, and `rest` has the multiset of
      the rest of `b`, then `s` has the multiset of `b`. */
  lemma CombineLast<T>(b: seq<T>, s: seq<T>, k: nat, rest: seq<T>)
    requires |b| > 0 && |s| == |b| && k < |b|
    requires s[k := s[|b| - 1]][|b| - 1 := s[k]] == rest + [b[|b| - 1]]
    requires multiset(rest) == multiset(b[..|b| - 1])
    ensures multiset(s) == multiset(b)
  {
    var last := |b| - 1;
    calc {
      multiset(s);
      multiset(s[k := s[last]][last := s[k]]);
      multiset(rest) + multiset{b[last]};
      multiset(b[..last]) + multiset{b[last]};
      { assert b == b[..last] + [b[last]]; }
      multiset(b);
    }
  }

  /** Reordering by a permutation keeps every element with its multiplicity. */
  lemma {:induction false} ShuffleKeepsMultiset<T>(b: seq<T>, p: seq<nat>)
    requires IsPermutation(p, |b|)
    ensures multiset(Shuffle(b, p)) == multiset(b)
    decreases |b|
  {
    var n := |b|;
    if n == 0 {
      return;
    }
    var last := n - 1;
    assert last in p;
    var k :| 0 <= k < n && p[k] == last;
    var q := p[k := p[last]][..last];
    MoveLastToEnd(p, n, k);
    ShuffleKeepsMultiset(b[..last], q);
    ShuffleSwapLast(b, p, k);
    CombineLast(b, Shuffle(b, p), k, Shuffle(b[..last], q));
  }
}
