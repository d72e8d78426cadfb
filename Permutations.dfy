/** Index-level rearrangements of a sequence: the swaps, gathers and scatters
    that the shuffle effects perform on pixels, and the facts that make them
    permutations. */
module Permutations {

  /** Exchanges the elements at i and j (no change when i == j), as `swapAt` does. */
  function Swap<T>(p: seq<T>, i: nat, j: nat): (r: seq<T>)
    requires i < |p| && j < |p|
    ensures |r| == |p|
    ensures r[i] == p[j] && r[j] == p[i]
    ensures forall k :: 0 <= k < |p| && k != i && k != j ==> r[k] == p[k]
    ensures multiset(r) == multiset(p)
  {
    p[i := p[j]][j := p[i]]
  }

  /** Every index of every swap is below n. */
  predicate SwapsWithin(swaps: seq<(nat, nat)>, n: nat)
  {
    forall k :: 0 <= k < |swaps| ==> swaps[k].0 < n && swaps[k].1 < n
  }

  /** Applies the swaps one after the other, in order; each later swap sees
      the effect of the earlier ones. */
  function SwapAll<T>(p: seq<T>, swaps: seq<(nat, nat)>): (r: seq<T>)
    requires SwapsWithin(swaps, |p|)
    ensures |r| == |p|
    ensures multiset(r) == multiset(p)
    decreases |swaps|
  {
    if swaps == [] then p
    else
      var last := swaps[|swaps| - 1];
      Swap(SwapAll(p, swaps[..|swaps| - 1]), last.0, last.1)
  }

  /** Applying one more swap extends SwapAll by that swap. */
  lemma SwapAllSnoc<T>(p: seq<T>, swaps: seq<(nat, nat)>, i: nat, j: nat)
    requires SwapsWithin(swaps, |p|) && i < |p| && j < |p|
    ensures SwapsWithin(swaps + [(i, j)], |p|)
    ensures SwapAll(p, swaps + [(i, j)]) == Swap(SwapAll(p, swaps), i, j)
  {
    assert (swaps + [(i, j)])[..|swaps|] == swaps;
  }

  /** Swapping elements of a sequence whose elements are all equal changes nothing. */
  lemma {:induction false} SwapAllUniform<T>(p: seq<T>, swaps: seq<(nat, nat)>, c: T)
    requires SwapsWithin(swaps, |p|)
    requires forall k :: 0 <= k < |p| ==> p[k] == c
    ensures SwapAll(p, swaps) == p
    decreases |swaps|
  {
    if swaps != [] {
      var front := swaps[..|swaps| - 1];
      assert SwapsWithin(front, |p|);
      SwapAllUniform(p, front, c);
      var last := swaps[|swaps| - 1];
      var r := Swap(p, last.0, last.1);
      assert forall k :: 0 <= k < |p| ==> r[k] == p[k];
    }
  }

  /** Swaps that each exchange an element with itself change nothing. */
  lemma {:induction false} SwapAllDiagonal<T>(p: seq<T>, swaps: seq<(nat, nat)>)
    requires SwapsWithin(swaps, |p|)
    requires forall k :: 0 <= k < |swaps| ==> swaps[k].0 == swaps[k].1
    ensures SwapAll(p, swaps) == p
    decreases |swaps|
  {
    if swaps != [] {
      var front := swaps[..|swaps| - 1];
      assert SwapsWithin(front, |p|);
      SwapAllDiagonal(p, front);
    }
  }

  /** The identity arrangement 0, 1, ..., n-1. */
  function Iota(n: nat): (r: seq<nat>)
    ensures |r| == n && forall k :: 0 <= k < n ==> r[k] == k
  {
    seq(n, k => k)
  }

  /** perm lists each of 0, 1, ..., n-1 exactly once. */
  predicate IsPermutation(perm: seq<nat>, n: nat)
  {
    |perm| == n && multiset(perm) == multiset(Iota(n))
  }

  lemma PermutationBounded(perm: seq<nat>, n: nat)
    requires IsPermutation(perm, n)
    ensures forall k :: 0 <= k < |perm| ==> perm[k] < n
  {
    forall k | 0 <= k < |perm| ensures perm[k] < n {
      assert perm[k] in multiset(perm);
      assert perm[k] in Iota(n);
    }
  }

  /** Every index is below n. */
  predicate IndicesBelow(idx: seq<nat>, n: nat)
  {
    forall k :: 0 <= k < |idx| ==> idx[k] < n
  }

  /** No index occurs twice. */
  predicate Injective(idx: seq<nat>)
  {
    forall i, j :: 0 <= i < j < |idx| ==> idx[i] != idx[j]
  }

  /** The elements of p at the positions idx, in the order of idx. */
  function Gather<T>(p: seq<T>, idx: seq<nat>): (r: seq<T>)
    requires IndicesBelow(idx, |p|)
    ensures |r| == |idx| && forall k :: 0 <= k < |idx| ==> r[k] == p[idx[k]]
  {
    seq(|idx|, k requires 0 <= k < |idx| => p[idx[k]])
  }

  lemma GatherAppend<T>(p: seq<T>, a: seq<nat>, b: seq<nat>)
    requires IndicesBelow(a, |p|) && IndicesBelow(b, |p|)
    ensures IndicesBelow(a + b, |p|)
    ensures Gather(p, a + b) == Gather(p, a) + Gather(p, b)
  {
  }

  /** Removing the element at k from q removes one occurrence of q[k]. */
  lemma RemoveAt<T>(q: seq<T>, k: nat)
    requires k < |q|
    ensures multiset(q) == multiset(q[..k] + q[k + 1..]) + multiset{q[k]}
  {
    assert q == q[..k] + [q[k]] + q[k + 1..];
  }

  /** Gathering without the index at k gathers one occurrence of p[q[k]] less. */
  lemma GatherRemoveAt<T>(p: seq<T>, q: seq<nat>, k: nat)
    requires IndicesBelow(q, |p|) && k < |q|
    ensures IndicesBelow(q[..k] + q[k + 1..], |p|)
    ensures multiset(Gather(p, q)) == multiset(Gather(p, q[..k] + q[k + 1..])) + multiset{p[q[k]]}
  {
    var g := Gather(p, q);
    assert Gather(p, q[..k] + q[k + 1..]) == g[..k] + g[k + 1..];
    RemoveAt(g, k);
  }

  /** Gathering with two index sequences that hold the same indices (with the
      same multiplicities) gathers the same elements. */
  lemma {:induction false} GatherMultiset<T>(p: seq<T>, q1: seq<nat>, q2: seq<nat>)
    requires IndicesBelow(q1, |p|) && IndicesBelow(q2, |p|)
    requires multiset(q1) == multiset(q2)
    ensures multiset(Gather(p, q1)) == multiset(Gather(p, q2))
    decreases |q1|
  {
    if |q1| == 0 {
      assert |multiset(q2)| == 0;
    } else {
      var n := |q1| - 1;
      var x := q1[n];
      assert x in multiset(q2);
      var k :| 0 <= k < |q2| && q2[k] == x;
      var front, rest := q1[..n] + q1[n + 1..], q2[..k] + q2[k + 1..];
      RemoveAt(q1, n);
      RemoveAt(q2, k);
      assert multiset(front) == multiset(q1) - multiset{x};
      assert multiset(rest) == multiset(q2) - multiset{x};
      GatherRemoveAt(p, q1, n);
      GatherRemoveAt(p, q2, k);
      GatherMultiset(p, front, rest);
    }
  }

  /** Rearranging p by a permutation keeps its elements. */
  lemma PermutedMultiset<T>(p: seq<T>, perm: seq<nat>)
    requires IsPermutation(perm, |p|)
    ensures IndicesBelow(perm, |p|)
    ensures multiset(Gather(p, perm)) == multiset(p)
  {
    PermutationBounded(perm, |p|);
    GatherMultiset(p, perm, Iota(|p|));
    assert Gather(p, Iota(|p|)) == p;
  }

  /** Writes v[k] at position idx[k] of p, for k = 0, 1, ... in order. */
  function Scatter<T>(p: seq<T>, idx: seq<nat>, v: seq<T>): (r: seq<T>)
    requires |idx| == |v| && IndicesBelow(idx, |p|)
    ensures |r| == |p|
    decreases |idx|
  {
    if idx == [] then p
    else
      var n := |idx| - 1;
      Scatter(p, idx[..n], v[..n])[idx[n] := v[n]]
  }

  /** Writing one more value extends the scatter of the first j values. */
  lemma ScatterPrefixStep<T>(p: seq<T>, idx: seq<nat>, v: seq<T>, j: nat)
    requires |idx| == |v| && IndicesBelow(idx, |p|) && j < |idx|
    ensures Scatter(p, idx[..j + 1], v[..j + 1]) == Scatter(p, idx[..j], v[..j])[idx[j] := v[j]]
  {
    assert idx[..j + 1][..j] == idx[..j];
    assert v[..j + 1][..j] == v[..j];
  }

  /** A position that is not written keeps its element. */
  lemma {:induction false} ScatterOutside<T>(p: seq<T>, idx: seq<nat>, v: seq<T>, q: nat)
    requires |idx| == |v| && IndicesBelow(idx, |p|) && q < |p| && q !in idx
    ensures Scatter(p, idx, v)[q] == p[q]
    decreases |idx|
  {
    if idx != [] {
      var n := |idx| - 1;
      assert q != idx[n] && q !in idx[..n];
      ScatterOutside(p, idx[..n], v[..n], q);
    }
  }

  /** With distinct positions, position idx[k] holds the value written there. */
  lemma {:induction false} ScatterWritten<T>(p: seq<T>, idx: seq<nat>, v: seq<T>, k: nat)
    requires |idx| == |v| && IndicesBelow(idx, |p|) && Injective(idx) && k < |idx|
    ensures Scatter(p, idx, v)[idx[k]] == v[k]
    decreases |idx|
  {
    var n := |idx| - 1;
    if k < n {
      assert idx[k] != idx[n];
      assert idx[..n][k] == idx[k] && v[..n][k] == v[k];
      ScatterWritten(p, idx[..n], v[..n], k);
    }
  }

  /** With distinct positions, each written position holds its value and every
      other position keeps its old element. */
  lemma {:induction false} ScatterAt<T>(p: seq<T>, idx: seq<nat>, v: seq<T>)
    requires |idx| == |v| && IndicesBelow(idx, |p|) && Injective(idx)
    ensures forall k :: 0 <= k < |idx| ==> Scatter(p, idx, v)[idx[k]] == v[k]
    ensures forall q :: 0 <= q < |p| && q !in idx ==> Scatter(p, idx, v)[q] == p[q]
    decreases |idx|
  {
    if idx != [] {
      var n := |idx| - 1;
      ScatterAt(p, idx[..n], v[..n]);
      forall q | 0 <= q < |p| && q !in idx ensures Scatter(p, idx, v)[q] == p[q] {
        assert q !in idx[..n];
      }
    }
  }

  /** Reading back the written positions gives the written values. */
  lemma GatherScatter<T>(p: seq<T>, idx: seq<nat>, v: seq<T>)
    requires |idx| == |v| && IndicesBelow(idx, |p|) && Injective(idx)
    ensures Gather(Scatter(p, idx, v), idx) == v
  {
    ScatterAt(p, idx, v);
  }

  /** Overwriting one element trades one occurrence of the old element for the new one. */
  lemma UpdateMultiset<T>(s: seq<T>, x: nat, y: T)
    requires x < |s|
    ensures multiset(s[x := y]) + multiset{s[x]} == multiset(s) + multiset{y}
  {
  }

  lemma MultisetStep<T>(a: multiset<T>, s: multiset<T>, g: multiset<T>, p: multiset<T>, v: multiset<T>, x: T, y: T)
    requires s + g == p + v && a + multiset{x} == s + multiset{y}
    ensures a + (g + multiset{x}) == p + (v + multiset{y})
  {
    calc {
      a + (g + multiset{x});
      (a + multiset{x}) + g;
      (s + multiset{y}) + g;
      (s + g) + multiset{y};
      p + (v + multiset{y});
    }
  }

  /** Adding the same elements to two multisets keeps them equal only if they were. */
  lemma MultisetCancel<T>(a: multiset<T>, b: multiset<T>, c: multiset<T>)
    requires a + c == b + c
    ensures a == b
  {
    forall x ensures a[x] == b[x] {
      assert (a + c)[x] == (b + c)[x];
    }
  }

  /** Scattering replaces the elements at the positions by the new values. */
  lemma {:induction false} ScatterMultiset<T>(p: seq<T>, idx: seq<nat>, v: seq<T>)
    requires |idx| == |v| && IndicesBelow(idx, |p|) && Injective(idx)
    ensures multiset(Scatter(p, idx, v)) + multiset(Gather(p, idx)) == multiset(p) + multiset(v)
    decreases |idx|
  {
    if idx != [] {
      var n := |idx| - 1;
      var x, y := idx[n], v[n];
      var s := Scatter(p, idx[..n], v[..n]);
      ScatterMultiset(p, idx[..n], v[..n]);
      ScatterAt(p, idx[..n], v[..n]);
      assert x !in idx[..n];
      assert s[x] == p[x];
      UpdateMultiset(s, x, y);
      var g := Gather(p, idx);
      assert g == Gather(p, idx[..n]) + [p[x]];
      assert v == v[..n] + [y];
      MultisetStep(multiset(s[x := y]), multiset(s), multiset(Gather(p, idx[..n])),
        multiset(p), multiset(v[..n]), p[x], y);
    }
  }
}
