/** The binary max-heap of batch verification, as sequences: `h[..n]` holds indices, `k` maps an
    index to its scalar. Node i has the children 2i + 1 and 2i + 2. */
module HeapOrder {

  function Parent(i: nat): nat
    requires i > 0
  {
    (i - 1) / 2
  }

  /** The first n entries are a permutation of 0..n-1. */
  predicate Permutation(h: seq<nat>, n: nat) {
    n <= |h| && (forall i :: 0 <= i < n ==> h[i] < n) && (forall i, j :: 0 <= i < j < n ==> h[i] != h[j])
  }

  /** Node i is at most its parent. */
  predicate InOrder(k: seq<int>, h: seq<nat>, i: nat) {
    0 < i < |h| && h[i] < |k| && h[Parent(i)] < |k| && k[h[i]] <= k[h[Parent(i)]]
  }

  predicate Ordered(k: seq<int>, h: seq<nat>, n: nat) {
    forall i :: 0 < i < n ==> InOrder(k, h, i)
  }

  /** Child i of `hole` is at most the parent of `hole`: what lets `hole` be filled from either side. */
  predicate Bridge(k: seq<int>, h: seq<nat>, hole: nat, i: nat) {
    0 < i < |h| && 0 < hole < |h| && h[i] < |k| && h[Parent(hole)] < |k| && k[h[i]] <= k[h[Parent(hole)]]
  }

  /** Only `hole` may exceed its parent: the state of a sift up. */
  predicate RisingAt(k: seq<int>, h: seq<nat>, n: nat, hole: nat) {
    && (forall i :: 0 < i < n && i != hole ==> InOrder(k, h, i))
    && (hole > 0 ==> forall i :: 0 < i < n && Parent(i) == hole ==> Bridge(k, h, hole, i))
  }

  /** Only `hole` may be out of order with its parent or its children: the state of a sift down. */
  predicate SinkingAt(k: seq<int>, h: seq<nat>, n: nat, hole: nat) {
    && (forall i :: 0 < i < n && i != hole && Parent(i) != hole ==> InOrder(k, h, i))
    && (hole > 0 ==> forall i :: 0 < i < n && Parent(i) == hole ==> Bridge(k, h, hole, i))
  }

  function Swap(h: seq<nat>, a: nat, b: nat): (r: seq<nat>)
    requires a < |h| && b < |h|
  {
    h[a := h[b]][b := h[a]]
  }

  lemma SwapPermutation(h: seq<nat>, n: nat, a: nat, b: nat)
    requires Permutation(h, n) && a < n && b < n
    ensures Permutation(Swap(h, a, b), n)
  {
  }

  /** Sifting up one step restores the order at `hole`. */
  lemma RiseStep(k: seq<int>, h: seq<nat>, n: nat, hole: nat)
    requires Permutation(h, n) && n <= |k| && 0 < hole < n
    requires RisingAt(k, h, n, hole) && k[h[Parent(hole)]] <= k[h[hole]]
    ensures Permutation(Swap(h, Parent(hole), hole), n)
    ensures RisingAt(k, Swap(h, Parent(hole), hole), n, Parent(hole))
  {
    var p := Parent(hole);
    var g := Swap(h, p, hole);
    SwapPermutation(h, n, p, hole);
    forall i | 0 < i < n && i != p
      ensures InOrder(k, g, i)
    {
      if i != hole {
        assert InOrder(k, h, i);
        if Parent(i) == hole { assert Bridge(k, h, hole, i); }
      }
    }
    if p > 0 {
      assert InOrder(k, h, p);
      forall i | 0 < i < n && Parent(i) == p
        ensures Bridge(k, g, p, i)
      {
        if i != hole { assert InOrder(k, h, i); }
      }
    }
  }

  /** A new last entry n may only be out of order with its parent. */
  lemma AppendRises(k: seq<int>, h: seq<nat>, n: nat)
    requires Permutation(h, n) && n < |h| && n < |k| && Ordered(k, h, n)
    ensures Permutation(h[n := n], n + 1) && RisingAt(k, h[n := n], n + 1, n)
  {
    var g := h[n := n];
    forall i | 0 < i < n + 1 && i != n
      ensures InOrder(k, g, i)
    {
      assert InOrder(k, h, i);
    }
  }

  /** After the root's key alone went down, only the root may be out of order. */
  lemma RootSinks(k: seq<int>, k': seq<int>, h: seq<nat>, n: nat)
    requires Permutation(h, n) && 0 < n <= |k| && |k'| == |k| && Ordered(k, h, n)
    requires forall i :: 0 <= i < |k| && i != h[0] ==> k'[i] == k[i]
    ensures SinkingAt(k', h, n, 0)
  {
    forall i | 0 < i < n && Parent(i) != 0
      ensures InOrder(k', h, i)
    {
      assert InOrder(k, h, i);
    }
  }

  lemma RiseDone(k: seq<int>, h: seq<nat>, n: nat, hole: nat)
    requires Permutation(h, n) && n <= |k| && hole < n && RisingAt(k, h, n, hole)
    requires hole > 0 ==> k[h[hole]] <= k[h[Parent(hole)]]
    ensures Ordered(k, h, n)
  {
  }

  lemma SinkOrder(k: seq<int>, h: seq<nat>, n: nat, hole: nat, c: nat, i: nat)
    requires Permutation(h, n) && n <= |k| && SinkingAt(k, h, n, hole) && 0 < c < n && Parent(c) == hole
    requires 0 < i < n && i != c && Parent(i) != c
    requires Parent(i) == hole ==> k[h[i]] <= k[h[c]]
    ensures InOrder(k, Swap(h, hole, c), i)
  {
    if i == hole {
      assert Bridge(k, h, hole, c);
    } else if Parent(i) != hole {
      assert InOrder(k, h, i);
    }
  }

  /** Moving `hole` down to its larger child c keeps everything else in order. */
  lemma SinkStep(k: seq<int>, h: seq<nat>, n: nat, hole: nat, c: nat)
    requires Permutation(h, n) && n <= |k| && SinkingAt(k, h, n, hole)
    requires 2 * hole + 2 < n && (c == 2 * hole + 1 || c == 2 * hole + 2)
    requires k[h[2 * hole + 1]] <= k[h[c]] && k[h[2 * hole + 2]] <= k[h[c]]
    ensures Permutation(Swap(h, hole, c), n)
    ensures SinkingAt(k, Swap(h, hole, c), n, c)
  {
    var g := Swap(h, hole, c);
    SwapPermutation(h, n, hole, c);
    forall i | 0 < i < n && i != c && Parent(i) != c
      ensures InOrder(k, g, i)
    {
      SinkOrder(k, h, n, hole, c, i);
    }
    forall i | 0 < i < n && Parent(i) == c
      ensures Bridge(k, g, c, i)
    {
      assert InOrder(k, h, i);
    }
  }

  /** At a leaf, a sift down has become a sift up. */
  lemma SinkDone(k: seq<int>, h: seq<nat>, n: nat, hole: nat)
    requires hole < n && SinkingAt(k, h, n, hole) && n <= 2 * hole + 1
    ensures RisingAt(k, h, n, hole)
  {
  }

  lemma {:induction false} RootIsMax(k: seq<int>, h: seq<nat>, n: nat, i: nat)
    requires Permutation(h, n) && n <= |k| && Ordered(k, h, n) && i < n
    ensures k[h[i]] <= k[h[0]]
    decreases i
  {
    if i > 0 {
      assert InOrder(k, h, i);
      RootIsMax(k, h, n, Parent(i));
    }
  }

  /** Below the root, one of the two top children is the largest. */
  lemma {:induction false} ChildIsSecond(k: seq<int>, h: seq<nat>, n: nat, i: nat)
    requires Permutation(h, n) && n <= |k| && Ordered(k, h, n) && 3 <= n && 0 < i < n
    ensures k[h[i]] <= k[h[1]] || k[h[i]] <= k[h[2]]
    decreases i
  {
    if i > 2 {
      assert InOrder(k, h, i);
      ChildIsSecond(k, h, n, Parent(i));
    }
  }

  function Range(n: nat): (r: set<nat>)
    ensures |r| == n && forall x :: x in r <==> 0 <= x < n
  {
    if n == 0 then {} else Range(n - 1) + {n - 1}
  }

  function Image(s: seq<nat>): (r: set<nat>)
    requires forall i, j :: 0 <= i < j < |s| ==> s[i] != s[j]
    ensures |r| == |s| && forall x :: x in r <==> x in s
  {
    if s == [] then {} else
      var m := |s| - 1;
      assert s == s[..m] + [s[m]];
      Image(s[..m]) + {s[m]}
  }

  lemma SameSize(a: set<nat>, b: set<nat>)
    requires a <= b && |a| == |b|
    ensures a == b
  {
    assert b == a + (b - a);
  }

  /** Every index below n is some entry of a permutation of 0..n-1. */
  lemma PermutationHits(h: seq<nat>, n: nat, j: nat)
    requires Permutation(h, n) && j < n
    ensures exists i :: 0 <= i < n && h[i] == j
  {
    SameSize(Image(h[..n]), Range(n));
    assert j in h[..n];
  }
}
