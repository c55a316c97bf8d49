/** Filling the batch heap (ed25519-donna-batchverify.h, lines 219-238) and running the combined
    check on it (lines 240-250). */
module BatchScalars {
  import opened Words
  import opened Groups
  import opened MultiSum
  import opened Modm
  import opened BatchModm
  import opened BatchHeap
  import opened BosCoster
  import opened BatchEquation
  import opened Primes
  import opened PrimeOrder
  import opened Elements
  import Edwards
  import Encoding
  import Ladder

  /** The bytes an entry contributes: 16 random bytes, S and the 64-byte hash. */
  datatype Bytes = Bytes(r: seq<U8>, s: seq<U8>, h: seq<U8>)

  /** They carry the numbers of the item i. */
  ghost predicate Carries<T>(x: Bytes, i: Item<T>) {
    && |x.r| == 16 && |x.s| == 32 && |x.h| == 64
    && i.r == LE(x.r) && i.s == LE(x.s) % M && i.h == LE(x.h) % M
  }

  ghost predicate AllCarry<T>(x: seq<Bytes>, e: seq<Item<T>>) {
    |x| == |e| && forall i :: 0 <= i < |x| ==> Carries(x[i], e[i])
  }

  /** A 128-bit number is its own residue. */
  lemma ShortRandom(r: seq<U8>)
    requires |r| == 16
    ensures LE(r) < 0x1_00000000_00000000_00000000_00000000 && LE(r) % M == LE(r)
  {
    LEBound(r, Pow256(16));
    Pow256Step(8);
    Pow256Step(0);
    QuoRem(LE(r), M, 0, LE(r));
  }

  method Scalar(b: seq<U8>, ghost v: int) returns (n: Num)
    requires |b| <= 64 && v == LE(b) % M
    ensures Means(n, v)
  {
    n := Expand256(b);
    MeansIff(n, v);
  }

  ghost predicate Slot(s: seq<Num>, at: nat, i: nat, v: seq<int>) {
    at + i < |s| && i < |v| && Means(s[at + i], v[i])
  }

  /** The slots from `at` on hold the first n of the given values. */
  ghost predicate Filled(s: seq<Num>, at: nat, n: nat, v: seq<int>) {
    forall i: nat {:trigger Slot(s, at, i, v)} :: i < n ==> Slot(s, at, i, v)
  }

  /** Writing the next slot, */
  lemma FilledNext(s: seq<Num>, at: nat, n: nat, v: seq<int>, x: Num)
    requires Filled(s, at, n, v) && at + n < |s| && n < |v| && Means(x, v[n])
    ensures Filled(s[at + n := x], at, n + 1, v)
  {
    var t := s[at + n := x];
    forall i: nat {:trigger Slot(t, at, i, v)} | i < n + 1 ensures Slot(t, at, i, v) {
      if i < n { assert Slot(s, at, i, v); }
    }
  }

  /** and writing elsewhere. */
  lemma FilledKept(s: seq<Num>, at: nat, n: nat, v: seq<int>, k: nat, x: Num)
    requires Filled(s, at, n, v) && k < |s| && !(at <= k < at + n)
    ensures Filled(s[k := x], at, n, v)
  {
    var t := s[k := x];
    forall i: nat {:trigger Slot(t, at, i, v)} | i < n ensures Slot(t, at, i, v) { assert Slot(s, at, i, v); }
  }

  /** Lines 222-223. */
  method Randoms<T>(s: array<Num>, x: seq<Bytes>, ghost e: seq<Item<T>>)
    requires AllCarry(x, e) && s.Length == 2 * |x| + 1
    modifies s
    ensures Filled(s[..], |x| + 1, |x|, Factors(e))
  {
    for i := 0 to |x|
      invariant Filled(s[..], |x| + 1, i, Factors(e))
    {
      assert Carries(x[i], e[i]);
      ShortRandom(x[i].r);
      var n := Scalar(x[i].r, e[i].r);
      FilledNext(s[..], |x| + 1, i, Factors(e), n);
      s[|x| + 1 + i] := n;
    }
  }

  function Responses<T>(e: seq<Item<T>>): (v: seq<int>)
    ensures |v| == |e|
  {
    seq(|e|, i requires 0 <= i < |e| => e[i].s * e[i].r % M)
  }

  /** Lines 226-229. */
  method Weights<T>(s: array<Num>, x: seq<Bytes>, ghost e: seq<Item<T>>)
    requires AllCarry(x, e) && s.Length == 2 * |x| + 1 && Filled(s[..], |x| + 1, |x|, Factors(e))
    modifies s
    ensures Filled(s[..], |x| + 1, |x|, Factors(e)) && Filled(s[..], 0, |x|, Responses(e))
  {
    for i := 0 to |x|
      invariant Filled(s[..], |x| + 1, |x|, Factors(e)) && Filled(s[..], 0, i, Responses(e))
    {
      assert Carries(x[i], e[i]) && Slot(s[..], |x| + 1, i, Factors(e));
      var n := WeightAt(x[i], s[|x| + 1 + i], e, i);
      FilledNext(s[..], 0, i, Responses(e), n);
      FilledKept(s[..], |x| + 1, |x|, Factors(e), i, n);
      s[i] := n;
    }
  }

  method WeightAt<T>(x: Bytes, r: Num, ghost e: seq<Item<T>>, ghost i: nat) returns (n: Num)
    requires i < |e| && Carries(x, e[i]) && Means(r, e[i].r)
    ensures Means(n, Responses(e)[i])
  {
    n := Scalar(x.s, e[i].s);
    n := MulMeans(n, r, e[i].s, e[i].r);
  }

  method KeyAt<T>(x: Bytes, r: Num, ghost e: seq<Item<T>>, ghost i: nat) returns (n: Num)
    requires i < |e| && Carries(x, e[i]) && Means(r, e[i].r)
    ensures Means(n, KeyScalars(e, M)[i])
  {
    n := Scalar(x.h, e[i].h);
    n := MulMeans(n, r, e[i].h, e[i].r);
    Commutes(e[i].h, e[i].r);
  }

  /** Lines 234-238. */
  method Keyed<T>(s: array<Num>, x: seq<Bytes>, ghost e: seq<Item<T>>)
    requires AllCarry(x, e) && s.Length == 2 * |x| + 1 && Filled(s[..], |x| + 1, |x|, Factors(e))
    modifies s
    ensures Filled(s[..], |x| + 1, |x|, Factors(e)) && Filled(s[..], 1, |x|, KeyScalars(e, M)) && s[0] == old(s[0])
  {
    for i := 0 to |x|
      invariant Filled(s[..], |x| + 1, |x|, Factors(e)) && Filled(s[..], 1, i, KeyScalars(e, M)) && s[0] == old(s[0])
    {
      assert Carries(x[i], e[i]) && Slot(s[..], |x| + 1, i, Factors(e));
      var n := KeyAt(x[i], s[|x| + 1 + i], e, i);
      FilledNext(s[..], 1, i, KeyScalars(e, M), n);
      FilledKept(s[..], |x| + 1, |x|, Factors(e), i + 1, n);
      s[i + 1] := n;
    }
  }

  lemma Commutes(a: int, b: int)
    ensures a * b % M == b * a % M
  {
  }

  predicate Chain(w: seq<int>, v: seq<int>, i: nat) {
    i < |v| && i + 1 < |w| && (w[i] + v[i]) % M == w[i + 1]
  }

  /** w lists the partial sums of v modulo m. */
  ghost predicate PartialSums(w: seq<int>, v: seq<int>) {
    0 < |v| && |w| == |v| + 1 && w[1] == v[0] && forall i: nat {:trigger Chain(w, v, i)} :: 1 <= i < |v| ==> Chain(w, v, i)
  }

  /** Lines 230-231. */
  method SumUp(s: array<Num>, n: nat, ghost v: seq<int>, ghost w: seq<int>)
    requires n == |v| < s.Length && Filled(s[..], 0, n, v) && PartialSums(w, v)
    modifies s
    ensures Means(s[0], w[n]) && s[1..] == old(s[1..])
  {
    ghost var r := s[..];
    assert Slot(r, 0, 0, v);
    for i := 1 to n
      invariant Means(s[0], w[i]) && s[1..] == r[1..]
    {
      assert s[i] == s[1..][i - 1] == r[1..][i - 1] == r[i] && Slot(r, 0, i, v) && Chain(w, v, i);
      var t := AddMeans(s[0], s[i], w[i], v[i]);
      s[0] := t;
    }
  }

  lemma WeightedSums<T>(e: seq<Item<T>>) returns (w: seq<int>)
    requires 0 < |e|
    ensures PartialSums(w, Responses(e)) && w[|e|] == Weighted(e, |e|) % M
  {
    var v := Responses(e);
    w := seq(|e| + 1, i requires 0 <= i <= |e| => Weighted(e, i) % M);
    FirstWeighted(e);
    forall i: nat {:trigger Chain(w, v, i)} | 1 <= i < |v| ensures Chain(w, v, i) { NextWeighted(e, i); }
  }

  lemma FirstWeighted<T>(e: seq<Item<T>>)
    requires 0 < |e|
    ensures Weighted(e, 1) % M == Responses(e)[0]
  {
    Commutes(e[0].s, e[0].r);
    assert Weighted(e, 1) == Weighted(e, 0) + e[0].r * e[0].s;
  }

  lemma NextWeighted<T>(e: seq<Item<T>>, i: nat)
    requires i < |e|
    ensures (Weighted(e, i) % M + Responses(e)[i]) % M == Weighted(e, i + 1) % M
  {
    Commutes(e[i].s, e[i].r);
    ModSum(Weighted(e, i), e[i].r * e[i].s);
  }

  lemma ModSum(a: int, b: int)
    ensures (a % M + b % M) % M == (a + b) % M
  {
    var t := a % M + b % M;
    QuoRem(a + b, M, a / M + b / M + t / M, t % M);
  }

  /** Lines 222-238: the scalars of the batch. */
  method Prepare<T>(s: array<Num>, x: seq<Bytes>, ghost e: seq<Item<T>>)
    requires AllCarry(x, e) && 0 < |x| && s.Length == 2 * |x| + 1
    modifies s
    ensures Keys(s[..]) == BatchEquation.BatchScalars(e, M) && forall i :: 0 <= i < s.Length ==> s[i].Reduced()
  {
    Randoms(s, x, e);
    Weights(s, x, e);
    ghost var w := WeightedSums(e);
    ghost var t := s[..];
    SumUp(s, |x|, Responses(e), w);
    FilledAfter(t, s[..], |x| + 1, |x|, Factors(e));
    Keyed(s, x, e);
    AllKeys(s[..], e);
  }

  /** The scalars, one by one. */
  lemma ScalarsAre<T>(s: seq<Num>, e: seq<Item<T>>)
    requires |s| == 2 * |e| + 1 && Keys(s) == BatchEquation.BatchScalars(e, M)
    ensures s[0].Val() == Weighted(e, |e|) % M
    ensures forall i :: 0 <= i < |e| ==> s[i + 1].Val() == e[i].r * e[i].h % M && s[|e| + 1 + i].Val() == e[i].r
  {
    SlotKey(e, 0);
    forall i: nat | i < |e| ensures s[i + 1].Val() == e[i].r * e[i].h % M && s[|e| + 1 + i].Val() == e[i].r {
      SlotKey(e, i + 1);
      SlotKey(e, |e| + 1 + i);
      assert Keys(s)[i + 1] == s[i + 1].Val() && Keys(s)[|e| + 1 + i] == s[|e| + 1 + i].Val();
    }
    assert Keys(s)[0] == s[0].Val();
  }

  lemma FilledAfter(t: seq<Num>, s: seq<Num>, at: nat, n: nat, v: seq<int>)
    requires Filled(t, at, n, v) && 1 <= at && |s| == |t| > 0 && s[1..] == t[1..]
    ensures Filled(s, at, n, v)
  {
    forall i: nat {:trigger Slot(s, at, i, v)} | i < n ensures Slot(s, at, i, v) {
      assert Slot(t, at, i, v) && s[at + i] == s[1..][at + i - 1] == t[1..][at + i - 1] == t[at + i];
    }
  }

  lemma AllKeys<T>(s: seq<Num>, e: seq<Item<T>>)
    requires |s| == 2 * |e| + 1 && Means(s[0], Weighted(e, |e|) % M)
    requires Filled(s, 1, |e|, KeyScalars(e, M)) && Filled(s, |e| + 1, |e|, Factors(e))
    ensures Keys(s) == BatchEquation.BatchScalars(e, M) && forall i :: 0 <= i < |s| ==> s[i].Reduced()
  {
    forall i: nat | i < |s| ensures s[i].Reduced() && s[i].Val() == BatchEquation.BatchScalars(e, M)[i] {
      SlotKey(e, i);
      MeansIff(s[i], BatchEquation.BatchScalars(e, M)[i]);
      if 1 <= i <= |e| { assert Slot(s, 1, i - 1, KeyScalars(e, M)); }
      if i > |e| { assert Slot(s, |e| + 1, i - |e| - 1, Factors(e)); }
    }
  }

  lemma SlotKey<T>(e: seq<Item<T>>, i: nat)
    requires i < 2 * |e| + 1
    ensures var k := BatchEquation.BatchScalars(e, M);
            k[i] == if i == 0 then Weighted(e, |e|) % M else if i <= |e| then KeyScalars(e, M)[i - 1] else Factors(e)[i - |e| - 1]
  {
  }

  lemma ScalarsFit<T>(s: seq<Num>, e: seq<Item<T>>, x: seq<Bytes>)
    requires |e| >= 2 && Keys(s) == BatchEquation.BatchScalars(e, M) && AllCarry(x, e)
    requires forall i :: 0 <= i < |s| ==> s[i].Reduced()
    ensures AllFit(s, |s|, 4) && RestShort(s, Built(|s|))
  {
    forall i {:trigger Fits(s[i], 4)} | 0 <= i < |s| ensures Fits(s[i], 4) { assert s[i].Reduced(); }
    forall i | Built(|s|) <= i < |s| ensures s[i].Val() < TWO128 {
      SlotKey(e, i);
      assert Carries(x[i - |e| - 1], e[i - |e| - 1]);
      ShortRandom(x[i - |e| - 1].r);
      assert Keys(s)[i] == s[i].Val();
    }
  }

  /** The multiplier of the final step for the gcd of the scalars the loop uses. */
  ghost function Multiplier(k: seq<int>): (m: Option<nat>) {
    if |k| >= 5 && |k| % 2 == 1 then FinalMultiplier(Gcd(k, Used(k))) else None
  }

  /** The test is made on a multiple of the element q that remains. */
  ghost predicate Tested<T(!new)>(g: Group<T>, k: seq<int>, points: seq<T>, neutral: bool, q: T) {
    Remains(g, k, points, q) && Multiplier(k).Some? && (neutral <==> Mul(g, Multiplier(k).value, q) == g.zero)
  }

  /** What the check says, or None where its final step leaves the limbs. In all cases it is a test of
      the element that remains; it decides whether the sum over the used entries is neutral for all
      points when the final step is exact, and for points of prime order m. */
  ghost predicate Decides<T(!new)>(g: Group<T>, k: seq<int>, points: seq<T>, verdict: Option<bool>)
  {
    && |points| == |k| >= 5 && |k| % 2 == 1 && (verdict.Some? <==> Multiplier(k).Some?)
    && (verdict.Some? ==> exists q :: Tested(g, k, points, verdict.value, q))
    && (verdict.Some? && (Multiplier(k) == Some(Gcd(k, Used(k))) || (Prime(M) && Exponent(g, M, points, |k|)))
        ==> (verdict.value <==> Sum(g, k, points, Used(k)) == g.zero))
  }

  ghost predicate KeysHaveOrder<T>(g: Group<T>, order: nat, e: seq<Item<T>>) {
    forall i :: 0 <= i < |e| ==> Mul(g, order, e[i].a) == g.zero
  }

  /** Lines 219-250 on the decoded points. */
  method CheckBatch<T(!new)>(x: seq<Bytes>, points: seq<Edwards.Ext>, ghost e: seq<Item<T>>, ghost k: seq<int>,
                             ghost g: Group<T>, ghost at: T -> Edwards.Aff, ghost b: T)
    returns (verdict: Option<bool>)
    requires AllCarry(x, e) && |e| > 3 && k == BatchEquation.BatchScalars(e, M)
    requires Ladder.Points(g, at) && Faithful(g, at) && AllStand(g, at, points, BatchPoints(g, b, e))
    ensures Decides(g, k, BatchPoints(g, b, e), verdict)
  {
    var scalars := Scalars(x, e, k);
    verdict := Combine(scalars, points, k, g, at, BatchPoints(g, b, e));
  }

  /** When the heap is extended: with an exact final step the check passes exactly when the sum is
      neutral, and with elements of prime order m it passes whenever the final step gives a point. */
  ghost predicate Settles(k: seq<int>, verdict: Option<bool>, zero: bool, ordered: bool) {
    Extends(k, Built(|k|)) ==>
      && (Multiplier(k) == Some(Gcd(k, |k|)) ==> verdict == Some(zero))
      && (Multiplier(k).Some? && Prime(M) && ordered ==> verdict == Some(true))
  }

  /** What the check says about entries that all satisfy the verification equation: their sum
      is what the reductions lose, which is nothing for keys of order m. */
  lemma ValidBatch<T(!new)>(g: Group<T>, b: T, e: seq<Item<T>>, k: seq<int>, verdict: Option<bool>)
    requires Abelian(g) && g.mem(b) && Mul(g, M, b) == g.zero && |e| > 3 && AllHold(g, b, e)
    requires k == BatchEquation.BatchScalars(e, M) && Decides(g, k, BatchPoints(g, b, e), verdict)
    ensures Settles(k, verdict, Lost(g, e, M, |e|) == g.zero, KeysHaveOrder(g, M, e))
  {
    BatchSumIsLost(g, b, M, e);
    if KeysHaveOrder(g, M, e) { OrderedBatch(g, b, M, e); }
    Verdict(g, k, BatchPoints(g, b, e), verdict, Lost(g, e, M, |e|), KeysHaveOrder(g, M, e));
  }

  lemma OrderedBatch<T(!new)>(g: Group<T>, b: T, order: nat, e: seq<Item<T>>)
    requires Abelian(g) && g.mem(b) && order > 0 && Mul(g, order, b) == g.zero && AllHold(g, b, e) && KeysHaveOrder(g, order, e)
    ensures Lost(g, e, order, |e|) == g.zero && Exponent(g, order, BatchPoints(g, b, e), 2 * |e| + 1)
  {
    forall i | 0 <= i < |e| ensures g.mem(e[i].a) { assert Holds(g, b, e[i]); }
    NothingLost(g, order, e, |e|);
    PointsHaveOrder(g, b, order, e);
  }

  /** With the heap extended, the sum is over all entries. */
  lemma Verdict<T(!new)>(g: Group<T>, k: seq<int>, p: seq<T>, verdict: Option<bool>, sum: T, ordered: bool)
    requires Decides(g, k, p, verdict) && Sum(g, k, p, |k|) == sum
    requires ordered ==> sum == g.zero && Exponent(g, M, p, |k|)
    ensures Settles(k, verdict, sum == g.zero, ordered)
  {
  }

  /** With keys and base point of order m, all points of a valid batch have it. */
  lemma PointsHaveOrder<T(!new)>(g: Group<T>, b: T, order: nat, e: seq<Item<T>>)
    requires Abelian(g) && g.mem(b) && Mul(g, order, b) == g.zero && AllHold(g, b, e)
    requires KeysHaveOrder(g, order, e)
    ensures Exponent(g, order, BatchPoints(g, b, e), 2 * |e| + 1)
  {
    var p := BatchPoints(g, b, e);
    forall i | 0 <= i < |p| ensures Mul(g, order, p[i]) == g.zero {
      if 1 <= i <= |e| {
        assert Holds(g, b, e[i - 1]);
        OrderNeg(g, e[i - 1].a, order);
      }
      if i > |e| {
        assert Holds(g, b, e[i - |e| - 1]);
        NonceOrder(g, b, order, e[i - |e| - 1]);
        OrderNeg(g, e[i - |e| - 1].q, order);
      }
    }
  }

  lemma NonceOrder<T(!new)>(g: Group<T>, b: T, order: nat, i: Item<T>)
    requires Abelian(g) && g.mem(b) && Mul(g, order, b) == g.zero && Mul(g, order, i.a) == g.zero && Holds(g, b, i)
    ensures Mul(g, order, i.q) == g.zero
  {
    MulMem(g, i.s, b);
    MulMem(g, -(i.h as int), i.a);
    MultipleOrder(g, b, order, i.s);
    MultipleOrder(g, i.a, order, -(i.h as int));
    MulSum(g, order, Mul(g, i.s, b), Mul(g, -(i.h as int), i.a));
    Law(g, b, b, b);
    Law(g, g.zero, g.zero, g.zero);
  }

  method Scalars<T>(x: seq<Bytes>, ghost e: seq<Item<T>>, ghost k: seq<int>) returns (s: seq<Num>)
    requires AllCarry(x, e) && |x| > 3 && k == BatchEquation.BatchScalars(e, M)
    ensures |s| == 2 * |x| + 1 && Keys(s) == k
    ensures |s| >= 5 && |s| % 2 == 1 && AllFit(s, |s|, 4) && RestShort(s, Built(|s|)) && forall i :: 0 <= i < |k| ==> 0 <= k[i] < M
  {
    var scalars := new Num[2 * |x| + 1](i => Num(0, 0, 0, 0, 0));
    Prepare(scalars, x, e);
    s := scalars[..];
    ScalarsFit(s, e, x);
    forall i | 0 <= i < |k| ensures 0 <= k[i] < M { assert s[i].Reduced() && k[i] == s[i].Val(); }
  }

  /** Line 249 and the test of line 250. */
  method Combine<T(!new)>(s: seq<Num>, points: seq<Edwards.Ext>, ghost k: seq<int>,
                          ghost g: Group<T>, ghost at: T -> Edwards.Aff, ghost p: seq<T>)
    returns (verdict: Option<bool>)
    requires k == Keys(s) && |points| == |s| >= 5 && |s| % 2 == 1 && AllFit(s, |s|, 4) && RestShort(s, Built(|s|))
    requires Ladder.Points(g, at) && Faithful(g, at) && AllStand(g, at, points, p) && forall i :: 0 <= i < |k| ==> 0 <= k[i] < M
    ensures Decides(g, k, p, verdict)
  {
    var h := new Heap(s, points);
    var r; ghost var q;
    r, q := MultiScalarmult(h, |s|, g, at, p);
    if r == None { return None; }
    var neutral := NeutralElement(r.value, g, at, Mul(g, Multiplier(k).value, q));
    verdict := Some(neutral);
    assert Tested(g, k, p, neutral, q);
    GcdBound(k, Used(k), M - 1);
    if Prime(M) && Exponent(g, M, p, |k|) {
      SameVerdict(g, q, Gcd(k, Used(k)), Multiplier(k).value);
    }
  }

  /** `ge25519_is_neutral_vartime` on a point that stands for s. */
  method NeutralElement<T(!new)>(x: Edwards.Ext, ghost g: Group<T>, ghost at: T -> Edwards.Aff, ghost s: T) returns (neutral: bool)
    requires Ladder.Points(g, at) && Faithful(g, at) && StandsFor(g, at, x, s)
    ensures neutral <==> s == g.zero
  {
    Ladder.FullIsPartial(x, at(s));
    neutral := Encoding.IsNeutral(x, at(s));
    Law(g, s, s, s);
    Ladder.PointsLaw(g, at, s, s);
    if neutral {
      Ladder.SameSym(at(g.zero), Edwards.Aff(0, 1));
      SameTrans(at(s), Edwards.Aff(0, 1), at(g.zero));
    }
  }

  /** For an element p of prime order m, [s]p and what the final step makes of s are neutral together. */
  lemma SameVerdict<T(!new)>(g: Group<T>, p: T, s: nat, m: nat)
    requires Abelian(g) && g.mem(p) && Prime(M) && Mul(g, M, p) == g.zero && s < M && FinalMultiplier(s) == Some(m)
    ensures Mul(g, s, p) == g.zero <==> Mul(g, m, p) == g.zero
  {
    if s > 1 {
      MultiplierBelow(s, m);
      NeutralOnly(g, p, M, s);
      NeutralOnly(g, p, M, m);
    }
  }
}
