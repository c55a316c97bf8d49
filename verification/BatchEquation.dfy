/** The scalars and points of a batch (ed25519-donna-batchverify.h, lines 219-247) and the equation
    that the multi-scalar multiplication checks. */
module BatchEquation {
  import opened Words
  import opened Groups
  import opened MultiSum

  // ----- sums in parts

  /** A sum whose last n terms are those of a list of their own. */
  lemma {:induction false} SumSplit<T(!new)>(g: Group<T>, k: seq<int>, p: seq<T>, m: nat, k': seq<int>, p': seq<T>, n: nat)
    requires Abelian(g) && m + n <= |k| && AllMem(g, p, m + n) && n <= |k'| && AllMem(g, p', n)
    requires forall i :: 0 <= i < n ==> k[m + i] == k'[i] && p[m + i] == p'[i]
    ensures Sum(g, k, p, m + n) == g.add(Sum(g, k, p, m), Sum(g, k', p', n))
  {
    SumMem(g, k, p, m);
    if n == 0 {
      Law(g, Sum(g, k, p, m), Sum(g, k, p, m), Sum(g, k, p, m));
    } else {
      SumSplit(g, k, p, m, k', p', n - 1);
      AppendOne(g, Sum(g, k, p, m), k', p', n);
    }
  }

  lemma AppendOne<T(!new)>(g: Group<T>, s: T, k: seq<int>, p: seq<T>, n: nat)
    requires Abelian(g) && g.mem(s) && 0 < n <= |k| && AllMem(g, p, n)
    ensures g.add(g.add(s, Sum(g, k, p, n - 1)), Mul(g, k[n - 1], p[n - 1])) == g.add(s, Sum(g, k, p, n))
  {
    SumMem(g, k, p, n - 1);
    MulMem(g, k[n - 1], p[n - 1]);
    Law(g, s, Sum(g, k, p, n - 1), Mul(g, k[n - 1], p[n - 1]));
  }

  // ----- the batch equation

  /** One entry: S, H(R, A, m), the random factor, the key point and the point of R. */
  datatype Item<T> = Item(s: nat, h: nat, r: nat, a: T, q: T)

  /** r1 s1 + ... + rn sn */
  function Weighted<T>(e: seq<Item<T>>, n: nat): nat
    requires n <= |e|
  {
    if n == 0 then 0 else Weighted(e, n - 1) + e[n - 1].r * e[n - 1].s
  }

  function KeyScalars<T>(e: seq<Item<T>>, order: nat): (k: seq<int>)
    requires order > 0
    ensures |k| == |e|
  {
    seq(|e|, i requires 0 <= i < |e| => e[i].r * e[i].h % order)
  }

  function Factors<T>(e: seq<Item<T>>): (k: seq<int>)
    ensures |k| == |e|
  {
    seq(|e|, i requires 0 <= i < |e| => e[i].r)
  }

  function KeyPoints<T>(g: Group<T>, e: seq<Item<T>>): (p: seq<T>)
    ensures |p| == |e|
  {
    seq(|e|, i requires 0 <= i < |e| => g.neg(e[i].a))
  }

  function NoncePoints<T>(g: Group<T>, e: seq<Item<T>>): (p: seq<T>)
    ensures |p| == |e|
  {
    seq(|e|, i requires 0 <= i < |e| => g.neg(e[i].q))
  }

  /** The scalars of the heap: the weighted sum, then r h for every key, then every r. */
  function BatchScalars<T>(e: seq<Item<T>>, order: nat): (k: seq<int>)
    requires order > 0
    ensures |k| == 2 * |e| + 1
  {
    [Weighted(e, |e|) % order] + KeyScalars(e, order) + Factors(e)
  }

  function BatchPoints<T>(g: Group<T>, b: T, e: seq<Item<T>>): (p: seq<T>)
    ensures |p| == 2 * |e| + 1
  {
    [b] + KeyPoints(g, e) + NoncePoints(g, e)
  }

  /** The entry satisfies the verification equation R = [S]B - [h]A. */
  ghost predicate Holds<T>(g: Group<T>, b: T, i: Item<T>) {
    g.mem(i.a) && g.mem(i.q) && i.q == g.add(Mul(g, i.s, b), Mul(g, -(i.h as int), i.a))
  }

  ghost predicate AllHold<T>(g: Group<T>, b: T, e: seq<Item<T>>) {
    forall i :: 0 <= i < |e| ==> Holds(g, b, e[i])
  }

  /** What the reduction of r h modulo the order takes away from each key. */
  function LostScalars<T>(e: seq<Item<T>>, order: nat): (k: seq<int>)
    requires order > 0
    ensures |k| == |e|
  {
    seq(|e|, i requires 0 <= i < |e| => order * (e[i].r * e[i].h / order))
  }

  function KeyElements<T>(e: seq<Item<T>>): (p: seq<T>)
    ensures |p| == |e|
  {
    seq(|e|, i requires 0 <= i < |e| => e[i].a)
  }

  /** The sum of the multiples lost that way; each is neutral for a key of that order. */
  function Lost<T>(g: Group<T>, e: seq<Item<T>>, order: nat, n: nat): T
    requires order > 0 && n <= |e|
  {
    Sum(g, LostScalars(e, order), KeyElements(e), n)
  }

  lemma ProductOrder(r: nat, s: nat, h: nat)
    ensures r * s >= 0 && r * h >= 0 && r * -(h as int) == -(r * h)
  {
  }

  /** [r]q, from the verification equation. */
  lemma NonceMultiple<T(!new)>(g: Group<T>, b: T, i: Item<T>)
    requires Abelian(g) && g.mem(b) && Holds(g, b, i)
    ensures Mul(g, i.r, i.q) == g.add(Mul(g, i.r * i.s, b), Mul(g, -(i.r * i.h), i.a))
  {
    MulMem(g, i.s, b);
    MulMem(g, -(i.h as int), i.a);
    MulSum(g, i.r, Mul(g, i.s, b), Mul(g, -(i.h as int), i.a));
    MulMul(g, i.r, i.s, b);
    MulMul(g, i.r, -(i.h as int), i.a);
    ProductOrder(i.r, i.s, i.h);
  }

  /** x + [-low]a - (x + [-all]a) = [all - low]a */
  lemma Leftover<T(!new)>(g: Group<T>, x: T, a: T, all: int, low: int)
    requires Abelian(g) && g.mem(x) && g.mem(a)
    ensures g.add(g.add(x, Mul(g, -low, a)), g.neg(g.add(x, Mul(g, -all, a)))) == Mul(g, all - low, a)
  {
    var y, z := Mul(g, -all, a), Mul(g, all - low, a);
    MulMem(g, -all, a);
    MulMem(g, all - low, a);
    MulAdd(g, -all, all - low, a);
    Law(g, x, y, z);
    var w := g.add(x, y);
    Law(g, w, z, z);
    Law(g, z, w, g.neg(w));
    Law(g, w, w, w);
    Law(g, z, z, z);
  }

  /** The three terms of one entry leave the lost multiple of its key. */
  lemma ItemLeaves<T(!new)>(g: Group<T>, b: T, order: nat, i: Item<T>, w: nat, x: nat)
    requires Abelian(g) && g.mem(b) && order > 0 && Holds(g, b, i) && w == i.r * i.s && x == i.r * i.h
    ensures g.add(g.add(Mul(g, w, b), Mul(g, x % order, g.neg(i.a))), Mul(g, i.r, g.neg(i.q))) == Mul(g, order * (x / order), i.a)
  {
    NonceMultiple(g, b, i);
    NegatedNonce(g, i.r, i.q);
    EntryLeaves(g, b, order, i.a, Mul(g, i.r, g.neg(i.q)), w, x);
  }

  lemma NegatedNonce<T(!new)>(g: Group<T>, r: nat, q: T)
    requires Abelian(g) && g.mem(q)
    ensures Mul(g, r, g.neg(q)) == g.neg(Mul(g, r, q))
  {
    MulNeg(g, r, q);
    MulMinus(g, r, q);
  }

  lemma EntryLeaves<T(!new)>(g: Group<T>, b: T, order: nat, a: T, y: T, w: nat, x: nat)
    requires Abelian(g) && g.mem(b) && g.mem(a) && order > 0 && y == g.neg(g.add(Mul(g, w, b), Mul(g, -(x as int), a)))
    ensures g.add(g.add(Mul(g, w, b), Mul(g, x % order, g.neg(a))), y) == Mul(g, order * (x / order), a)
  {
    var low: nat := x % order;
    assert x - low == order * (x / order);
    MulNeg(g, low, a);
    MulMem(g, w, b);
    Leftover(g, Mul(g, w, b), a, x, low);
  }

  /** Six terms, three by three. */
  lemma Regroup<T(!new)>(g: Group<T>, a: T, x: T, b: T, y: T, c: T, z: T)
    requires Abelian(g) && g.mem(a) && g.mem(x) && g.mem(b) && g.mem(y) && g.mem(c) && g.mem(z)
    ensures g.add(g.add(g.add(a, x), g.add(b, y)), g.add(c, z)) == g.add(g.add(g.add(a, b), c), g.add(g.add(x, y), z))
  {
    Exchange(g, a, x, b, y);
    Law(g, a, b, c);
    Law(g, x, y, z);
    Exchange(g, g.add(a, b), g.add(x, y), c, z);
  }

  lemma PointsMem<T(!new)>(g: Group<T>, b: T, e: seq<Item<T>>)
    requires Abelian(g) && AllHold(g, b, e)
    ensures AllMem(g, KeyPoints(g, e), |e|) && AllMem(g, NoncePoints(g, e), |e|) && AllMem(g, KeyElements(e), |e|)
  {
    var kp, np, ke := KeyPoints(g, e), NoncePoints(g, e), KeyElements(e);
    forall i | 0 <= i < |e| ensures g.mem(kp[i]) && g.mem(np[i]) && g.mem(ke[i]) {
      assert Holds(g, b, e[i]);
      Law(g, e[i].a, e[i].a, e[i].a);
      Law(g, e[i].q, e[i].q, e[i].q);
    }
  }

  /** The terms of the first n entries. */
  function Terms<T>(g: Group<T>, b: T, e: seq<Item<T>>, ks: seq<int>, kp: seq<T>, f: seq<int>, np: seq<T>, n: nat): T
    requires n <= |e| == |ks| == |kp| == |f| == |np|
  {
    g.add(g.add(Mul(g, Weighted(e, n), b), Sum(g, ks, kp, n)), Sum(g, f, np, n))
  }

  /** The terms of entry i leave [l]a, the i-th of the given multiples. */
  predicate Leaves<T(==)>(g: Group<T>, b: T, e: seq<Item<T>>, ks: seq<int>, kp: seq<T>, f: seq<int>, np: seq<T>,
                          ls: seq<int>, ke: seq<T>, i: nat) {
    && i < |e| == |ks| == |kp| == |f| == |np| == |ls| == |ke|
    && g.add(g.add(Mul(g, e[i].r * e[i].s, b), Mul(g, ks[i], kp[i])), Mul(g, f[i], np[i])) == Mul(g, ls[i], ke[i])
  }

  lemma EntryAt<T(!new)>(g: Group<T>, b: T, order: nat, e: seq<Item<T>>, i: nat)
    requires Abelian(g) && g.mem(b) && order > 0 && i < |e| && AllHold(g, b, e)
    ensures Leaves(g, b, e, KeyScalars(e, order), KeyPoints(g, e), Factors(e), NoncePoints(g, e), LostScalars(e, order), KeyElements(e), i)
  {
    assert Holds(g, b, e[i]);
    ItemLeaves(g, b, order, e[i], e[i].r * e[i].s, e[i].r * e[i].h);
  }

  lemma {:induction false} PrefixLeaves<T(!new)>(g: Group<T>, b: T, e: seq<Item<T>>, ks: seq<int>, kp: seq<T>, f: seq<int>,
                                                 np: seq<T>, ls: seq<int>, ke: seq<T>, n: nat)
    requires Abelian(g) && g.mem(b) && n <= |e| == |ks| == |kp| == |f| == |np| == |ls| == |ke|
    requires AllMem(g, kp, |kp|) && AllMem(g, np, |np|)
    requires forall i: nat {:trigger Leaves(g, b, e, ks, kp, f, np, ls, ke, i)} :: i < |e| ==> Leaves(g, b, e, ks, kp, f, np, ls, ke, i)
    ensures Terms(g, b, e, ks, kp, f, np, n) == Sum(g, ls, ke, n)
  {
    if n == 0 {
      assert Laws(g, g.zero, g.zero, g.zero);
    } else {
      PrefixLeaves(g, b, e, ks, kp, f, np, ls, ke, n - 1);
      assert Leaves(g, b, e, ks, kp, f, np, ls, ke, n - 1);
      NextTerms(g, b, e, ks, kp, f, np, n);
    }
  }

  lemma NextTerms<T(!new)>(g: Group<T>, b: T, e: seq<Item<T>>, ks: seq<int>, kp: seq<T>, f: seq<int>, np: seq<T>, n: nat)
    requires Abelian(g) && g.mem(b) && 0 < n <= |e| == |ks| == |kp| == |f| == |np|
    requires AllMem(g, kp, |kp|) && AllMem(g, np, |np|)
    ensures Terms(g, b, e, ks, kp, f, np, n) == g.add(Terms(g, b, e, ks, kp, f, np, n - 1),
              g.add(g.add(Mul(g, e[n - 1].r * e[n - 1].s, b), Mul(g, ks[n - 1], kp[n - 1])), Mul(g, f[n - 1], np[n - 1])))
  {
    var a, x := WeightedNext(g, b, e, n);
    var c, y := SumNext(g, ks, kp, n);
    var d, z := SumNext(g, f, np, n);
    Regroup(g, a, x, c, y, d, z);
  }

  lemma WeightedNext<T(!new)>(g: Group<T>, b: T, e: seq<Item<T>>, n: nat) returns (a: T, x: T)
    requires Abelian(g) && g.mem(b) && 0 < n <= |e|
    ensures a == Mul(g, Weighted(e, n - 1), b) && x == Mul(g, e[n - 1].r * e[n - 1].s, b) && g.mem(a) && g.mem(x)
    ensures Mul(g, Weighted(e, n), b) == g.add(a, x)
  {
    var w, v := Weighted(e, n - 1), e[n - 1].r * e[n - 1].s;
    a, x := Mul(g, w, b), Mul(g, v, b);
    MulAdd(g, w, v, b);
    MulMem(g, w, b);
    MulMem(g, v, b);
  }

  lemma SumNext<T(!new)>(g: Group<T>, k: seq<int>, p: seq<T>, n: nat) returns (c: T, y: T)
    requires Abelian(g) && 0 < n <= |k| && n <= |p| && AllMem(g, p, |p|)
    ensures c == Sum(g, k, p, n - 1) && y == Mul(g, k[n - 1], p[n - 1]) && g.mem(c) && g.mem(y)
    ensures Sum(g, k, p, n) == g.add(c, y)
  {
    c, y := Sum(g, k, p, n - 1), Mul(g, k[n - 1], p[n - 1]);
    SumMem(g, k, p, n - 1);
    MulMem(g, k[n - 1], p[n - 1]);
  }

  lemma BatchMem<T(!new)>(g: Group<T>, b: T, e: seq<Item<T>>)
    requires g.mem(b) && AllMem(g, KeyPoints(g, e), |e|) && AllMem(g, NoncePoints(g, e), |e|)
    ensures AllMem(g, BatchPoints(g, b, e), 2 * |e| + 1)
  {
  }

  /** One first term and two lists of n terms. */
  ghost predicate Parts<T>(k: seq<int>, p: seq<T>, x: int, b: T, ks: seq<int>, kp: seq<T>, f: seq<int>, np: seq<T>, n: nat) {
    && |k| == |p| == 2 * n + 1 && n == |ks| == |kp| == |f| == |np| && k[0] == x && p[0] == b
    && (forall i :: 0 <= i < n ==> k[1 + i] == ks[i] && p[1 + i] == kp[i])
    && (forall i :: 0 <= i < n ==> k[n + 1 + i] == f[i] && p[n + 1 + i] == np[i])
  }

  lemma SumParts<T(!new)>(g: Group<T>, b: T, order: nat, w: nat, k: seq<int>, p: seq<T>, ks: seq<int>, kp: seq<T>, f: seq<int>, np: seq<T>, n: nat)
    requires Abelian(g) && g.mem(b) && order > 0 && Mul(g, order, b) == g.zero && Parts(k, p, w % order, b, ks, kp, f, np, n)
    requires AllMem(g, p, |p|) && AllMem(g, kp, n) && AllMem(g, np, n)
    ensures Sum(g, k, p, 2 * n + 1) == g.add(g.add(Mul(g, w, b), Sum(g, ks, kp, n)), Sum(g, f, np, n))
  {
    FirstTerm(g, b, order, w, k, p);
    SumSplit(g, k, p, 1, ks, kp, n);
    SumSplit(g, k, p, n + 1, f, np, n);
  }

  lemma BatchParts<T>(g: Group<T>, b: T, order: nat, e: seq<Item<T>>)
    requires order > 0
    ensures Parts(BatchScalars(e, order), BatchPoints(g, b, e), Weighted(e, |e|) % order, b,
                  KeyScalars(e, order), KeyPoints(g, e), Factors(e), NoncePoints(g, e), |e|)
  {
  }

  /** The batch sum in terms of the three groups. */
  lemma BatchSum<T(!new)>(g: Group<T>, b: T, order: nat, e: seq<Item<T>>)
    requires Abelian(g) && g.mem(b) && order > 0 && Mul(g, order, b) == g.zero
    requires AllMem(g, KeyPoints(g, e), |e|) && AllMem(g, NoncePoints(g, e), |e|)
    ensures Sum(g, BatchScalars(e, order), BatchPoints(g, b, e), 2 * |e| + 1)
         == Terms(g, b, e, KeyScalars(e, order), KeyPoints(g, e), Factors(e), NoncePoints(g, e), |e|)
  {
    BatchMem(g, b, e);
    BatchParts(g, b, order, e);
    SumParts(g, b, order, Weighted(e, |e|), BatchScalars(e, order), BatchPoints(g, b, e),
             KeyScalars(e, order), KeyPoints(g, e), Factors(e), NoncePoints(g, e), |e|);
  }

  lemma FirstTerm<T(!new)>(g: Group<T>, b: T, order: nat, w: nat, k: seq<int>, p: seq<T>)
    requires Abelian(g) && g.mem(b) && order > 0 && Mul(g, order, b) == g.zero
    requires |k| > 0 && |p| > 0 && k[0] == w % order && p[0] == b
    ensures Sum(g, k, p, 1) == Mul(g, w, b)
  {
    MulReduced(g, b, order, w);
    MulMem(g, w, b);
    assert Sum(g, k, p, 1) == g.add(Sum(g, k, p, 0), Mul(g, k[0], p[0]));
    Law(g, Mul(g, w, b), Mul(g, w, b), b);
    Law(g, g.zero, Mul(g, w, b), b);
  }

  /** When every entry satisfies the verification equation, the batch sum is what the reductions
      lose, whatever the random factors: it is neutral exactly when that is. */
  lemma BatchSumIsLost<T(!new)>(g: Group<T>, b: T, order: nat, e: seq<Item<T>>)
    requires Abelian(g) && g.mem(b) && order > 0 && Mul(g, order, b) == g.zero && AllHold(g, b, e)
    ensures Sum(g, BatchScalars(e, order), BatchPoints(g, b, e), 2 * |e| + 1) == Lost(g, e, order, |e|)
  {
    PointsMem(g, b, e);
    BatchSum(g, b, order, e);
    var ks, kp, f, np, ls, ke :=
      KeyScalars(e, order), KeyPoints(g, e), Factors(e), NoncePoints(g, e), LostScalars(e, order), KeyElements(e);
    forall i: nat {:trigger Leaves(g, b, e, ks, kp, f, np, ls, ke, i)} | i < |e|
      ensures Leaves(g, b, e, ks, kp, f, np, ls, ke, i)
    {
      EntryAt(g, b, order, e, i);
    }
    PrefixLeaves(g, b, e, ks, kp, f, np, ls, ke, |e|);
  }

  /** Nothing is lost on keys of that order. */
  lemma {:induction false} NothingLost<T(!new)>(g: Group<T>, order: nat, e: seq<Item<T>>, n: nat)
    requires Abelian(g) && order > 0 && n <= |e|
    requires forall i :: 0 <= i < n ==> g.mem(e[i].a) && Mul(g, order, e[i].a) == g.zero
    ensures Lost(g, e, order, n) == g.zero
  {
    assert Laws(g, g.zero, g.zero, g.zero);
    if n > 0 {
      NothingLost(g, order, e, n - 1);
      var q: nat := e[n - 1].r * e[n - 1].h / order;
      MulModOrder(g, e[n - 1].a, order, 0, q);
      assert q * order == order * q;
    }
  }

  /** Entry i of a batch for the key a with S = 0 and h = m - 1; the first one has r = 2, the others r = 0. */
  function LossyItem<T>(g: Group<T>, a: T, order: nat, i: nat): Item<T>
    requires order > 0
  {
    Item(0, order - 1, if i == 0 then 2 else 0, a, Mul(g, 1 - order, a))
  }

  lemma LossyHolds<T(!new)>(g: Group<T>, b: T, a: T, order: nat, i: nat)
    requires Abelian(g) && g.mem(a) && g.mem(b) && order > 0
    ensures Holds(g, b, LossyItem(g, a, order, i))
  {
    var q := Mul(g, 1 - order, a);
    MulMem(g, 1 - order, a);
    Law(g, q, q, q);
    Law(g, g.zero, q, q);
    assert -((order - 1) as int) == 1 - order;
  }

  /** Every other key can lose something: for every size there are entries for it that all satisfy the
      equation and lose [m]a. */
  lemma LossyKey<T(!new)>(g: Group<T>, b: T, a: T, order: nat, n: nat) returns (e: seq<Item<T>>)
    requires Abelian(g) && g.mem(b) && g.mem(a) && order >= 2 && n > 0
    ensures |e| == n && AllHold(g, b, e) && AllFor(e, a) && Lost(g, e, order, n) == Mul(g, order, a)
  {
    e := seq(n, i requires 0 <= i < n => LossyItem(g, a, order, i));
    forall i | 0 <= i < n ensures Holds(g, b, e[i]) { LossyHolds(g, b, a, order, i); }
    QuoRem(2 * (order - 1), order, 1, order - 2);
    var k := LostScalars(e, order);
    forall j | 0 <= j < n && j != 0 ensures k[j] == 0 { QuoRem(0, order, 0, 0); }
    assert k[0] == order;
    LoneTerm(g, k, KeyElements(e), n, 0);
  }

  ghost predicate AllFor<T>(e: seq<Item<T>>, a: T) {
    forall i :: 0 <= i < |e| ==> e[i].a == a
  }

  /** Whatever entries for the key a satisfy the equation, their batch sum is neutral. */
  ghost predicate NeverLoses<T(!new)>(g: Group<T>, b: T, a: T, order: nat, n: nat)
    requires order > 0
  {
    forall e {:trigger AllFor(e, a)} :: |e| == n && AllHold(g, b, e) && AllFor(e, a) ==>
      Sum(g, BatchScalars(e, order), BatchPoints(g, b, e), 2 * |e| + 1) == g.zero
  }

  /** Batches for a key never lose anything if and only if [m]a is neutral. */
  lemma LosslessKey<T(!new)>(g: Group<T>, b: T, a: T, order: nat, n: nat)
    requires Abelian(g) && g.mem(b) && g.mem(a) && order >= 2 && Mul(g, order, b) == g.zero && n > 0
    ensures NeverLoses(g, b, a, order, n) <==> Mul(g, order, a) == g.zero
  {
    if Mul(g, order, a) == g.zero {
      forall e {:trigger AllFor(e, a)} | |e| == n && AllHold(g, b, e) && AllFor(e, a)
        ensures Sum(g, BatchScalars(e, order), BatchPoints(g, b, e), 2 * |e| + 1) == g.zero
      {
        BatchSumIsLost(g, b, order, e);
        NothingLost(g, order, e, n);
      }
    } else {
      var e := LossyKey(g, b, a, order, n);
      BatchSumIsLost(g, b, order, e);
      assert AllFor(e, a);
    }
  }
}
