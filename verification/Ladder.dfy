/** Scalar multiplication over the limb-level point formulas (ed25519-donna-impl-base.h, lines
    246-363), for any abelian group of points that the Edwards law adds. */
module Ladder {
  import opened Pow2s
  import opened Field
  import opened FieldRing
  import opened Edwards
  import opened Groups
  import opened Modm
  import opened Recode

  // ----- groups of curve points

  /** Group addition is the Edwards law, and group negation negates x. */
  ghost predicate PairLaw<T(!new)>(g: Group<T>, at: T -> Aff, p: T, q: T) {
    && Same(at(g.zero), Aff(0, 1))
    && (g.mem(p) && g.mem(q) ==>
          && OnCurve(at(p)) && Same(at(g.neg(p)), Minus(at(p)))
          && Adds(at(p), at(q), at(g.add(p, q))))
  }

  /** g is an abelian group whose elements have Edwards coordinates. */
  ghost predicate Points<T(!new)>(g: Group<T>, at: T -> Aff) {
    Abelian(g) && forall p, q {:trigger PairLaw(g, at, p, q)} :: PairLaw(g, at, p, q)
  }

  lemma PointsLaw<T(!new)>(g: Group<T>, at: T -> Aff, p: T, q: T)
    requires Points(g, at) && g.mem(p) && g.mem(q)
    ensures Adds(at(p), at(q), at(g.add(p, q))) && OnCurve(at(p))
    ensures Same(at(g.zero), Aff(0, 1)) && Same(at(g.neg(q)), Minus(at(q)))
  {
    assert PairLaw(g, at, p, q) && PairLaw(g, at, q, p);
  }

  lemma SameSym(u: Aff, v: Aff)
    requires Same(u, v)
    ensures Same(v, u)
  {
    EqmSym(u.x, v.x);
    EqmSym(u.y, v.y);
  }

  /** The points (0, 1) and (0, -1), to show that the laws can be met. */
  function TwoPoints(): Group<bool> {
    Group((x: bool) => true, false, (x: bool, y: bool) => x != y, (x: bool) => x)
  }

  function TwoCoordinates(x: bool): Aff {
    Aff(0, if x then -1 else 1)
  }

  lemma TwoPointsMeetLaws()
    ensures Points(TwoPoints(), TwoCoordinates)
  {
    var g, at := TwoPoints(), TwoCoordinates;
    forall p, q {:trigger PairLaw(g, at, p, q)} ensures PairLaw(g, at, p, q) {
      VerticalSum(at(p).y, at(q).y);
      VerticalSum(at(p).y, at(p).y);
      EqmRefl(0);
      EqmRefl(1);
      EqmRefl(at(p).y);
    }
  }

  /** Points with x = 0 add by multiplying their y. */
  lemma VerticalSum(y: int, z: int)
    requires (y == 1 || y == -1) && (z == 1 || z == -1)
    ensures Adds(Aff(0, y), Aff(0, z), Aff(0, y * z)) && OnCurve(Aff(0, y))
  {
    UnitTwo();
    KValue(Aff(0, y), Aff(0, z));
    KValue(Aff(0, y), Aff(0, y));
    assert K(Aff(0, y), Aff(0, z)) == 0 && K(Aff(0, y), Aff(0, y)) == 0;
    EqmRefl(0);
    EqmRefl(1);
    EqmRefl(y * z);
  }

  lemma KEqm(u: Aff, v: Aff, t: Aff)
    requires Same(v, t)
    ensures Eqm(K(u, v), K(u, t))
  {
    KValue(u, v);
    KValue(u, t);
    EqmScale(u.x, v.x, t.x);
    EqmScale(u.y, v.y, t.y);
    EqmMul(u.x * v.x, u.x * t.x, u.y * v.y, u.y * t.y);
    EqmScale(D(), u.x * v.x * (u.y * v.y), u.x * t.x * (u.y * t.y));
  }

  /** One coordinate of the law: a f = n carried over to equal f and n. */
  lemma QuotientEqm(a: int, f: int, n: int, h: int, m: int)
    requires Unit(f) && Eqm(a * f, n) && Eqm(h, f) && Eqm(n, m)
    ensures Unit(h) && Eqm(a * h, m)
  {
    UnitEqm(f, h);
    EqmScale(a, h, f);
    EqmTrans(a * h, a * f, n);
    EqmTrans(a * h, n, m);
  }

  /** The law only sees coordinates modulo p. */
  lemma AddsEqm(u: Aff, v: Aff, t: Aff, w: Aff)
    requires Adds(u, v, w) && Same(v, t)
    ensures Adds(u, t, w)
  {
    KEqm(u, v, t);
    EqmSym(K(u, v), K(u, t));
    EqmRefl(1);
    EqmAdd(1, 1, K(u, t), K(u, v));
    EqmScale(u.x, v.y, t.y);
    EqmScale(u.y, v.x, t.x);
    EqmScale(u.y, v.y, t.y);
    EqmScale(u.x, v.x, t.x);
    assert v.x * u.y == u.y * v.x && t.x * u.y == u.y * t.x;
    EqmAdd(u.x * v.y, u.x * t.y, u.y * v.x, u.y * t.x);
    EqmAdd(u.y * v.y, u.y * t.y, u.x * v.x, u.x * t.x);
    QuotientEqm(w.x, 1 + K(u, v), u.x * v.y + v.x * u.y, 1 + K(u, t), u.x * t.y + t.x * u.y);
    QuotientEqm(w.y, 1 - K(u, v), u.y * v.y + u.x * v.x, 1 - K(u, t), u.y * t.y + u.x * t.x);
  }

  /** Adding [d]p through a table entry for [|d|]p and the sign of d. */
  lemma SignedAdds<T(!new)>(g: Group<T>, at: T -> Aff, s: T, p: T, d: int)
    requires Points(g, at) && g.mem(s) && g.mem(p)
    ensures Adds(at(s), Signed(at(Mul(g, if d < 0 then -d else d, p)), d < 0), at(g.add(s, Mul(g, d, p))))
  {
    MulMem(g, d, p);
    MulMem(g, -d, p);
    PointsLaw(g, at, s, Mul(g, d, p));
    if d < 0 {
      MulMinus(g, -d, p);
      PointsLaw(g, at, s, Mul(g, -d, p));
      AddsEqm(at(s), at(Mul(g, d, p)), Minus(at(Mul(g, -d, p))), at(g.add(s, Mul(g, d, p))));
    }
  }

  // ----- the two-scalar ladder

  /** Entry k of a table of odd multiples. */
  ghost predicate PnielsEntry<T>(g: Group<T>, at: T -> Aff, pre: seq<Pniels>, k: nat, p: T) {
    k < |pre| && IsPniels(pre[k], at(Mul(g, 2 * k + 1, p)))
  }

  ghost predicate NielsEntry<T>(g: Group<T>, at: T -> Aff, table: seq<Niels>, k: nat, p: T) {
    k < |table| && IsNiels(table[k], at(Mul(g, 2 * k + 1, p)))
  }

  ghost predicate PnielsTable<T>(g: Group<T>, at: T -> Aff, pre: seq<Pniels>, n: nat, p: T) {
    forall k: nat {:trigger PnielsEntry(g, at, pre, k, p)} :: k < n ==> PnielsEntry(g, at, pre, k, p)
  }

  ghost predicate NielsTable<T>(g: Group<T>, at: T -> Aff, table: seq<Niels>, n: nat, p: T) {
    forall k: nat {:trigger NielsEntry(g, at, table, k, p)} :: k < n ==> NielsEntry(g, at, table, k, p)
  }

  /** An odd digit selects the multiple of its absolute value. */
  lemma OddIndex(d: int, n: nat)
    requires d % 2 == 1 && -2 * n < d < 2 * n
    ensures var e := if d < 0 then -d else d; 0 <= e / 2 < n && 2 * (e / 2) + 1 == e
  {
  }

  /** `abs(b)` and `(unsigned char)b >> 7` for a signed digit. */
  function Magnitude(d: int): nat {
    if d < 0 then -d else d
  }

  /** Lines 280-283: r + [d]a from a pniels table. */
  method AddFirst<T(!new)>(t: P1p1, pre: seq<Pniels>, d: int, ghost g: Group<T>, ghost at: T -> Aff, ghost s: T, ghost a: T)
    returns (u: P1p1)
    requires Points(g, at) && g.mem(s) && g.mem(a) && Quotients(t, at(s)) && PnielsTable(g, at, pre, 8, a)
    requires d != 0 ==> d % 2 == 1 && -16 < d < 16
    ensures Quotients(u, at(g.add(s, Mul(g, d, a))))
  {
    if d == 0 {
      u := t;
      Law(g, s, s, s);
      return;
    }
    OddIndex(d, 8);
    assert PnielsEntry(g, at, pre, Magnitude(d) / 2, a);
    var r := ToFull(t, at(s));
    SignedAdds(g, at, s, a, d);
    u := PnielsAddP1p1(r, pre[Magnitude(d) / 2], d < 0, at(s), at(Mul(g, Magnitude(d), a)), at(g.add(s, Mul(g, d, a))));
  }

  /** Lines 285-288: r + [d]b from a niels table. */
  method AddSecond<T(!new)>(t: P1p1, table: seq<Niels>, d: int, ghost g: Group<T>, ghost at: T -> Aff, ghost s: T, ghost b: T)
    returns (u: P1p1)
    requires Points(g, at) && g.mem(s) && g.mem(b) && Quotients(t, at(s)) && NielsTable(g, at, table, 32, b)
    requires d != 0 ==> d % 2 == 1 && -64 < d < 64
    ensures Quotients(u, at(g.add(s, Mul(g, d, b))))
  {
    if d == 0 {
      u := t;
      Law(g, s, s, s);
      return;
    }
    OddIndex(d, 32);
    assert NielsEntry(g, at, table, Magnitude(d) / 2, b);
    var r := ToFull(t, at(s));
    SignedAdds(g, at, s, b, d);
    u := NielsAddP1p1(r, table[Magnitude(d) / 2], d < 0, at(s), at(Mul(g, Magnitude(d), b)), at(g.add(s, Mul(g, d, b))));
  }

  /** One round: s becomes 2 s + [d]a + [e]b. The t coordinate is stale before and after, and
      `Partial` says nothing about it. */
  method Round<T(!new)>(r0: Ext, pre: seq<Pniels>, table: seq<Niels>, d: int, e: int,
                        ghost g: Group<T>, ghost at: T -> Aff, ghost s: T, ghost a: T, ghost b: T)
    returns (r: Ext)
    requires Points(g, at) && g.mem(s) && g.mem(a) && g.mem(b) && Partial(r0, at(s))
    requires PnielsTable(g, at, pre, 8, a) && NielsTable(g, at, table, 32, b)
    requires d != 0 ==> d % 2 == 1 && -16 < d < 16
    requires e != 0 ==> e % 2 == 1 && -64 < e < 64
    ensures Partial(r, at(RoundSum(g, s, d, a, e, b)))
  {
    RoundMem(g, s, d, a, e, b);
    PointsLaw(g, at, s, s);
    var t := DoubleP1p1(r0, at(s), at(g.add(s, s)));
    t := AddFirst(t, pre, d, g, at, g.add(s, s), a);
    t := AddSecond(t, table, e, g, at, g.add(g.add(s, s), Mul(g, d, a)), b);
    r := ToPartial(t, at(RoundSum(g, s, d, a, e, b)));
  }

  function RoundSum<T>(g: Group<T>, s: T, d: int, a: T, e: int, b: T): T {
    g.add(g.add(g.add(s, s), Mul(g, d, a)), Mul(g, e, b))
  }

  lemma RoundMem<T(!new)>(g: Group<T>, s: T, d: int, a: T, e: int, b: T)
    requires Abelian(g) && g.mem(s) && g.mem(a) && g.mem(b)
    ensures g.mem(g.add(s, s)) && g.mem(g.add(g.add(s, s), Mul(g, d, a))) && g.mem(RoundSum(g, s, d, a, e, b))
  {
    MulMem(g, d, a);
    MulMem(g, e, b);
    Law(g, s, s, s);
    Law(g, g.add(s, s), Mul(g, d, a), s);
    Law(g, g.add(g.add(s, s), Mul(g, d, a)), Mul(g, e, b), s);
  }

  /** On [m]a + [n]b a round gives [2m + d]a + [2n + e]b. */
  lemma RoundPair<T(!new)>(g: Group<T>, m: int, a: T, n: int, b: T, d: int, e: int)
    requires Abelian(g) && g.mem(a) && g.mem(b)
    ensures g.mem(Pair(g, m, a, n, b))
    ensures RoundSum(g, Pair(g, m, a, n, b), d, a, e, b) == Pair(g, 2 * m + d, a, 2 * n + e, b)
  {
    PairMem(g, m, a, n, b);
    PairDouble(g, m, a, n, b);
    PairAddFirst(g, 2 * m, a, 2 * n, b, d);
    PairAddSecond(g, 2 * m + d, a, 2 * n, b, e);
  }

  lemma FullIsPartial(p: Ext, u: Aff)
    requires Full(p, u)
    ensures Partial(p, u)
  {
    var z :| FullZ(p, u, z);
    assert ProjZ(p, u, z);
  }

  /** Lines 263-266: the odd multiples of the point. */
  method OddMultiples<T(!new)>(p1: Ext, ghost g: Group<T>, ghost at: T -> Aff, ghost a: T) returns (pre: array<Pniels>)
    requires Points(g, at) && g.mem(a) && Full(p1, at(a))
    ensures pre.Length == 8 && PnielsTable(g, at, pre[..], 8, a)
  {
    var d1, first := FirstEntries(p1, g, at, a);
    pre := new Pniels[8];
    pre[0] := first;
    assert PnielsEntry(g, at, pre[..], 0, a);
    for i := 0 to 7
      invariant PnielsTable(g, at, pre[..], i + 1, a)
    {
      var was := pre[..];
      assert PnielsEntry(g, at, was, i, a);
      var e := NextEntry(d1, was[i], 2 * i + 1, g, at, a);
      pre[i + 1] := e;
      Extended(g, at, was, e, i + 1, a);
    }
  }

  method FirstEntries<T(!new)>(p1: Ext, ghost g: Group<T>, ghost at: T -> Aff, ghost a: T) returns (d1: Ext, first: Pniels)
    requires Points(g, at) && g.mem(a) && Full(p1, at(a))
    ensures Full(d1, at(g.add(a, a))) && IsPniels(first, at(Mul(g, 1, a)))
  {
    PointsLaw(g, at, a, a);
    FullIsPartial(p1, at(a));
    d1 := Double(p1, at(a), at(g.add(a, a)));
    first := ToPniels(p1, at(a));
    MulOne(g, a);
  }

  method NextEntry<T(!new)>(d1: Ext, q: Pniels, ghost n: int, ghost g: Group<T>, ghost at: T -> Aff, ghost a: T) returns (e: Pniels)
    requires Points(g, at) && g.mem(a) && Full(d1, at(g.add(a, a))) && IsPniels(q, at(Mul(g, n, a)))
    ensures IsPniels(e, at(Mul(g, n + 2, a)))
  {
    MulMem(g, n, a);
    Law(g, a, a, a);
    PointsLaw(g, at, g.add(a, a), Mul(g, n, a));
    NextOdd(g, n, a);
    e := PnielsAdd(d1, q, at(g.add(a, a)), at(Mul(g, n, a)), at(Mul(g, n + 2, a)));
  }

  lemma Extended<T>(g: Group<T>, at: T -> Aff, was: seq<Pniels>, e: Pniels, n: nat, a: T)
    requires PnielsTable(g, at, was, n, a) && n < |was|
    requires IsPniels(e, at(Mul(g, 2 * n + 1, a)))
    ensures PnielsTable(g, at, was[n := e], n + 1, a)
  {
    var now := was[n := e];
    forall k: nat | k < n + 1 ensures PnielsEntry(g, at, now, k, a) {
      if k < n { assert PnielsEntry(g, at, was, k, a); }
    }
  }

  lemma NextOdd<T(!new)>(g: Group<T>, n: int, a: T)
    requires Abelian(g) && g.mem(a)
    ensures g.add(g.add(a, a), Mul(g, n, a)) == Mul(g, n + 2, a)
  {
    MulMem(g, n, a);
    Law(g, a, a, Mul(g, n, a));
    Law(g, g.add(a, a), Mul(g, n, a), a);
    Law(g, Mul(g, n, a), a, a);
    MulSucc(g, n, a);
    MulSucc(g, n + 1, a);
  }

  /** The neutral element in limbs. */
  const NEUTRAL: Ext := Ext(Fe(0, 0, 0, 0, 0), Fe(1, 0, 0, 0, 0), Fe(1, 0, 0, 0, 0), Fe(0, 0, 0, 0, 0))

  lemma NeutralIs(u: Aff)
    requires Same(u, Aff(0, 1))
    ensures Partial(NEUTRAL, u)
  {
    EqmSym(u.x, 0);
    EqmSym(u.y, 1);
    SmallIs(0);
    SmallIs(1);
    IsTrans(NEUTRAL.x, 0, u.x);
    IsTrans(NEUTRAL.y, 1, u.y);
    AffineIs(NEUTRAL, u);
  }

  lemma NeutralPair<T(!new)>(g: Group<T>, at: T -> Aff, a: T, b: T)
    requires Points(g, at) && g.mem(a) && g.mem(b)
    ensures Partial(NEUTRAL, at(Pair(g, 0, a, 0, b)))
  {
    Law(g, a, a, a);
    Law(g, g.zero, g.zero, g.zero);
    PointsLaw(g, at, a, a);
    NeutralIs(at(g.zero));
  }

  /** `ge25519_double_scalarmult_vartime`: [s1]a + [s2]b, for a sliding table of odd multiples of b. */
  method DoubleScalarmult<T(!new)>(p1: Ext, s1: Num, s2: Num, table: seq<Niels>,
                                   ghost g: Group<T>, ghost at: T -> Aff, ghost a: T, ghost b: T)
    returns (r: Ext)
    requires Points(g, at) && g.mem(a) && g.mem(b) && Full(p1, at(a)) && NielsTable(g, at, table, 32, b)
    requires s1.Limbs(0x1_00000000) && s1.Val() < Pow2(255) && s2.Limbs(0x1_00000000) && s2.Val() < Pow2(255)
    ensures Partial(r, at(Pair(g, s1.Val(), a, s2.Val(), b)))
  {
    var slide1, slide2 := new int[256], new int[256];
    SlidingWindow(slide1, s1, 5);
    SlidingWindow(slide2, s2, 7);
    var pre := OddMultiples(p1, g, at, a);
    r := Rounds(slide1[..], slide2[..], pre[..], table, g, at, a, b);
  }

  /** Lines 268-291. */
  method Rounds<T(!new)>(slide1: seq<int>, slide2: seq<int>, pre: seq<Pniels>, table: seq<Niels>,
                         ghost g: Group<T>, ghost at: T -> Aff, ghost a: T, ghost b: T)
    returns (r: Ext)
    requires Points(g, at) && g.mem(a) && g.mem(b)
    requires PnielsTable(g, at, pre, 8, a) && NielsTable(g, at, table, 32, b)
    requires |slide1| == |slide2| == 256 && Naf(slide1, 5, 256) && Naf(slide2, 7, 256)
    ensures Partial(r, at(Pair(g, Value(slide1), a, Value(slide2), b)))
  {
    r := NEUTRAL;
    var i := 255;
    while i >= 0 && slide1[i] == 0 && slide2[i] == 0
      invariant -1 <= i < 256 && Horner(slide1, i + 1) == 0 && Horner(slide2, i + 1) == 0
    {
      i := i - 1;
    }
    NeutralPair(g, at, a, b);
    while i >= 0
      invariant -1 <= i < 256 && Partial(r, at(Reached(g, slide1, slide2, i + 1, a, b)))
    {
      r := RoundAt(r, slide1, slide2, i, pre, table, g, at, a, b);
      i := i - 1;
    }
    HornerTail(slide1, 0);
    HornerTail(slide2, 0);
  }

  /** The digits from position i on, as a number. */
  function Horner(r: seq<int>, i: nat): int
    decreases |r| - i
  {
    if i >= |r| then 0 else r[i] + 2 * Horner(r, i + 1)
  }

  lemma {:induction false} HornerTail(r: seq<int>, i: nat)
    ensures Tail(r, i) == Pow2(i) * Horner(r, i)
    decreases |r| - i
  {
    if i < |r| {
      HornerTail(r, i + 1);
      assert Pow2(i + 1) * Horner(r, i + 1) == Pow2(i) * (2 * Horner(r, i + 1));
    }
  }

  /** What the digits from position i on contribute. */
  ghost function Reached<T>(g: Group<T>, slide1: seq<int>, slide2: seq<int>, i: nat, a: T, b: T): T
    requires i <= |slide1| && i <= |slide2|
  {
    Pair(g, Horner(slide1, i), a, Horner(slide2, i), b)
  }

  method RoundAt<T(!new)>(r0: Ext, slide1: seq<int>, slide2: seq<int>, i: nat, pre: seq<Pniels>, table: seq<Niels>,
                          ghost g: Group<T>, ghost at: T -> Aff, ghost a: T, ghost b: T)
    returns (r: Ext)
    requires Points(g, at) && g.mem(a) && g.mem(b)
    requires PnielsTable(g, at, pre, 8, a) && NielsTable(g, at, table, 32, b)
    requires |slide1| == |slide2| == 256 && Naf(slide1, 5, 256) && Naf(slide2, 7, 256) && i < 256
    requires Partial(r0, at(Reached(g, slide1, slide2, i + 1, a, b)))
    ensures Partial(r, at(Reached(g, slide1, slide2, i, a, b)))
  {
    NafBound(slide1, 5, i);
    NafBound(slide2, 7, i);
    ghost var s := RoundReached(g, slide1, slide2, i, a, b);
    r := Round(r0, pre, table, slide1[i], slide2[i], g, at, s, a, b);
  }

  /** A round takes what the digits above i contribute to what those from i on contribute. */
  lemma RoundReached<T(!new)>(g: Group<T>, slide1: seq<int>, slide2: seq<int>, i: nat, a: T, b: T) returns (s: T)
    requires Abelian(g) && g.mem(a) && g.mem(b) && i < |slide1| && i < |slide2|
    ensures s == Reached(g, slide1, slide2, i + 1, a, b) && g.mem(s)
    ensures RoundSum(g, s, slide1[i], a, slide2[i], b) == Reached(g, slide1, slide2, i, a, b)
  {
    s := Reached(g, slide1, slide2, i + 1, a, b);
    RoundPair(g, Horner(slide1, i + 1), a, Horner(slide2, i + 1), b, slide1[i], slide2[i]);
  }

  lemma NafBound(r: seq<int>, w: nat, i: nat)
    requires |r| == 256 && i < 256 && Naf(r, w, 256) && (w == 5 || w == 7)
    ensures r[i] != 0 ==> r[i] % 2 == 1 && (w == 5 ==> -16 < r[i] < 16) && (w == 7 ==> -64 < r[i] < 64)
  {
    assert NafDigit(r, w, i);
    assert Pow2(4) == 16 && Pow2(6) == 64;
  }
}
