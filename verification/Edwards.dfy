/** The point formulas of ed25519-donna-impl-base.h (lines 5-172) over limbs, related to the affine
    Edwards law of bin/python/ed25519.py (section 5.1.4 of RFC 8032). */
module Edwards {
  import opened Field
  import opened FieldRing

  // ----- affine points and the addition law

  /** An affine point; coordinates count modulo p. */
  datatype Aff = Aff(x: int, y: int)

  /** `ge25519_ecd` and `ge25519_ec2d` */
  const ECD: Fe := Fe(0x34dca135978a3, 0x1a8283b156ebd, 0x5e7a26001c029, 0x739c663a03cbb, 0x52036cee2b6ff)
  const EC2D: Fe := Fe(0x69b9426b2f159, 0x35050762add7a, 0x3cf44c0038052, 0x6738cc7407977, 0x2406d9dc56dff)

  /** d = -121665/121666, with its digits behind the guard that `Eqm` uses. */
  ghost predicate IsD(d: int) {
    forall t {:trigger Opened(t)} :: Opened(t) ==> d == 0x52036cee_2b6ffe73_8cc74079_7779e898_00700a4d_4141d8ab_75eb4dca_135978a3
  }

  ghost function D(): (d: int)
    ensures IsD(d)
  {
    assert IsD(0x52036cee_2b6ffe73_8cc74079_7779e898_00700a4d_4141d8ab_75eb4dca_135978a3);
    var d :| IsD(d);
    d
  }

  lemma DValue()
    ensures D() == 0x52036cee_2b6ffe73_8cc74079_7779e898_00700a4d_4141d8ab_75eb4dca_135978a3
  {
    assert Opened(0);
  }


  /** The limb constants are d and 2d, and d is -121665/121666. */
  lemma Constants()
    ensures Is(ECD, D()) && Is(EC2D, 2 * D()) && Eqm(121666 * D(), -121665)
    ensures ECD.Below(LIMB) && EC2D.Below(LIMB)
  {
    DValue();
    EqmBy(ECD.Val(), D(), 0);
    IsEqm(ECD, D());
    EqmBy(EC2D.Val(), 2 * D(), -1);
    IsEqm(EC2D, 2 * D());
    EqmBy(121666 * D(), -121665, (121666 * D() + 121665) / P);
  }

  /** k is d x1 x2 y1 y2, behind the same guard. */
  ghost predicate IsK(u: Aff, v: Aff, k: int) {
    forall t {:trigger Opened(t)} :: Opened(t) ==> k == D() * (u.x * v.x * (u.y * v.y))
  }

  ghost function K(u: Aff, v: Aff): (k: int)
    ensures IsK(u, v, k)
  {
    assert IsK(u, v, D() * (u.x * v.x * (u.y * v.y)));
    var k :| IsK(u, v, k);
    k
  }

  lemma KValue(u: Aff, v: Aff)
    ensures K(u, v) == D() * (u.x * v.x * (u.y * v.y))
  {
    assert Opened(0);
  }

  /** w is the Edwards sum of u and v, and both denominators can be inverted. */
  ghost predicate Adds(u: Aff, v: Aff, w: Aff) {
    && Unit(1 + K(u, v)) && Unit(1 - K(u, v))
    && Eqm(w.x * (1 + K(u, v)), u.x * v.y + v.x * u.y)
    && Eqm(w.y * (1 - K(u, v)), u.y * v.y + u.x * v.x)
  }

  /** The law determines the sum. */
  lemma AddsUnique(u: Aff, v: Aff, w: Aff, t: Aff)
    requires Adds(u, v, w) && Adds(u, v, t)
    ensures Eqm(w.x, t.x) && Eqm(w.y, t.y)
  {
    SameNumerator(1 + K(u, v), u.x * v.y + v.x * u.y, w.x, t.x);
    SameNumerator(1 - K(u, v), u.y * v.y + u.x * v.x, w.y, t.y);
  }

  lemma SameNumerator(f: int, n: int, a: int, b: int)
    requires Unit(f) && Eqm(a * f, n) && Eqm(b * f, n)
    ensures Eqm(a, b)
  {
    EqmSym(b * f, n);
    EqmTrans(a * f, n, b * f);
    assert a * f == f * a && b * f == f * b;
    UnitCancel(f, a, b);
  }

  /** The law is commutative, */
  lemma AddsCommutes(u: Aff, v: Aff, w: Aff)
    requires Adds(u, v, w)
    ensures Adds(v, u, w)
  {
    KValue(u, v);
    KValue(v, u);
    assert K(u, v) == K(v, u) by { assert u.x * v.x == v.x * u.x && u.y * v.y == v.y * u.y; }
    assert v.y * u.y == u.y * v.y && v.x * u.x == u.x * v.x && v.x * u.y == u.y * v.x && u.x * v.y == v.y * u.x;
  }

  /** (0, 1) is neutral, */
  lemma AddsNeutral(u: Aff)
    ensures Adds(u, Aff(0, 1), u)
  {
    UnitTwo();
    KValue(u, Aff(0, 1));
    assert K(u, Aff(0, 1)) == 0;
    EqmRefl(u.x);
    EqmRefl(u.y);
  }

  /** and on the curve negating x gives the inverse. */
  lemma AddsInverse(u: Aff)
    requires OnCurve(u) && Unit(1 + K(u, u)) && Unit(1 - K(u, u))
    ensures Adds(u, Minus(u), Aff(0, 1))
  {
    var v, k := Minus(u), K(u, u);
    KValue(u, u);
    KValue(u, v);
    assert K(u, v) == -k by {
      assert u.x * (-u.x) == -(u.x * u.x);
      assert -(u.x * u.x) * (u.y * u.y) == -(u.x * u.x * (u.y * u.y));
      assert D() * (-(u.x * u.x * (u.y * u.y))) == -k;
    }
    EqmRefl(0);
    assert u.x * v.y + v.x * u.y == 0;
    EqmSym(u.y * u.y - u.x * u.x, 1 + k);
    assert u.y * v.y + u.x * v.x == u.y * u.y - u.x * u.x;
  }

  ghost predicate OnCurve(u: Aff) {
    Eqm(u.y * u.y - u.x * u.x, 1 + K(u, u))
  }

  function Minus(u: Aff): Aff {
    Aff(-u.x, u.y)
  }

  /** The same affine point, coordinate by coordinate modulo p. */
  ghost predicate Same(u: Aff, v: Aff) {
    Eqm(u.x, v.x) && Eqm(u.y, v.y)
  }

  // ----- points in limbs

  /** `ge25519`, `ge25519_p1p1`, `ge25519_niels` and `ge25519_pniels` */
  datatype Ext = Ext(x: Fe, y: Fe, z: Fe, t: Fe)
  datatype P1p1 = P1p1(x: Fe, y: Fe, z: Fe, t: Fe)
  datatype Niels = Niels(ysubx: Fe, xaddy: Fe, t2d: Fe)
  datatype Pniels = Pniels(ysubx: Fe, xaddy: Fe, z: Fe, t2d: Fe)

  predicate Holds(a: Fe, v: int) {
    a.Val() == v
  }

  /** The limbs of a hold x, up to multiples of p. */
  ghost predicate Is(a: Fe, x: int) {
    forall v {:trigger Holds(a, v)} :: Holds(a, v) ==> Eqm(v, x)
  }

  lemma IsEqm(a: Fe, x: int)
    ensures Is(a, x) <==> Eqm(a.Val(), x)
  {
    assert Holds(a, a.Val());
  }

  lemma IsTrans(a: Fe, x: int, y: int)
    requires Is(a, x) && Eqm(x, y)
    ensures Is(a, y)
  {
    IsEqm(a, x);
    IsEqm(a, y);
    EqmTrans(a.Val(), x, y);
  }

  ghost predicate ProjZ(p: Ext, u: Aff, z: int) {
    && p.x.Below(RED) && p.y.Below(RED) && p.z.Below(RED)
    && Unit(z) && Is(p.z, z) && Is(p.x, u.x * z) && Is(p.y, u.y * z)
  }

  /** x/z and y/z are the affine coordinates; t is not looked at. */
  ghost predicate Partial(p: Ext, u: Aff) {
    exists z :: ProjZ(p, u, z)
  }

  ghost predicate FullZ(p: Ext, u: Aff, z: int) {
    ProjZ(p, u, z) && p.t.Below(RED) && Is(p.t, u.x * u.y * z)
  }

  /** Also t z = x y. */
  ghost predicate Full(p: Ext, u: Aff) {
    exists z :: FullZ(p, u, z)
  }

  /** The invariant of extended coordinates. */
  lemma FullProduct(p: Ext, u: Aff)
    requires Full(p, u)
    ensures Eqm(p.t.Val() * p.z.Val(), p.x.Val() * p.y.Val())
  {
    var z :| FullZ(p, u, z);
    IsEqm(p.x, u.x * z);
    IsEqm(p.y, u.y * z);
    IsEqm(p.z, z);
    IsEqm(p.t, u.x * u.y * z);
    SameProducts(p.t.Val(), p.z.Val(), p.x.Val(), p.y.Val(), u.x, u.y, z);
  }

  lemma SameProducts(t: int, pz: int, px: int, py: int, x: int, y: int, z: int)
    requires Eqm(t, x * y * z) && Eqm(pz, z) && Eqm(px, x * z) && Eqm(py, y * z)
    ensures Eqm(t * pz, px * py)
  {
    EqmMul(t, x * y * z, pz, z);
    EqmMul(px, x * z, py, y * z);
    EqmSym(px * py, (x * z) * (y * z));
    assert x * y * z * z == (x * z) * (y * z);
    EqmTrans(t * pz, x * y * z * z, px * py);
  }

  ghost predicate QuotientsAt(r: P1p1, u: Aff, z: int, t: int) {
    && r.x.Below(BIG) && r.y.Below(BIG) && r.z.Below(BIG) && r.t.Below(BIG)
    && Unit(z) && Unit(t) && Is(r.z, z) && Is(r.t, t) && Is(r.x, u.x * z) && Is(r.y, u.y * t)
  }

  /** x/z and y/t are the affine coordinates. */
  ghost predicate Quotients(r: P1p1, u: Aff) {
    exists z, t :: QuotientsAt(r, u, z, t)
  }

  ghost predicate IsNiels(q: Niels, u: Aff) {
    && q.ysubx.Below(RED) && q.xaddy.Below(RED) && q.t2d.Below(RED)
    && Is(q.ysubx, u.y - u.x) && Is(q.xaddy, u.y + u.x) && Is(q.t2d, u.x * u.y * (2 * D()))
  }

  ghost predicate PnielsZ(q: Pniels, u: Aff, z: int) {
    && q.ysubx.Below(MID) && q.xaddy.Below(MID) && q.z.Below(RED) && q.t2d.Below(RED)
    && Unit(z) && Is(q.z, z)
    && Is(q.ysubx, u.y * z - u.x * z) && Is(q.xaddy, u.y * z + u.x * z) && Is(q.t2d, u.x * u.y * z * (2 * D()))
  }

  ghost predicate IsPniels(q: Pniels, u: Aff) {
    exists z :: PnielsZ(q, u, z)
  }

  // ----- field operations on represented values

  method MulTo(a: Fe, b: Fe, ghost x: int, ghost y: int) returns (o: Fe)
    requires a.Below(BIG) && b.Below(BIG) && Is(a, x) && Is(b, y)
    ensures o.Below(RED) && Is(o, x * y)
  {
    IsEqm(a, x);
    IsEqm(b, y);
    o := Multiply(a, b);
    ProductTo(o.Val(), a.Val(), b.Val(), x, y);
    IsEqm(o, x * y);
  }

  method SquareTo(a: Fe, ghost x: int) returns (o: Fe)
    requires a.Below(BIG) && Is(a, x)
    ensures o.Below(RED) && Is(o, x * x)
  {
    IsEqm(a, x);
    o := Square(a);
    ProductTo(o.Val(), a.Val(), a.Val(), x, x);
    IsEqm(o, x * x);
  }

  method AddTo(a: Fe, b: Fe, ghost x: int, ghost y: int) returns (o: Fe)
    requires a.Below(RED) && b.Below(RED) && Is(a, x) && Is(b, y)
    ensures o.Below(MID) && Is(o, x + y)
  {
    IsEqm(a, x);
    IsEqm(b, y);
    o := Add(a, b);
    SumTo(o.Val(), a.Val(), b.Val(), x, y);
    IsEqm(o, x + y);
  }

  method AddAfterBasicTo(a: Fe, b: Fe, ghost x: int, ghost y: int) returns (o: Fe)
    requires a.Below(MID) && b.Below(MID) && Is(a, x) && Is(b, y)
    ensures o.Below(BIG) && Is(o, x + y)
  {
    IsEqm(a, x);
    IsEqm(b, y);
    o := AddAfterBasic(a, b);
    SumTo(o.Val(), a.Val(), b.Val(), x, y);
    IsEqm(o, x + y);
  }

  method SubTo(a: Fe, b: Fe, ghost x: int, ghost y: int) returns (o: Fe)
    requires a.Below(RED) && b.Below(RED) && Is(a, x) && Is(b, y)
    ensures o.Below(MID) && Is(o, x - y)
  {
    IsEqm(a, x);
    IsEqm(b, y);
    o := Sub(a, b);
    DifferenceTo(o.Val(), a.Val(), b.Val(), x, y);
    IsEqm(o, x - y);
  }

  method SubAfterBasicTo(a: Fe, b: Fe, ghost x: int, ghost y: int) returns (o: Fe)
    requires a.Below(MID) && b.Below(MID) && Is(a, x) && Is(b, y)
    ensures o.Below(BIG) && Is(o, x - y)
  {
    IsEqm(a, x);
    IsEqm(b, y);
    o := SubAfterBasic(a, b);
    DifferenceTo(o.Val(), a.Val(), b.Val(), x, y);
    IsEqm(o, x - y);
  }

  method AddReduceTo(a: Fe, b: Fe, ghost x: int, ghost y: int) returns (o: Fe)
    requires a.Below(MID) && b.Below(MID) && Is(a, x) && Is(b, y)
    ensures o.Below(RED) && Is(o, x + y)
  {
    IsEqm(a, x);
    IsEqm(b, y);
    o := AddReduce(a, b);
    SumTo(o.Val(), a.Val(), b.Val(), x, y);
    IsEqm(o, x + y);
  }

  method SubReduceTo(a: Fe, b: Fe, ghost x: int, ghost y: int) returns (o: Fe)
    requires a.Below(MID) && b.Below(MID) && Is(a, x) && Is(b, y)
    ensures o.Below(RED) && Is(o, x - y)
  {
    IsEqm(a, x);
    IsEqm(b, y);
    o := SubReduce(a, b);
    DifferenceTo(o.Val(), a.Val(), b.Val(), x, y);
    IsEqm(o, x - y);
  }

  method NegTo(a: Fe, ghost x: int) returns (o: Fe)
    requires a.Below(RED) && Is(a, x)
    ensures o.Below(RED) && Is(o, -x)
  {
    IsEqm(a, x);
    o := Neg(a);
    NegationTo(o.Val(), a.Val(), x);
    IsEqm(o, -x);
  }

  lemma SmallIs(n: int)
    ensures Is(Fe(n, 0, 0, 0, 0), n)
  {
    EqmBy(Fe(n, 0, 0, 0, 0).Val(), n, 0);
    IsEqm(Fe(n, 0, 0, 0, 0), n);
  }

  /** A point with z = 1. */
  lemma AffineIs(p: Ext, u: Aff)
    requires p.x.Below(RED) && p.y.Below(RED) && p.z.Below(RED) && Is(p.z, 1) && Is(p.x, u.x) && Is(p.y, u.y)
    ensures Partial(p, u)
  {
    UnitTwo();
    assert u.x * 1 == u.x && u.y * 1 == u.y;
    assert ProjZ(p, u, 1);
  }

  lemma AffineFull(p: Ext, u: Aff)
    requires p.x.Below(RED) && p.y.Below(RED) && p.z.Below(RED) && p.t.Below(RED)
    requires Is(p.z, 1) && Is(p.x, u.x) && Is(p.y, u.y) && Is(p.t, u.x * u.y)
    ensures Full(p, u)
  {
    UnitTwo();
    assert u.x * 1 == u.x && u.y * 1 == u.y && u.x * u.y * 1 == u.x * u.y;
    assert FullZ(p, u, 1);
  }

  // ----- conversions

  /** `ge25519_p1p1_to_partial` */
  method ToPartial(p: P1p1, ghost u: Aff) returns (r: Ext)
    requires Quotients(p, u)
    ensures Partial(r, u)
  {
    ghost var z, t :| QuotientsAt(p, u, z, t);
    var x := MulTo(p.x, p.t, u.x * z, t);
    var y := MulTo(p.y, p.z, u.y * t, z);
    var w := MulTo(p.z, p.t, z, t);
    r := Ext(x, y, w, p.t);
    UnitMul(z, t);
    Regroup(u.x, u.y, z, t);
    assert ProjZ(r, u, z * t);
  }

  lemma Regroup(x: int, y: int, z: int, t: int)
    ensures x * z * t == x * (z * t) && y * t * z == y * (z * t) && (x * z) * (y * t) == x * y * (z * t)
  {
  }

  /** `ge25519_p1p1_to_full` */
  method ToFull(p: P1p1, ghost u: Aff) returns (r: Ext)
    requires Quotients(p, u)
    ensures Full(r, u)
  {
    ghost var z, t :| QuotientsAt(p, u, z, t);
    var x := MulTo(p.x, p.t, u.x * z, t);
    var y := MulTo(p.y, p.z, u.y * t, z);
    var w := MulTo(p.z, p.t, z, t);
    var s := MulTo(p.x, p.y, u.x * z, u.y * t);
    r := Ext(x, y, w, s);
    UnitMul(z, t);
    Regroup(u.x, u.y, z, t);
    assert FullZ(r, u, z * t);
  }

  /** `ge25519_full_to_pniels` */
  method ToPniels(r: Ext, ghost u: Aff) returns (p: Pniels)
    requires Full(r, u)
    ensures IsPniels(p, u)
  {
    ghost var z :| FullZ(r, u, z);
    Constants();
    var s := SubTo(r.y, r.x, u.y * z, u.x * z);
    var a := AddTo(r.y, r.x, u.y * z, u.x * z);
    var t := MulTo(r.t, EC2D, u.x * u.y * z, 2 * D());
    p := Pniels(s, a, r.z, t);
    assert PnielsZ(p, u, z);
  }

  // ----- addition

  lemma Quad(a: int, z: int, b: int, w: int)
    ensures (a * z) * (b * w) == (z * w) * (a * b)
  {
  }

  /** The cross products of (y + x)(y' + x') and (y - x)(y' - x'). */
  lemma Cross(x: int, y: int, v: int, w: int)
    ensures (y + x) * (w + v) - (y - x) * (w - v) == 2 * (x * w + v * y)
    ensures (y + x) * (w + v) + (y - x) * (w - v) == 2 * (y * w + x * v)
  {
  }

  /** What an addition computes from the coordinates of two points. */
  function PlusProduct(u: Aff, v: Aff, z1: int, z2: int): int {
    (u.y * z1 + u.x * z1) * (v.y * z2 + v.x * z2)
  }

  function MinusProduct(u: Aff, v: Aff, z1: int, z2: int): int {
    (u.y * z1 - u.x * z1) * (v.y * z2 - v.x * z2)
  }

  ghost function TProduct(u: Aff, v: Aff, z1: int, z2: int): int {
    (u.x * u.y * z1) * (v.x * v.y * z2 * (2 * D()))
  }

  lemma TProductIs(u: Aff, v: Aff, z1: int, z2: int)
    ensures TProduct(u, v, z1, z2) == 2 * (z1 * z2) * K(u, v)
  {
    KValue(u, v);
    var t1, t2 := u.x * u.y, v.x * v.y;
    Quad(t1, z1, t2, z2);
    Quad(u.x, u.y, v.x, v.y);
    assert u.y * v.y * (u.x * v.x) == u.x * v.x * (u.y * v.y);
    var m, zz := u.x * v.x * (u.y * v.y), z1 * z2;
    assert (t1 * z1) * (t2 * z2 * (2 * D())) == ((t1 * z1) * (t2 * z2)) * (2 * D());
    assert zz * m * (2 * D()) == 2 * zz * (D() * m);
  }

  /** Clearing a common factor: X = s n, Z = s f and n = x f make X = x Z. */
  lemma ClearFactor(X: int, Z: int, s: int, n: int, f: int, x: int)
    requires X == s * n && Eqm(Z, s * f) && Eqm(x * f, n) && Unit(s) && Unit(f)
    ensures Eqm(X, x * Z) && Unit(Z)
  {
    EqmScale(s, x * f, n);
    EqmSym(s * (x * f), s * n);
    EqmSym(Z, s * f);
    EqmScale(x, s * f, Z);
    assert s * (x * f) == x * (s * f);
    EqmTrans(X, x * (s * f), x * Z);
    UnitMul(s, f);
    UnitEqm(s * f, Z);
  }

  /** The four quantities of an addition are numerators and denominators of the sum. */
  lemma AddCorrect(u: Aff, v: Aff, w: Aff, z1: int, z2: int)
    requires Adds(u, v, w) && Unit(z1) && Unit(z2)
    ensures var b, a, c, d := PlusProduct(u, v, z1, z2), MinusProduct(u, v, z1, z2), TProduct(u, v, z1, z2), 2 * (z1 * z2);
            Eqm(b - a, w.x * (d + c)) && Eqm(b + a, w.y * (d - c)) && Unit(d + c) && Unit(d - c)
  {
    var b, a, c, d := PlusProduct(u, v, z1, z2), MinusProduct(u, v, z1, z2), TProduct(u, v, z1, z2), 2 * (z1 * z2);
    UnitMul(z1, z2);
    UnitTwo();
    UnitMul(2, z1 * z2);
    TProductIs(u, v, z1, z2);
    AddNumerators(u, v, z1, z2);
    AddDenominators(d, K(u, v));
    EqmRefl(d + c);
    EqmRefl(d - c);
    ClearFactor(b - a, d + c, d, u.x * v.y + v.x * u.y, 1 + K(u, v), w.x);
    ClearFactor(b + a, d - c, d, u.y * v.y + u.x * v.x, 1 - K(u, v), w.y);
  }

  lemma AddDenominators(d: int, k: int)
    ensures d + d * k == d * (1 + k) && d - d * k == d * (1 - k)
  {
  }

  lemma AddNumerators(u: Aff, v: Aff, z1: int, z2: int)
    ensures var b, a, d := PlusProduct(u, v, z1, z2), MinusProduct(u, v, z1, z2), 2 * (z1 * z2);
            b - a == d * (u.x * v.y + v.x * u.y) && b + a == d * (u.y * v.y + u.x * v.x)
  {
    Cross(u.x * z1, u.y * z1, v.x * z2, v.y * z2);
    Quad(u.x, z1, v.y, z2);
    Quad(v.x, z2, u.y, z1);
    Quad(u.y, z1, v.y, z2);
    Quad(u.x, z1, v.x, z2);
    var zz := z1 * z2;
    assert z2 * z1 == zz;
    Gather(zz, u.x * v.y, v.x * u.y);
    Gather(zz, u.y * v.y, u.x * v.x);
  }

  lemma Gather(z: int, a: int, b: int)
    ensures 2 * (z * a + z * b) == 2 * z * (a + b)
  {
  }

  /** The start of every addition: (y - x) q1 and (y + x) q2. */
  method Sides(p: Ext, q1: Fe, q2: Fe, ghost u: Aff, ghost z: int, ghost m: int, ghost n: int) returns (a: Fe, b: Fe)
    requires ProjZ(p, u, z) && q1.Below(BIG) && q2.Below(BIG) && Is(q1, m) && Is(q2, n)
    ensures a.Below(RED) && b.Below(RED)
    ensures Is(a, (u.y * z - u.x * z) * m) && Is(b, (u.y * z + u.x * z) * n)
  {
    a := SubTo(p.y, p.x, u.y * z, u.x * z);
    b := AddTo(p.y, p.x, u.y * z, u.x * z);
    a := MulTo(a, q1, u.y * z - u.x * z, m);
    b := MulTo(b, q2, u.y * z + u.x * z, n);
  }

  lemma TProductSplit(a: int, b: int)
    ensures a * b * (2 * D()) == a * (b * (2 * D()))
  {
  }

  method Halves(q: Ext, ghost v: Aff, ghost z: int) returns (t: Fe, s: Fe)
    requires ProjZ(q, v, z)
    ensures t.Below(MID) && s.Below(MID) && Is(t, v.y * z - v.x * z) && Is(s, v.y * z + v.x * z)
  {
    t := SubTo(q.y, q.x, v.y * z, v.x * z);
    s := AddTo(q.y, q.x, v.y * z, v.x * z);
  }

  method TimesEc2d(a: Fe, b: Fe, ghost x: int, ghost y: int) returns (c: Fe)
    requires a.Below(RED) && b.Below(RED) && Is(a, x) && Is(b, y)
    ensures c.Below(RED) && Is(c, x * (y * (2 * D())))
  {
    Constants();
    c := MulTo(a, b, x, y);
    c := MulTo(c, EC2D, x * y, 2 * D());
    TProductSplit(x, y);
  }

  method TwiceProduct(a: Fe, b: Fe, ghost x: int, ghost y: int) returns (d: Fe)
    requires a.Below(RED) && b.Below(RED) && Is(a, x) && Is(b, y)
    ensures d.Below(MID) && Is(d, 2 * (x * y))
  {
    d := MulTo(a, b, x, y);
    d := AddTo(d, d, x * y, x * y);
  }

  /** `ge25519_add_p1p1` */
  method AddP1p1(p: Ext, q: Ext, ghost u: Aff, ghost v: Aff, ghost w: Aff) returns (r: P1p1)
    requires Full(p, u) && Full(q, v) && Adds(u, v, w)
    ensures Quotients(r, w)
  {
    ghost var z1 :| FullZ(p, u, z1);
    ghost var z2 :| FullZ(q, v, z2);
    var a, b, c, d := AddProducts(p, q, u, v, z1, z2);
    r := Finish(a, b, c, d, u, v, w, z1, z2);
  }

  /** Lines 36-45. */
  method AddProducts(p: Ext, q: Ext, ghost u: Aff, ghost v: Aff, ghost z1: int, ghost z2: int)
    returns (a: Fe, b: Fe, c: Fe, d: Fe)
    requires FullZ(p, u, z1) && FullZ(q, v, z2)
    ensures a.Below(RED) && b.Below(RED) && c.Below(RED) && d.Below(MID)
    ensures Is(a, MinusProduct(u, v, z1, z2)) && Is(b, PlusProduct(u, v, z1, z2))
    ensures Is(c, TProduct(u, v, z1, z2)) && Is(d, 2 * (z1 * z2))
  {
    var t, s := Halves(q, v, z2);
    a, b := Sides(p, t, s, u, z1, v.y * z2 - v.x * z2, v.y * z2 + v.x * z2);
    c := TimesEc2d(p.t, q.t, u.x * u.y * z1, v.x * v.y * z2);
    d := TwiceProduct(p.z, q.z, z1, z2);
  }

  /** The end of an addition: b - a, b + a, d + c, d - c. */
  method Finish(a: Fe, b: Fe, c: Fe, d: Fe, ghost u: Aff, ghost v: Aff, ghost w: Aff, ghost z1: int, ghost z2: int)
    returns (r: P1p1)
    requires a.Below(RED) && b.Below(RED) && c.Below(RED) && d.Below(MID)
    requires Is(a, MinusProduct(u, v, z1, z2)) && Is(b, PlusProduct(u, v, z1, z2))
    requires Is(c, TProduct(u, v, z1, z2)) && Is(d, 2 * (z1 * z2))
    requires Adds(u, v, w) && Unit(z1) && Unit(z2)
    ensures Quotients(r, w)
  {
    ghost var pp, mm, tt, dd := PlusProduct(u, v, z1, z2), MinusProduct(u, v, z1, z2), TProduct(u, v, z1, z2), 2 * (z1 * z2);
    var x := SubTo(b, a, pp, mm);
    var y := AddTo(b, a, pp, mm);
    var z := AddAfterBasicTo(d, c, dd, tt);
    var t := SubAfterBasicTo(d, c, dd, tt);
    r := P1p1(x, y, z, t);
    AddCorrect(u, v, w, z1, z2);
    IsTrans(x, pp - mm, w.x * (dd + tt));
    IsTrans(y, pp + mm, w.y * (dd - tt));
    assert QuotientsAt(r, w, dd + tt, dd - tt);
  }

  /** `ge25519_add` */
  method AddPoints(p: Ext, q: Ext, ghost u: Aff, ghost v: Aff, ghost w: Aff) returns (r: Ext)
    requires Full(p, u) && Full(q, v) && Adds(u, v, w)
    ensures Full(r, w)
  {
    var t := AddP1p1(p, q, u, v, w);
    r := ToFull(t, w);
  }

  lemma NielsProducts(u: Aff, v: Aff, z1: int)
    ensures MinusProduct(u, v, z1, 1) == (u.y * z1 - u.x * z1) * (v.y - v.x)
    ensures PlusProduct(u, v, z1, 1) == (u.y * z1 + u.x * z1) * (v.y + v.x)
    ensures TProduct(u, v, z1, 1) == (u.x * u.y * z1) * (v.x * v.y * (2 * D()))
  {
  }

  /** `ge25519_nielsadd2` */
  method NielsAdd(p: Ext, q: Niels, ghost u: Aff, ghost v: Aff, ghost w: Aff) returns (r: Ext)
    requires Full(p, u) && IsNiels(q, v) && Adds(u, v, w)
    ensures Full(r, w)
  {
    ghost var z1 :| FullZ(p, u, z1);
    var a, b := Sides(p, q.ysubx, q.xaddy, u, z1, v.y - v.x, v.y + v.x);
    var c := MulTo(p.t, q.t2d, u.x * u.y * z1, v.x * v.y * (2 * D()));
    var d := AddTo(p.z, p.z, z1, z1);
    NielsProducts(u, v, z1);
    UnitTwo();
    var t := Finish(a, b, c, d, u, v, w, z1, 1);
    r := ToFull(t, w);
  }

  /** `ge25519_pnielsadd` */
  method PnielsAdd(p: Ext, q: Pniels, ghost u: Aff, ghost v: Aff, ghost w: Aff) returns (r: Pniels)
    requires Full(p, u) && IsPniels(q, v) && Adds(u, v, w)
    ensures IsPniels(r, w)
  {
    ghost var z1 :| FullZ(p, u, z1);
    ghost var z2 :| PnielsZ(q, v, z2);
    var a, b := Sides(p, q.ysubx, q.xaddy, u, z1, v.y * z2 - v.x * z2, v.y * z2 + v.x * z2);
    var c := MulTo(p.t, q.t2d, u.x * u.y * z1, v.x * v.y * z2 * (2 * D()));
    var d := TwiceProduct(p.z, q.z, z1, z2);
    var t := Finish(a, b, c, d, u, v, w, z1, z2);
    var f := ToFull(t, w);
    r := ToPniels(f, w);
  }

  // ----- signed addition

  function Signed(v: Aff, sign: bool): Aff {
    if sign then Minus(v) else v
  }

  lemma MinusProducts(u: Aff, v: Aff, z1: int, z2: int)
    ensures MinusProduct(u, Minus(v), z1, z2) == (u.y * z1 - u.x * z1) * (v.y * z2 + v.x * z2)
    ensures PlusProduct(u, Minus(v), z1, z2) == (u.y * z1 + u.x * z1) * (v.y * z2 - v.x * z2)
    ensures TProduct(u, Minus(v), z1, z2) == -TProduct(u, v, z1, z2)
  {
    assert (-v.x) * z2 == -(v.x * z2);
    var a, b := v.x * v.y, v.x * v.y * z2 * (2 * D());
    assert (-v.x) * v.y * z2 * (2 * D()) == -b by {
      assert (-v.x) * v.y == -a && (-a) * z2 == -(a * z2);
    }
    assert (u.x * u.y * z1) * (-b) == -((u.x * u.y * z1) * b);
  }

  /** The end of a signed addition: the c of a subtraction goes to the other side. */
  method FinishSigned(a: Fe, b: Fe, c: Fe, d: Fe, sign: bool,
                      ghost u: Aff, ghost v: Aff, ghost w: Aff, ghost z1: int, ghost z2: int) returns (r: P1p1)
    requires a.Below(RED) && b.Below(RED) && c.Below(RED) && d.Below(RED)
    requires Is(a, MinusProduct(u, v, z1, z2)) && Is(b, PlusProduct(u, v, z1, z2))
    requires Is(c, if sign then -TProduct(u, v, z1, z2) else TProduct(u, v, z1, z2)) && Is(d, 2 * (z1 * z2))
    requires Adds(u, v, w) && Unit(z1) && Unit(z2)
    ensures Quotients(r, w)
  {
    ghost var pp, mm, tt, dd := PlusProduct(u, v, z1, z2), MinusProduct(u, v, z1, z2), TProduct(u, v, z1, z2), 2 * (z1 * z2);
    var x := SubTo(b, a, pp, mm);
    var y := AddTo(b, a, pp, mm);
    var s := AddTo(d, c, dd, if sign then -tt else tt);
    var t := SubTo(d, c, dd, if sign then -tt else tt);
    r := if sign then P1p1(x, y, t, s) else P1p1(x, y, s, t);
    AddCorrect(u, v, w, z1, z2);
    IsTrans(x, pp - mm, w.x * (dd + tt));
    IsTrans(y, pp + mm, w.y * (dd - tt));
    assert QuotientsAt(r, w, dd + tt, dd - tt);
  }

  /** `ge25519_nielsadd2_p1p1` */
  method NielsAddP1p1(p: Ext, q: Niels, sign: bool, ghost u: Aff, ghost v: Aff, ghost w: Aff) returns (r: P1p1)
    requires Full(p, u) && IsNiels(q, v) && Adds(u, Signed(v, sign), w)
    ensures Quotients(r, w)
  {
    ghost var z1 :| FullZ(p, u, z1);
    NielsProducts(u, v, z1);
    MinusProducts(u, v, z1, 1);
    assert v.y * 1 == v.y && v.x * 1 == v.x && z1 * 1 == z1;
    var a, b;
    if sign {
      a, b := Sides(p, q.xaddy, q.ysubx, u, z1, v.y + v.x, v.y - v.x);
    } else {
      a, b := Sides(p, q.ysubx, q.xaddy, u, z1, v.y - v.x, v.y + v.x);
    }
    var c := MulTo(p.t, q.t2d, u.x * u.y * z1, v.x * v.y * (2 * D()));
    var d := AddReduceTo(p.z, p.z, z1, z1);
    UnitTwo();
    r := FinishSigned(a, b, c, d, sign, u, Signed(v, sign), w, z1, 1);
  }

  /** `ge25519_pnielsadd_p1p1` */
  method PnielsAddP1p1(p: Ext, q: Pniels, sign: bool, ghost u: Aff, ghost v: Aff, ghost w: Aff) returns (r: P1p1)
    requires Full(p, u) && IsPniels(q, v) && Adds(u, Signed(v, sign), w)
    ensures Quotients(r, w)
  {
    ghost var z1 :| FullZ(p, u, z1);
    ghost var z2 :| PnielsZ(q, v, z2);
    MinusProducts(u, v, z1, z2);
    var a, b;
    if sign {
      a, b := Sides(p, q.xaddy, q.ysubx, u, z1, v.y * z2 + v.x * z2, v.y * z2 - v.x * z2);
    } else {
      a, b := Sides(p, q.ysubx, q.xaddy, u, z1, v.y * z2 - v.x * z2, v.y * z2 + v.x * z2);
    }
    var c := MulTo(p.t, q.t2d, u.x * u.y * z1, v.x * v.y * z2 * (2 * D()));
    var d := MulTo(p.z, q.z, z1, z2);
    d := AddReduceTo(d, d, z1 * z2, z1 * z2);
    r := FinishSigned(a, b, c, d, sign, u, Signed(v, sign), w, z1, z2);
  }

  // ----- doubling

  /** On the curve y^2 - x^2 is the denominator of the doubled x, so T is not needed. */
  lemma DoubleCorrect(u: Aff, w: Aff, z: int)
    requires Adds(u, u, w) && OnCurve(u) && Unit(z)
    ensures var x, y, zz := u.x * z, u.y * z, z * z;
            var Z := y * y - x * x;
            var T := (zz + zz) - Z;
            Eqm((x + y) * (x + y) - (y * y + x * x), w.x * Z) && Eqm(y * y + x * x, w.y * T) && Unit(Z) && Unit(T)
  {
    var x, y, zz, k := u.x * z, u.y * z, z * z, K(u, u);
    var Z := y * y - x * x;
    DoubleIdentities(u, z);
    UnitMul(z, z);
    EqmScale(zz, u.y * u.y - u.x * u.x, 1 + k);
    DoubleDenominator(Z, zz, k);
    ClearFactor((x + y) * (x + y) - (y * y + x * x), Z, zz, u.x * u.y + u.x * u.y, 1 + k, w.x);
    ClearFactor(y * y + x * x, (zz + zz) - Z, zz, u.y * u.y + u.x * u.x, 1 - k, w.y);
  }

  lemma DoubleIdentities(u: Aff, z: int)
    ensures var x, y, zz := u.x * z, u.y * z, z * z;
            && y * y - x * x == zz * (u.y * u.y - u.x * u.x) && y * y + x * x == zz * (u.y * u.y + u.x * u.x)
            && (x + y) * (x + y) - (y * y + x * x) == zz * (u.x * u.y + u.x * u.y)
  {
    var x, y, zz := u.x * z, u.y * z, z * z;
    Quad(u.x, z, u.x, z);
    Quad(u.y, z, u.y, z);
    Quad(u.x, z, u.y, z);
    Gather(zz, u.x * u.y, u.x * u.y);
    Binomial(x, y);
  }

  lemma Binomial(x: int, y: int)
    ensures (x + y) * (x + y) - (y * y + x * x) == 2 * (x * y)
  {
  }

  lemma DoubleDenominator(Z: int, zz: int, k: int)
    requires Eqm(Z, zz * (1 + k))
    ensures Eqm((zz + zz) - Z, zz * (1 - k))
  {
    EqmRefl(zz + zz);
    EqmAdd(zz + zz, zz + zz, Z, zz * (1 + k));
    AddDenominators(zz, k);
  }

  /** `ge25519_double_p1p1` */
  method DoubleP1p1(p: Ext, ghost u: Aff, ghost w: Aff) returns (r: P1p1)
    requires Partial(p, u) && OnCurve(u) && Adds(u, u, w)
    ensures Quotients(r, w)
  {
    ghost var z :| ProjZ(p, u, z);
    r := DoubleSums(p, u.x * z, u.y * z, z);
    DoubleCorrect(u, w, z);
    ghost var x, y := u.x * z, u.y * z;
    ghost var Z := y * y - x * x;
    ghost var T := (z * z + z * z) - Z;
    IsTrans(r.x, (x + y) * (x + y) - (y * y + x * x), w.x * Z);
    IsTrans(r.y, y * y + x * x, w.y * T);
    assert QuotientsAt(r, w, Z, T);
  }

  method DoubleSums(p: Ext, ghost x: int, ghost y: int, ghost z: int) returns (r: P1p1)
    requires p.x.Below(RED) && p.y.Below(RED) && p.z.Below(RED) && Is(p.x, x) && Is(p.y, y) && Is(p.z, z)
    ensures r.x.Below(BIG) && r.y.Below(BIG) && r.z.Below(BIG) && r.t.Below(BIG)
    ensures Is(r.x, (x + y) * (x + y) - (y * y + x * x)) && Is(r.y, y * y + x * x)
    ensures Is(r.z, y * y - x * x) && Is(r.t, (z * z + z * z) - (y * y - x * x))
  {
    var a := SquareTo(p.x, x);
    var b := SquareTo(p.y, y);
    var c := SquareTo(p.z, z);
    c := AddReduceTo(c, c, z * z, z * z);
    var rx := AddTo(p.x, p.y, x, y);
    rx := SquareTo(rx, x + y);
    var ry := AddTo(b, a, y * y, x * x);
    var rz := SubTo(b, a, y * y, x * x);
    rx := SubAfterBasicTo(rx, ry, (x + y) * (x + y), y * y + x * x);
    var rt := SubAfterBasicTo(c, rz, z * z + z * z, y * y - x * x);
    r := P1p1(rx, ry, rz, rt);
  }

  /** `ge25519_double_partial` */
  method DoublePartial(p: Ext, ghost u: Aff, ghost w: Aff) returns (r: Ext)
    requires Partial(p, u) && OnCurve(u) && Adds(u, u, w)
    ensures Partial(r, w)
  {
    var t := DoubleP1p1(p, u, w);
    r := ToPartial(t, w);
  }

  /** `ge25519_double` */
  method Double(p: Ext, ghost u: Aff, ghost w: Aff) returns (r: Ext)
    requires Partial(p, u) && OnCurve(u) && Adds(u, u, w)
    ensures Full(r, w)
  {
    var t := DoubleP1p1(p, u, w);
    r := ToFull(t, w);
  }
}
