/** The simple implementation bin/python/ed25519.py (lines 10-47): powers, inverses, the recovery of x,
    the addition law and scalar multiplication, as the functions that the C code is compared with. */
module Reference {
  import opened Words
  import opened Pow2s
  import opened Primes
  import opened Field
  import opened FieldRing
  import opened FieldPow
  import opened FieldPrime
  import opened Edwards
  import opened EdwardsClosure
  import opened EdwardsComplete
  import opened Groups
  import opened Ladder
  import Encoding

  // ----- powers

  /** `expmod` */
  function ExpMod(b: int, e: nat, m: int): (r: int)
    requires m > 0
  {
    if e == 0 then 1
    else
      var h := ExpMod(b, e / 2, m);
      var t := h * h % m;
      if e % 2 == 1 then t * b % m else t
  }

  /** It is the power in the field. */
  lemma {:induction false} ExpModIsPower(b: int, e: nat)
    ensures PowEq(ExpMod(b, e, P), b, e) && (e > 0 ==> 0 <= ExpMod(b, e, P) < P)
  {
    if e == 0 {
      EqmRefl(1);
      PowIntro(1, b, 0);
    } else {
      ExpModIsPower(b, e / 2);
      var h := ExpMod(b, e / 2, P);
      var t := h * h % P;
      Residue(h * h);
      PowProduct(t, h, h, b, e / 2, e / 2);
      if e % 2 == 1 {
        Residue(t * b);
        PowOne(b);
        PowProduct(t * b % P, t, b, b, e / 2 + e / 2, 1);
      }
    }
  }

  lemma Residue(x: int)
    ensures Eqm(x % P, x) && 0 <= x % P < P
  {
    EqmBy(x % P, x, -(x / P));
  }

  /** `inv` */
  function Inv(x: int): (r: int) {
    ExpMod(x, P - 2, P)
  }

  lemma InvInverts(x: int)
    requires Prime(P) && Unit(x)
    ensures Eqm(Inv(x) * x, 1)
  {
    ExpModIsPower(x, P - 2);
    PowOne(x);
    EqmRefl(Inv(x) * x);
    PowProduct(Inv(x) * x, Inv(x), x, x, P - 2, 1);
    FermatField(x);
    PowUnique(Inv(x) * x, 1, x, P - 1);
  }

  /** n divided by e. */
  lemma Division(n: int, e: int)
    requires Prime(P) && Unit(e)
    ensures Eqm(n * Inv(e) * e, n)
  {
    InvInverts(e);
    EqmScale(n, Inv(e) * e, 1);
    assert n * Inv(e) * e == n * (Inv(e) * e);
  }

  // ----- the constants

  /** `d` */
  function PyD(): (d: int) {
    -121665 * Inv(121666)
  }

  lemma PyDIs()
    requires Prime(P)
    ensures Eqm(PyD(), D())
  {
    Constants();
    EqmBy(121666 * 37095705934669439343138083508754565189542113879843219016388785533085940283556, 1, 77955);
    UnitBy(121666, 37095705934669439343138083508754565189542113879843219016388785533085940283556);
    InvInverts(121666);
    EqmScale(-121665, Inv(121666) * 121666, 1);
    EqmSym(121666 * D(), -121665);
    assert 121666 * PyD() == -121665 * (Inv(121666) * 121666);
    EqmTrans(121666 * PyD(), -121665, 121666 * D());
    UnitCancel(121666, PyD(), D());
  }

  // ----- the root of -1

  /** `I` */
  function PyI(): (i: int) {
    ExpMod(2, (P - 1) / 4, P)
  }

  lemma {:induction false} PowOfProduct(a: int, b: int, n: nat)
    ensures Pow(a * b, n) == Pow(a, n) * Pow(b, n)
  {
    if n > 0 {
      PowOfProduct(a, b, n - 1);
      Quad(a, b, Pow(a, n - 1), Pow(b, n - 1));
    }
  }

  lemma {:induction false} PowMinusOne(n: nat)
    ensures Pow(-1, 2 * n + 1) == -1
  {
    assert Pow(-1, 2 * n + 1) == -1 * Pow(-1, 2 * n);
    if n > 0 {
      PowMinusOne(n - 1);
      assert Pow(-1, 2 * n) == -1 * Pow(-1, 2 * n - 1);
    }
  }

  /** i^(p-1)/2 = (i^2)^(p-1)/4 = -1, the exponent (p-1)/4 being odd. */
  lemma RootPower(i: int, k: nat)
    requires Eqm(i * i, -1) && 4 * (2 * k + 1) == P - 1
    ensures Eqm(Pow(i, 2 * (2 * k + 1)), -1)
  {
    var n := 2 * k + 1;
    PowOne(i);
    EqmRefl(i * i);
    PowProduct(i * i, i, i, i, 1, 1);
    EqmRefl(Pow(i * i, n));
    PowIntro(Pow(i * i, n), i * i, n);
    PowPower(Pow(i * i, n), i * i, i, 2, n);
    PowElim(Pow(i * i, n), i, 2 * n);
    EqmPow(i * i, -1, n);
    PowMinusOne(k);
    EqmSym(Pow(i * i, n), Pow(i, 2 * n));
    EqmTrans(Pow(i, 2 * n), Pow(i * i, n), -1);
  }

  /** 2 i = (1 + i)^2, so that 2^((p-1)/2) i^((p-1)/2) = 1. */
  lemma TwoPower(i: int, n: nat)
    requires Prime(P) && Eqm(i * i, -1) && 2 * n == P - 1
    ensures Eqm(Pow(2, n) * Pow(i, n), 1)
  {
    var a := 1 + i;
    assert a * a == (i * i + 1) + 2 * i;
    EqmRefl(1);
    EqmAdd(i * i, -1, 1, 1);
    EqmRefl(2 * i);
    EqmAdd(i * i + 1, 0, 2 * i, 2 * i);
    SumUnit(i, a);
    PowOne(a);
    EqmRefl(a * a);
    PowProduct(a * a, a, a, a, 1, 1);
    EqmRefl(Pow(a * a, n));
    PowIntro(Pow(a * a, n), a * a, n);
    PowPower(Pow(a * a, n), a * a, a, 2, n);
    FermatField(a);
    PowUnique(Pow(a * a, n), 1, a, P - 1);
    EqmPow(a * a, 2 * i, n);
    PowOfProduct(2, i, n);
    EqmSym(Pow(a * a, n), Pow(2 * i, n));
    EqmTrans(Pow(2 * i, n), Pow(a * a, n), 1);
  }

  lemma SumUnit(i: int, a: int)
    requires Eqm(i * i, -1) && Eqm(a * a, 2 * i)
    ensures Unit(a)
  {
    UnitTwo();
    EqmScale(-1, i * i, -1);
    assert i * (-i) == -1 * (i * i);
    UnitBy(i, -i);
    UnitMul(2, i);
    UnitEqm(2 * i, a * a);
    var w := UnitInverse(a * a);
    assert a * a * w == a * (a * w);
    UnitBy(a, a * w);
  }

  /** 2^((p-1)/4) squares to -1, */
  lemma QuarterRoot(w: int, i: int, n: nat, k: nat)
    requires Prime(P) && PowEq(w, 2, n) && Eqm(i * i, -1) && 4 * n == P - 1 && n == 2 * k + 1
    ensures Eqm(w * w, -1)
  {
    EqmRefl(w * w);
    PowProduct(w * w, w, w, 2, n, n);
    PowElim(w * w, 2, n + n);
    TwoPower(i, n + n);
    RootPower(i, k);
    RootOfTwo(w * w, Pow(2, n + n), Pow(i, n + n));
  }

  lemma SomeRoot() returns (i: int)
    ensures Eqm(i * i, -1)
  {
    Encoding.MinusOneRoot();
    i := Encoding.I;
  }

  lemma QuarterPowerRoot(n: nat, k: nat)
    requires Prime(P) && 4 * n == P - 1 && n == 2 * k + 1
    ensures Eqm(ExpMod(2, n, P) * ExpMod(2, n, P), -1)
  {
    ExpModIsPower(2, n);
    var i := SomeRoot();
    QuarterRoot(ExpMod(2, n, P), i, n, k);
  }

  /** and that is `I`. */
  lemma PyIRoot()
    requires Prime(P)
    ensures Eqm(PyI() * PyI(), -1)
  {
    QuarterPowerRoot((P - 1) / 4, (P - 5) / 8);
  }

  lemma RootOfTwo(s: int, t: int, j: int)
    requires Eqm(s, t) && Eqm(t * j, 1) && Eqm(j, -1)
    ensures Eqm(s, -1)
  {
    EqmScale(t, j, -1);
    EqmSym(t * j, 1);
    EqmTrans(1, t * j, -t);
    EqmScale(-1, 1, -t);
    EqmSym(-1, t);
    EqmTrans(s, t, -1);
  }

  // ----- the recovery of x

  /** `xrecover` */
  function XRecover(y: int): (x: int) {
    var xx := (y * y - 1) * Inv(PyD() * y * y + 1);
    var x := ExpMod(xx, (P + 3) / 8, P);
    var x1 := if (x * x - xx) % P != 0 then x * PyI() % P else x;
    if x1 % 2 != 0 then P - x1 else x1
  }

  /** The result is even and reduced, on the curve or not. */
  lemma XRecoverEven(y: int)
    ensures XRecover(y) % 2 == 0 && 0 <= XRecover(y) < P
  {
    var xx := (y * y - 1) * Inv(PyD() * y * y + 1);
    var x := ExpMod(xx, (P + 3) / 8, P);
    ExpModIsPower(xx, (P + 3) / 8);
    var x1 := if (x * x - xx) % P != 0 then x * PyI() % P else x;
    Residue(x * PyI());
    EvenOf(x1, XRecover(y));
  }

  lemma EvenOf(x: int, r: int)
    requires 0 <= x < P && r == if x % 2 != 0 then P - x else x
    ensures r % 2 == 0 && 0 <= r < P
  {
  }

  /** The fraction is the square that the curve equation asks for. */
  lemma FractionIs(y: int, x0: int, xx: int)
    requires Prime(P) && OnCurve(Aff(x0, y)) && xx == (y * y - 1) * Inv(PyD() * y * y + 1)
    ensures Eqm(xx, x0 * x0) && Unit(y * y * D() + 1)
  {
    var e, n, f := y * y * D() + 1, y * y - 1, PyD() * y * y + 1;
    Encoding.CurveForm(x0, y);
    Encoding.DenominatorUnit(x0, y);
    PyDIs();
    EqmScale(y * y, PyD(), D());
    EqmRefl(1);
    EqmAdd(y * y * PyD(), y * y * D(), 1, 1);
    assert PyD() * y * y == y * y * PyD();
    UnitEqm(e, f);
    Division(n, f);
    EqmSym(f, e);
    EqmScale(xx, e, f);
    EqmTrans(xx * e, xx * f, n);
    EqmSym(x0 * x0 * e, n);
    EqmTrans(xx * e, n, x0 * x0 * e);
    assert xx * e == e * xx && x0 * x0 * e == e * (x0 * x0);
    UnitCancel(e, xx, x0 * x0);
  }

  /** The candidate squares to plus or minus the fraction. */
  lemma CandidateRoot(xx: int, x0: int, x: int)
    requires Prime(P) && Eqm(xx, x0 * x0) && PowEq(x, xx, (P + 3) / 8)
    ensures Eqm(x * x, xx) || Eqm(x * x, -xx)
  {
    var e := Pow2(252) - 3;
    ExponentIs();
    Pow2Add(252, 3);
    assert Pow2(3) == 8 && (P + 3) / 8 == e + 1;
    var g := Pow(xx, e);
    EqmRefl(g);
    PowIntro(g, xx, e);
    PowOne(xx);
    EqmRefl(g * xx);
    PowProduct(g * xx, g, xx, xx, e, 1);
    PowUnique(x, g * xx, xx, e + 1);
    EqmMul(x, g * xx, x, g * xx);
    var s := g * g * xx;
    assert (g * xx) * (g * xx) == s * xx by { Quad(g, xx, g, xx); assert (g * g) * (xx * xx) == s * xx; }
    SignedSquare(xx, x0, g, x * x, s);
  }

  lemma SignedSquare(xx: int, x0: int, g: int, square: int, s: int)
    requires Prime(P) && Eqm(xx, x0 * x0) && PowEq(g, xx, Pow2(252) - 3) && s == g * g * xx && Eqm(square, s * xx)
    ensures Eqm(square, xx) || Eqm(square, -xx)
  {
    ZeroOrUnit(x0);
    EqmRefl(xx);
    if Unit(x0) {
      Encoding.QuarterPower(xx, x0, g);
      if Eqm(s, 1) { EqmMul(s, 1, xx, xx); } else { EqmMul(s, -1, xx, xx); }
      if Eqm(s, 1) { EqmTrans(square, s * xx, xx); } else { EqmTrans(square, s * xx, -xx); }
    } else {
      EqmScale(x0, x0, 0);
      EqmTrans(xx, x0 * x0, 0);
      EqmScale(s, xx, 0);
      EqmTrans(square, s * xx, 0);
      EqmSym(xx, 0);
      EqmTrans(square, 0, xx);
    }
  }

  lemma TestSquare(x: int, xx: int)
    ensures (x * x - xx) % P == 0 <==> Eqm(x * x, xx)
  {
    if (x * x - xx) % P == 0 { EqmBy(x * x, xx, (x * x - xx) / P); }
    if Eqm(x * x, xx) {
      var k := EqmGap(x * x, xx);
      QuoRem(x * x - xx, P, k, 0);
    }
  }

  lemma TimesRoot(x: int, i: int, xx: int, x1: int)
    requires Eqm(x * x, -xx) && Eqm(i * i, -1) && Eqm(x1, x * i)
    ensures Eqm(x1 * x1, xx)
  {
    EqmMul(x1, x * i, x1, x * i);
    Quad(x, i, x, i);
    EqmMul(x * x, -xx, i * i, -1);
    EqmTrans(x1 * x1, (x * x) * (i * i), xx);
  }

  /** Wherever the curve has points over y, `xrecover` finds the one with even x. */
  lemma XRecovers(y: int, x0: int)
    requires Prime(P) && OnCurve(Aff(x0, y))
    ensures OnCurve(Aff(XRecover(y), y)) && XRecover(y) % 2 == 0 && 0 <= XRecover(y) < P
  {
    var xx := (y * y - 1) * Inv(PyD() * y * y + 1);
    var x := ExpMod(xx, (P + 3) / 8, P);
    var x1 := if (x * x - xx) % P != 0 then x * PyI() % P else x;
    FractionIs(y, x0, xx);
    ExpModIsPower(xx, (P + 3) / 8);
    CandidateRoot(xx, x0, x);
    TestSquare(x, xx);
    Residue(x * PyI());
    if (x * x - xx) % P != 0 {
      PyIRoot();
      TimesRoot(x, PyI(), xx, x1);
    }
    EvenRoot(y, x0, xx, x1, XRecover(y));
  }

  lemma EvenRoot(y: int, x0: int, xx: int, x1: int, r: int)
    requires Prime(P) && OnCurve(Aff(x0, y)) && Eqm(xx, x0 * x0) && Eqm(x1 * x1, xx) && 0 <= x1 < P
    requires r == if x1 % 2 != 0 then P - x1 else x1
    ensures OnCurve(Aff(r, y)) && r % 2 == 0 && 0 <= r < P
  {
    EqmBy(P - x1, -x1, 1);
    EqmMul(P - x1, -x1, P - x1, -x1);
    assert (-x1) * (-x1) == x1 * x1;
    EqmRefl(x1 * x1);
    EqmTrans(r * r, x1 * x1, xx);
    EqmTrans(r * r, xx, x0 * x0);
    Encoding.CurveForm(x0, y);
    var e := y * y * D() + 1;
    EqmScale(e, r * r, x0 * x0);
    assert e * (r * r) == r * r * e && e * (x0 * x0) == x0 * x0 * e;
    EqmTrans(r * r * e, x0 * x0 * e, y * y - 1);
    Encoding.CurveForm(r, y);
  }

  // ----- addition and multiplication

  /** `edwards` */
  function PyAdd(u: Aff, v: Aff): (w: Aff) {
    Aff((u.x * v.y + v.x * u.y) * Inv(1 + PyD() * u.x * v.x * u.y * v.y) % P,
        (u.y * v.y + u.x * v.x) * Inv(1 - PyD() * u.x * v.x * u.y * v.y) % P)
  }

  /** One coordinate: n inv(f) reduced, divided by an equal f'. */
  lemma Coordinate(n: int, f: int, h: int, r: int)
    requires Prime(P) && Unit(h) && Eqm(f, h) && r == n * Inv(f) % P
    ensures Eqm(r * h, n)
  {
    UnitEqm(h, f);
    Division(n, f);
    Residue(n * Inv(f));
    EqmSym(f, h);
    EqmMul(r, n * Inv(f), h, f);
    EqmTrans(r * h, n * Inv(f) * f, n);
  }

  /** It computes the sum that the law describes, for all pairs of curve points. */
  lemma PyAdds(u: Aff, v: Aff)
    requires Prime(P) && NonSquare(D()) && OnCurve(u) && OnCurve(v)
    ensures Adds(u, v, PyAdd(u, v)) && OnCurve(PyAdd(u, v))
  {
    Complete(u, v);
    PyDIs();
    PyK(u, v, PyD(), PyD() * u.x * v.x * u.y * v.y);
    PyCoordinates(u, v, PyD() * u.x * v.x * u.y * v.y, PyAdd(u, v));
    AddsOnCurve(u, v, PyAdd(u, v));
  }

  /** The product in the denominators. */
  lemma PyK(u: Aff, v: Aff, d: int, k: int)
    requires Eqm(d, D()) && k == d * u.x * v.x * u.y * v.y
    ensures Eqm(1 + k, 1 + K(u, v)) && Eqm(1 - k, 1 - K(u, v))
  {
    KValue(u, v);
    var c := u.x * v.x * (u.y * v.y);
    EqmScale(c, d, D());
    FiveFactors(d, u.x, v.x, u.y, v.y);
    EqmRefl(1);
    EqmAdd(1, 1, k, K(u, v));
  }

  lemma FiveFactors(d: int, a: int, b: int, c: int, e: int)
    ensures d * a * b * c * e == a * b * (c * e) * d
  {
    var x := a * b;
    assert d * a * b == d * x;
    assert d * x * c * e == d * x * (c * e);
    assert d * x * (c * e) == x * (c * e) * d;
  }

  lemma PyCoordinates(u: Aff, v: Aff, k: int, w: Aff)
    requires Prime(P) && Unit(1 + K(u, v)) && Unit(1 - K(u, v)) && Eqm(1 + k, 1 + K(u, v)) && Eqm(1 - k, 1 - K(u, v))
    requires w == Aff((u.x * v.y + v.x * u.y) * Inv(1 + k) % P, (u.y * v.y + u.x * v.x) * Inv(1 - k) % P)
    ensures Adds(u, v, w)
  {
    Coordinate(u.x * v.y + v.x * u.y, 1 + k, 1 + K(u, v), w.x);
    Coordinate(u.y * v.y + u.x * v.x, 1 - k, 1 - K(u, v), w.y);
  }

  /** `scalarmult` */
  function PyMul(p: Aff, e: nat): (r: Aff) {
    if e == 0 then Aff(0, 1)
    else
      var q := PyMul(p, e / 2);
      if e % 2 == 1 then PyAdd(PyAdd(q, q), p) else PyAdd(q, q)
  }

  /** u and v stand for the elements s and t, so their sum stands for s + t. */
  lemma PyAddElements<T(!new)>(g: Group<T>, at: T -> Aff, u: Aff, v: Aff, s: T, t: T)
    requires Prime(P) && NonSquare(D()) && Points(g, at) && g.mem(s) && g.mem(t)
    requires Same(u, at(s)) && OnCurve(u) && Same(v, at(t)) && OnCurve(v)
    ensures g.mem(g.add(s, t)) && Same(PyAdd(u, v), at(g.add(s, t))) && OnCurve(PyAdd(u, v))
  {
    Law(g, s, t, t);
    PointsLaw(g, at, s, t);
    PyAdds(u, v);
    AddsEqm(u, v, at(t), PyAdd(u, v));
    AddsCommutes(u, at(t), PyAdd(u, v));
    AddsEqm(at(t), u, at(s), PyAdd(u, v));
    AddsCommutes(at(t), at(s), PyAdd(u, v));
    AddsUnique(at(s), at(t), PyAdd(u, v), at(g.add(s, t)));
  }

  /** The reference multiplication is the multiple that the ladders are proved against. */
  lemma {:induction false} PyMulIsMul<T(!new)>(g: Group<T>, at: T -> Aff, u: Aff, p: T, e: nat)
    requires Prime(P) && NonSquare(D()) && Points(g, at) && g.mem(p) && Same(u, at(p)) && OnCurve(u)
    ensures g.mem(Mul(g, e, p)) && Same(PyMul(u, e), at(Mul(g, e, p))) && OnCurve(PyMul(u, e))
  {
    if e == 0 {
      Law(g, p, p, p);
      PointsLaw(g, at, g.zero, p);
      SameSym(at(g.zero), Aff(0, 1));
      NeutralOnCurve();
    } else {
      var h: nat := e / 2;
      PyMulIsMul(g, at, u, p, h);
      var q := Mul(g, h, p);
      PyAddElements(g, at, PyMul(u, h), PyMul(u, h), q, q);
      DoubleAdd(g, h, e % 2, p);
      assert e == 2 * h + e % 2;
      if e % 2 == 1 { PyAddElements(g, at, PyAdd(PyMul(u, h), PyMul(u, h)), u, g.add(q, q), p); }
    }
  }

  lemma NeutralOnCurve()
    ensures OnCurve(Aff(0, 1))
  {
    KValue(Aff(0, 1), Aff(0, 1));
    EqmRefl(1);
  }
}
