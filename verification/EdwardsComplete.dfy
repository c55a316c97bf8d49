/** The denominators of the Edwards law never vanish on the curve, because d is not a square; this is
    why one formula serves all pairs of points. */
module EdwardsComplete {
  import opened Words
  import opened Primes
  import opened Field
  import opened FieldRing
  import opened FieldPrime
  import opened Edwards
  import opened EdwardsClosure
  import opened Encoding

  ghost predicate IsRoot(x: int, d: int) {
    Eqm(x * x, d)
  }

  /** d has no square root modulo p. */
  ghost predicate NonSquare(d: int) {
    forall x :: !IsRoot(x, d)
  }

  /** d t^2 = s^2 with t a unit would make d a square. */
  lemma NoRatio(d: int, t: int, s: int)
    requires Prime(P) && NonSquare(d) && Eqm(d * (t * t), s * s)
    ensures Eqm(t, 0)
  {
    ZeroOrUnit(t);
    if Unit(t) {
      var w := UnitInverse(t);
      var x := s * w;
      EqmMul(t * w, 1, t * w, 1);
      EqmScale(d, (t * w) * (t * w), 1);
      EqmRefl(w * w);
      EqmMul(d * (t * t), s * s, w * w, w * w);
      Quad(t, w, t, w);
      Quad(s, w, s, w);
      assert d * (t * t) * (w * w) == d * ((t * w) * (t * w)) by { assert (w * w) * (t * t) == (t * t) * (w * w); }
      assert (s * s) * (w * w) == x * x;
      EqmSym(d * ((t * w) * (t * w)), x * x);
      EqmTrans(x * x, d * ((t * w) * (t * w)), d);
      assert IsRoot(x, d);
      assert false;
    }
  }

  /** (i c + s e)^2 = e^2 - c^2 + 2 s i c e */
  lemma SquareOfMix(i: int, c: int, e: int, s: int)
    requires Eqm(i * i, -1) && (s == 1 || s == -1)
    ensures Eqm((i * c + s * e) * (i * c + s * e), e * e - c * c + 2 * s * (i * (c * e)))
  {
    var ic := i * c;
    SquareOfSum(ic, s * e);
    Quad(i, c, i, c);
    EqmRefl(c * c);
    EqmMul(i * i, -1, c * c, c * c);
    assert (s * e) * (s * e) == e * e;
    assert 2 * (ic * (s * e)) == 2 * s * (i * (c * e));
    var rest := e * e + 2 * s * (i * (c * e));
    EqmRefl(rest);
    assert (i * i) * (c * c) == (c * c) * (i * i);
    EqmAdd((i * i) * (c * c), -(c * c), rest, rest);
  }

  /** d (h g)^2 with h = x1 y1, j = x2 y2 and g^2 = 1 + d j^2 + 2 s i j. */
  lemma MixExact(d: int, h: int, j: int, s: int, i: int)
    ensures var k := d * (h * j);
            (d * (h * h)) * (1 + d * (j * j) + 2 * s * (i * j)) == d * (h * h) + k * k + 2 * s * (i * h) * k
  {
    var dh := d * (h * h);
    Quad(d, h * h, d, j * j);
    Quad(h, h, j, j);
    Quad(d, h * j, d, h * j);
    assert dh * (i * j) == (i * h) * (d * (h * j));
    assert dh * (2 * s * (i * j)) == 2 * s * (dh * (i * j));
    Distribute3(dh, d * (j * j), 2 * s * (i * j));
  }

  lemma Distribute3(a: int, b: int, c: int)
    ensures a * (1 + b + c) == a + a * b + a * c
  {
  }

  /** With k = eps = 1 or -1: d (h g)^2 is the square of i x1 + s eps y1. */
  lemma MixRatio(i: int, a: int, b: int, c: int, e: int, eps: int, s: int)
    requires Eqm(i * i, -1) && (eps == 1 || eps == -1) && (s == 1 || s == -1) && Eqm(D() * ((a * b) * (c * e)), eps)
    requires Eqm(b * b - a * a, 1 + D() * ((a * b) * (a * b))) && Eqm(e * e - c * c, 1 + D() * ((c * e) * (c * e)))
    ensures var g := i * c + s * e; var t, r := (a * b) * g, i * a + s * eps * b; Eqm(D() * (t * t), r * r)
  {
    var h, j, g := a * b, c * e, i * c + s * e;
    var k, dh, z := D() * (h * j), D() * (h * h), 1 + D() * (j * j);
    var r := i * a + s * eps * b;
    SquareOfMix(i, c, e, s);
    EqmRefl(2 * s * (i * j));
    EqmAdd(e * e - c * c, z, 2 * s * (i * j), 2 * s * (i * j));
    EqmTrans(g * g, e * e - c * c + 2 * s * (i * j), z + 2 * s * (i * j));
    EqmScale(dh, g * g, z + 2 * s * (i * j));
    MixExact(D(), h, j, s, i);
    PowersOfEps(dh, k, eps, 2 * s * (i * h));
    EqmTrans(dh * (g * g), dh + k * k + 2 * s * (i * h) * k, dh + 1 + 2 * s * (i * h) * eps);
    SquareOfMix(i, a, b, s * eps);
    EqmRefl(2 * (s * eps) * (i * h));
    EqmAdd(b * b - a * a, 1 + dh, 2 * (s * eps) * (i * h), 2 * (s * eps) * (i * h));
    EqmTrans(r * r, b * b - a * a + 2 * (s * eps) * (i * h), 1 + dh + 2 * (s * eps) * (i * h));
    EqmSym(r * r, 1 + dh + 2 * (s * eps) * (i * h));
    assert 2 * (s * eps) * (i * h) == 2 * s * (i * h) * eps;
    EqmTrans(dh * (g * g), 1 + dh + 2 * (s * eps) * (i * h), r * r);
    Quad(h, g, h, g);
    assert (g * g) * (h * h) == (h * h) * (g * g) && D() * ((h * h) * (g * g)) == dh * (g * g);
  }

  lemma PowersOfEps(dh: int, k: int, eps: int, f: int)
    requires Eqm(k, eps) && (eps == 1 || eps == -1)
    ensures Eqm(dh + k * k + f * k, dh + 1 + f * eps)
  {
    EqmMul(k, eps, k, eps);
    EqmScale(f, k, eps);
    EqmRefl(dh);
    EqmAdd(dh, dh, k * k, 1);
    EqmAdd(dh + k * k, dh + 1, f * k, f * eps);
  }

  /** k is never 1 or -1 on the curve. */
  lemma NotUnitK(i: int, a: int, b: int, c: int, e: int, eps: int)
    requires Prime(P) && NonSquare(D()) && (eps == 1 || eps == -1) && Eqm(i * i, -1)
    requires Eqm(b * b - a * a, 1 + D() * ((a * b) * (a * b))) && Eqm(e * e - c * c, 1 + D() * ((c * e) * (c * e)))
    ensures !Eqm(D() * ((a * b) * (c * e)), eps)
  {
    if Eqm(D() * ((a * b) * (c * e)), eps) {
      var h := a * b;
      MixRatio(i, a, b, c, e, eps, 1);
      MixRatio(i, a, b, c, e, eps, -1);
      NoRatio(D(), h * (i * c + e), i * a + eps * b);
      NoRatio(D(), h * (i * c - e), i * a - eps * b);
      HNotZero(h, c * e, eps);
      ZeroProduct(h, i * c + e);
      ZeroProduct(h, i * c - e);
      BothZeroCoordinates(i, c, e);
    }
  }

  lemma HNotZero(h: int, j: int, eps: int)
    requires Eqm(D() * (h * j), eps) && (eps == 1 || eps == -1)
    ensures !Eqm(h, 0)
  {
    if Eqm(h, 0) {
      EqmScale(D() * j, h, 0);
      assert D() * j * h == D() * (h * j);
      EqmSym(D() * (h * j), eps);
      EqmTrans(eps, D() * (h * j), 0);
      OneNotZero(eps);
      assert false;
    }
  }

  lemma OneNotZero(eps: int)
    requires eps == 1 || eps == -1
    ensures !Eqm(eps, 0)
  {
    if Eqm(eps, 0) {
      var k := EqmGap(eps, 0);
      SmallMultiple(P, k);
      assert false;
    }
  }

  /** i c + e = 0 and i c - e = 0 leave only the origin, which is not on the curve. */
  lemma BothZeroCoordinates(i: int, c: int, e: int)
    requires Eqm(i * i, -1) && Eqm(e * e - c * c, 1 + D() * ((c * e) * (c * e)))
    ensures !(Eqm(i * c + e, 0) && Eqm(i * c - e, 0))
  {
    if Eqm(i * c + e, 0) && Eqm(i * c - e, 0) {
      UnitTwo();
      EqmAdd(i * c + e, 0, i * c - e, 0);
      assert 2 * e == (i * c + e) - (i * c - e) && 2 * (i * c) == (i * c + e) + (i * c - e);
      UnitCancel(2, e, 0);
      UnitCancel(2, i * c, 0);
      EqmRefl(0);
      EqmAdd(0, 0, i * i, -1);
      assert i * (-i) == -(i * i);
      UnitBy(i, -i);
      UnitCancel(i, c, 0);
      OriginOffCurve(c, e);
      assert false;
    }
  }

  lemma OriginOffCurve(c: int, e: int)
    requires Eqm(c, 0) && Eqm(e, 0)
    ensures !Eqm(e * e - c * c, 1 + D() * ((c * e) * (c * e)))
  {
    EqmMul(e, 0, e, 0);
    EqmMul(c, 0, c, 0);
    EqmAdd(e * e, 0, c * c, 0);
    EqmScale(D() * (c * e * e), c, 0);
    assert D() * (c * e * e) * c == D() * ((c * e) * (c * e));
    EqmRefl(1);
    EqmAdd(1, 1, D() * ((c * e) * (c * e)), 0);
    if Eqm(e * e - c * c, 1 + D() * ((c * e) * (c * e))) {
      EqmTrans(e * e - c * c, 1 + D() * ((c * e) * (c * e)), 1);
      EqmSym(e * e - c * c, 1);
      EqmTrans(1, e * e - c * c, 0);
      OneNotZero(1);
      assert false;
    }
  }

  /** The law is complete on the curve: every pair of curve points has a sum. */
  lemma Complete(u: Aff, v: Aff)
    requires Prime(P) && NonSquare(D()) && OnCurve(u) && OnCurve(v)
    ensures Unit(1 + K(u, v)) && Unit(1 - K(u, v))
  {
    var a, b, c, e, k := u.x, u.y, v.x, v.y, K(u, v);
    KValue(u, v);
    KValue(u, u);
    KValue(v, v);
    Quad(a, b, a, b);
    Quad(c, e, c, e);
    Quad(a, c, b, e);
    assert (a * a) * (b * b) == (b * b) * (a * a) && (c * c) * (e * e) == (e * e) * (c * c);
    assert (c * e) * (a * b) == (a * b) * (c * e);
    MinusOneRoot();
    NotUnitK(I, a, b, c, e, 1);
    NotUnitK(I, a, b, c, e, -1);
    ZeroOrUnit(1 + k);
    ZeroOrUnit(1 - k);
    ZeroDifference(k, -1);
    ZeroDifference(1, k);
    if Eqm(1 - k, 0) { EqmSym(1, k); }
  }

  /** The sum exists, and it is a curve point. */
  lemma SumExists(u: Aff, v: Aff) returns (w: Aff)
    requires Prime(P) && NonSquare(D()) && OnCurve(u) && OnCurve(v)
    ensures Adds(u, v, w) && OnCurve(w)
  {
    Complete(u, v);
    var k := K(u, v);
    var x := Fraction(u.x * v.y + v.x * u.y, 1 + k);
    var y := Fraction(u.y * v.y + u.x * v.x, 1 - k);
    w := Aff(x, y);
    AddsOnCurve(u, v, w);
  }

  lemma Fraction(n: int, f: int) returns (x: int)
    requires Unit(f)
    ensures Eqm(x * f, n)
  {
    var i := UnitInverse(f);
    x := n * i;
    EqmScale(n, f * i, 1);
    assert n * (f * i) == n * i * f;
  }
}
