/** Points of y^2 = x^3 + a x + b modulo p with the chord-and-tangent formulas of
    bin/python/ecdsa/ellipticcurve.py (lines 40-107 and 150-168). */
module Weierstrass {
  import opened NumberTheory
  import opened Congruence

  /** `CurveFp` */
  datatype Curve = Curve(p: int, a: int, b: int)

  /** `Point`; the coordinates are plain integers, reduced or not. */
  datatype Point = Infinity | At(x: int, y: int)

  function Cubic(c: Curve, x: int): int {
    x * x * x + c.a * x + c.b
  }

  ghost predicate OnCurve(c: Curve, u: Point) {
    u.At? ==> Cong(c.p, u.y * u.y, Cubic(c, u.x))
  }

  /** `contains_point` */
  method ContainsPoint(c: Curve, x: int, y: int) returns (r: bool)
    requires c.p > 0
    ensures r <==> OnCurve(c, At(x, y))
  {
    r := (y * y - (x * x * x + c.a * x + c.b)) % c.p == 0;
    CongZero(c.p, y * y - Cubic(c, x));
    CongDifference(c.p, y * y, Cubic(c, x));
  }

  /** `Point(curve, x, y)`, whose assertion is that the point lies on the curve. */
  method NewPoint(c: Curve, x: int, y: int) returns (r: Result<Point>)
    requires c.p > 0
    ensures r == if OnCurve(c, At(x, y)) then Ok(At(x, y)) else Raised(AssertionError)
  {
    var on := ContainsPoint(c, x, y);
    r := if on then Ok(At(x, y)) else Raised(AssertionError);
  }

  // ----- the third point of a line

  /** The line through (x1, y1) with slope l meets the curve again over x1 and x2: what the slopes of
      chords and tangents satisfy. */
  ghost predicate Slope(c: Curve, x1: int, y1: int, x2: int, l: int) {
    Cong(c.p, 2 * (y1 * l) + l * l * (x2 - x1), x1 * x1 + x1 * x2 + x2 * x2 + c.a)
  }

  /** f(x) - f(z) = (x - z)(x^2 + x z + z^2 + a) */
  lemma CubicDifference(c: Curve, x: int, z: int)
    ensures Cubic(c, x) - Cubic(c, z) == (x - z) * (x * x + x * z + z * z + c.a)
  {
    assert (x - z) * (x * x) == x * x * x - z * (x * x);
    assert (x - z) * (x * z) == z * (x * x) - x * (z * z);
    assert (x - z) * (z * z) == x * (z * z) - z * z * z;
    assert (x - z) * c.a == c.a * x - c.a * z;
    Distribute4(x - z, x * x, x * z, z * z, c.a);
  }

  lemma Distribute4(s: int, u: int, v: int, w: int, t: int)
    ensures s * (u + v + w + t) == s * u + s * v + s * w + s * t
  {
  }

  /** (l s - y)^2 = y^2 + s (l^2 s - 2 y l) */
  lemma LineSquare(l: int, s: int, y: int)
    ensures (l * s - y) * (l * s - y) == y * y + s * (l * l * s - 2 * (y * l))
  {
    var m := l * s;
    assert (m - y) * (m - y) == m * m - 2 * (m * y) + y * y;
    assert m * m == s * (l * l * s);
    assert m * y == s * (y * l);
    assert s * (l * l * s - 2 * (y * l)) == s * (l * l * s) - 2 * (s * (y * l));
  }

  /** With L = x1 + x2 + x3 the remaining factor is the slope equation. */
  lemma RemainingFactor(x1: int, x2: int, x3: int, big: int, m: int, a: int)
    requires big == x1 + x2 + x3
    ensures big * (x1 - x3) - 2 * m + (x1 * x1 + x1 * x3 + x3 * x3 + a)
         == x1 * x1 + x1 * x2 + x2 * x2 + a - (2 * m + big * (x2 - x1))
  {
    assert big * (x1 - x3) + big * (x2 - x1) == big * (x2 - x3);
    assert (x1 + x2 + x3) * (x2 - x3) == x1 * x2 - x1 * x3 + x2 * x2 - x3 * x3 by {
      assert x1 * (x2 - x3) == x1 * x2 - x1 * x3;
      assert (x2 + x3) * (x2 - x3) == x2 * x2 - x3 * x3;
      assert (x1 + x2 + x3) * (x2 - x3) == x1 * (x2 - x3) + (x2 + x3) * (x2 - x3);
    }
  }

  /** The reflected third point of the line lies on the curve. */
  lemma ThirdPoint(c: Curve, x1: int, y1: int, x2: int, l: int, x3: int, y3: int)
    requires OnCurve(c, At(x1, y1)) && Slope(c, x1, y1, x2, l)
    requires x3 == l * l - x1 - x2 && y3 == l * (x1 - x3) - y1
    ensures OnCurve(c, At(x3, y3))
  {
    var s := x1 - x3;
    var w := x1 * x1 + x1 * x2 + x2 * x2 + c.a - (2 * (y1 * l) + l * l * (x2 - x1));
    LineSquare(l, s, y1);
    CubicDifference(c, x1, x3);
    RemainingFactor(x1, x2, x3, l * l, y1 * l, c.a);
    assert y3 * y3 - Cubic(c, x3) == y1 * y1 - Cubic(c, x1) + s * w by {
      var q := x1 * x1 + x1 * x3 + x3 * x3 + c.a;
      assert s * (l * l * s - 2 * (y1 * l)) + s * q == s * (l * l * s - 2 * (y1 * l) + q);
    }
    CongDifference(c.p, y1 * y1, Cubic(c, x1));
    CongSym(c.p, 2 * (y1 * l) + l * l * (x2 - x1), x1 * x1 + x1 * x2 + x2 * x2 + c.a);
    CongDifference(c.p, x1 * x1 + x1 * x2 + x2 * x2 + c.a, 2 * (y1 * l) + l * l * (x2 - x1));
    CongScale(c.p, s, w, 0);
    CongAdd(c.p, y1 * y1 - Cubic(c, x1), 0, s * w, 0);
    CongDifference(c.p, y3 * y3, Cubic(c, x3));
  }

  /** Curve membership depends on the residues only. */
  lemma OnCurveCong(c: Curve, x: int, y: int, x': int, y': int)
    requires Cong(c.p, x, x') && Cong(c.p, y, y') && OnCurve(c, At(x', y'))
    ensures OnCurve(c, At(x, y))
  {
    CongMul(c.p, y, y', y, y');
    CubicCong(c, x', x);
    CongTrans(c.p, y * y, y' * y', Cubic(c, x'));
    CongTrans(c.p, y * y, Cubic(c, x'), Cubic(c, x));
  }

  lemma CubicCong(c: Curve, x: int, z: int)
    requires Cong(c.p, z, x)
    ensures Cong(c.p, Cubic(c, x), Cubic(c, z))
  {
    CongSym(c.p, z, x);
    CongMul(c.p, x, z, x, z);
    CongMul(c.p, x * x, z * z, x, z);
    CongScale(c.p, c.a, x, z);
    CongAdd(c.p, x * x * x, z * z * z, c.a * x, c.a * z);
    CongRefl(c.p, c.b);
    CongAdd(c.p, x * x * x + c.a * x, z * z * z + c.a * z, c.b, c.b);
  }

  // ----- chords and tangents

  /** w is the reduced result of the formulas with slope l from (x1, y1) and x2. */
  ghost predicate Reflected(c: Curve, x1: int, y1: int, x2: int, l: int, w: Point) {
    c.p > 0 && w.At? && w.x == (l * l - x1 - x2) % c.p && w.y == (l * (x1 - w.x) - y1) % c.p
  }

  ghost predicate ChordBy(c: Curve, u: Point, v: Point, w: Point, l: int) {
    u.At? && v.At? && Cong(c.p, l * (v.x - u.x), v.y - u.y) && Reflected(c, u.x, u.y, v.x, l, w)
  }

  ghost predicate TangentBy(c: Curve, u: Point, w: Point, l: int) {
    u.At? && Cong(c.p, l * (2 * u.y), 3 * (u.x * u.x) + c.a) && Reflected(c, u.x, u.y, u.x, l, w)
  }

  /** A slope from its inverse denominator. */
  lemma Quotient(p: int, num: int, den: int, inv: int, l: int)
    requires p > 0 && Inverts(inv, den, p) && l == num * inv % p
    ensures Cong(p, l * den, num)
  {
    InvertsCong(inv, den, p);
    CongMod(p, num * inv);
    CongRefl(p, den);
    CongMul(p, l, num * inv, den, den);
    CongScale(p, num, inv * den, 1);
    assert num * inv * den == num * (inv * den);
    CongTrans(p, l * den, num * (inv * den), num);
  }

  lemma InvertsCong(w: int, a: int, n: int)
    requires Inverts(w, a, n)
    ensures Cong(n, w * a, 1)
  {
    var k :| Witness(w, a, n, k);
    assert w * a == a * w;
    CongBy(n, w * a, 1, k);
  }

  lemma Rotate(x: int, y: int, z: int)
    ensures x * (y * z) == z * (x * y)
  {
  }

  /** An invertible factor cancels. */
  lemma CongCancel(n: int, den: int, inv: int, a: int, b: int)
    requires Inverts(inv, den, n) && Cong(n, den * a, den * b)
    ensures Cong(n, a, b)
  {
    InvertsCong(inv, den, n);
    CongScale(n, inv, den * a, den * b);
    CongScale(n, a, inv * den, 1);
    CongScale(n, b, inv * den, 1);
    Rotate(inv, den, a);
    Rotate(inv, den, b);
    CongSym(n, a * (inv * den), a);
    CongTrans(n, a, a * (inv * den), b * (inv * den));
    CongTrans(n, a, b * (inv * den), b);
  }

  /** The slope of a chord, by subtracting the two curve equations. */
  lemma ChordSlope(c: Curve, u: Point, v: Point, l: int, inv: int)
    requires u.At? && v.At? && OnCurve(c, u) && OnCurve(c, v) && Cong(c.p, l * (v.x - u.x), v.y - u.y)
    requires Inverts(inv, v.x - u.x, c.p)
    ensures Slope(c, u.x, u.y, v.x, l)
  {
    var d := v.x - u.x;
    var y := u.y + l * d;
    CongRefl(c.p, u.y);
    CongAdd(c.p, u.y, u.y, l * d, v.y - u.y);
    CongMul(c.p, y, v.y, y, v.y);
    CongTrans(c.p, y * y, v.y * v.y, Cubic(c, v.x));
    CongAdd(c.p, y * y, Cubic(c, v.x), u.y * u.y, Cubic(c, u.x));
    CongSubtract(c.p, y * y, Cubic(c, v.x), u.y * u.y, Cubic(c, u.x));
    LineRise(u.y, l, d);
    CubicDifference(c, v.x, u.x);
    assert v.x * v.x + v.x * u.x + u.x * u.x + c.a == u.x * u.x + u.x * v.x + v.x * v.x + c.a;
    CongCancel(c.p, d, inv, 2 * (u.y * l) + l * l * d, u.x * u.x + u.x * v.x + v.x * v.x + c.a);
  }

  lemma LineRise(y: int, l: int, d: int)
    ensures (y + l * d) * (y + l * d) - y * y == d * (2 * (y * l) + l * l * d)
  {
    var m := l * d;
    assert (y + m) * (y + m) == y * y + 2 * (y * m) + m * m;
    assert y * m == d * (y * l) && m * m == d * (l * l * d);
    assert d * (2 * (y * l) + l * l * d) == 2 * (d * (y * l)) + d * (l * l * d);
  }

  lemma TangentSlope(c: Curve, u: Point, l: int)
    requires u.At? && Cong(c.p, l * (2 * u.y), 3 * (u.x * u.x) + c.a)
    ensures Slope(c, u.x, u.y, u.x, l)
  {
    assert l * (2 * u.y) == 2 * (u.y * l);
    assert l * l * (u.x - u.x) == 0;
  }

  /** The reduced coordinates stay on the curve. */
  lemma ReflectedOnCurve(c: Curve, x1: int, y1: int, x2: int, l: int, w: Point)
    requires c.p > 0 && OnCurve(c, At(x1, y1)) && Slope(c, x1, y1, x2, l) && Reflected(c, x1, y1, x2, l, w)
    ensures OnCurve(c, w)
  {
    var x3 := l * l - x1 - x2;
    var y3 := l * (x1 - x3) - y1;
    ThirdPoint(c, x1, y1, x2, l, x3, y3);
    CongMod(c.p, x3);
    CongMod(c.p, l * (x1 - w.x) - y1);
    ReflectCong(c.p, l, x1, y1, w.x, x3);
    CongTrans(c.p, w.y, l * (x1 - w.x) - y1, y3);
    OnCurveCong(c, w.x, w.y, x3, y3);
  }

  lemma ReflectCong(p: int, l: int, x1: int, y1: int, x: int, z: int)
    requires Cong(p, x, z)
    ensures Cong(p, l * (x1 - x) - y1, l * (x1 - z) - y1)
  {
    CongRefl(p, x1);
    CongSubtract(p, x1, x1, x, z);
    CongScale(p, l, x1 - x, x1 - z);
    CongRefl(p, y1);
    CongSubtract(p, l * (x1 - x), l * (x1 - z), y1, y1);
  }

  /** `Point.double`: the tangent's reflected third point, on the curve again, so that the assertion
      of the new point never fails; a vertical tangent fails in `inverse_mod`. */
  method Double(c: Curve, u: Point) returns (r: Result<Point>)
    requires c.p >= 2 && OnCurve(c, u)
    ensures u == Infinity ==> r == Ok(Infinity)
    ensures u.At? ==> (r.Ok? <==> Coprime(2 * u.y, c.p)) && (r.Raised? ==> r.error == AssertionError)
    ensures u.At? && r.Ok? ==> OnCurve(c, r.value) && exists l :: TangentBy(c, u, r.value, l)
  {
    if u == Infinity { return Ok(Infinity); }
    var inv := InverseMod(2 * u.y, c.p);
    if inv.Raised? { return Raised(inv.error); }
    var l := (3 * (u.x * u.x) + c.a) * inv.value % c.p;
    Quotient(c.p, 3 * (u.x * u.x) + c.a, 2 * u.y, inv.value, l);
    TangentSlope(c, u, l);
    var x3 := (l * l - u.x - u.x) % c.p;
    var y3 := (l * (u.x - x3) - u.y) % c.p;
    ReflectedOnCurve(c, u.x, u.y, u.x, l, At(x3, y3));
    assert TangentBy(c, u, At(x3, y3), l);
    r := NewPoint(c, x3, y3);
  }

  /** `Point.__add__` */
  method Add(c: Curve, u: Point, v: Point) returns (r: Result<Point>)
    requires c.p >= 2 && OnCurve(c, u) && OnCurve(c, v)
    ensures v == Infinity ==> r == Ok(u)
    ensures u == Infinity ==> r == Ok(v)
    ensures u.At? && v.At? && u.x == v.x && Cong(c.p, u.y + v.y, 0) ==> r == Ok(Infinity)
    ensures u.At? && v.At? && u.x == v.x && !Cong(c.p, u.y + v.y, 0) ==>
              && (r.Ok? <==> Coprime(2 * u.y, c.p)) && (r.Raised? ==> r.error == AssertionError)
              && (r.Ok? ==> OnCurve(c, r.value) && exists l :: TangentBy(c, u, r.value, l))
    ensures u.At? && v.At? && u.x != v.x ==>
              && (r.Ok? <==> Coprime(v.x - u.x, c.p)) && (r.Raised? ==> r.error == AssertionError)
              && (r.Ok? ==> OnCurve(c, r.value) && exists l :: ChordBy(c, u, v, r.value, l))
  {
    if v == Infinity { return Ok(u); }
    if u == Infinity { return Ok(v); }
    if u.x == v.x {
      CongZero(c.p, u.y + v.y);
      if (u.y + v.y) % c.p == 0 { return Ok(Infinity); }
      r := Double(c, u);
      return;
    }
    r := Chord(c, u, v);
  }

  /** Lines 98-106. */
  method Chord(c: Curve, u: Point, v: Point) returns (r: Result<Point>)
    requires c.p >= 2 && u.At? && v.At? && OnCurve(c, u) && OnCurve(c, v)
    ensures (r.Ok? <==> Coprime(v.x - u.x, c.p)) && (r.Raised? ==> r.error == AssertionError)
    ensures r.Ok? ==> OnCurve(c, r.value) && exists l :: ChordBy(c, u, v, r.value, l)
  {
    var inv := InverseMod(v.x - u.x, c.p);
    if inv.Raised? { return Raised(inv.error); }
    var l := (v.y - u.y) * inv.value % c.p;
    Quotient(c.p, v.y - u.y, v.x - u.x, inv.value, l);
    ChordSlope(c, u, v, l, inv.value);
    var x3 := (l * l - u.x - v.x) % c.p;
    var y3 := (l * (u.x - x3) - u.y) % c.p;
    ReflectedOnCurve(c, u.x, u.y, v.x, l, At(x3, y3));
    assert ChordBy(c, u, v, At(x3, y3), l);
    r := NewPoint(c, x3, y3);
  }
}
