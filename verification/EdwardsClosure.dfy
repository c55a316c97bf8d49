/** The Edwards sum of two curve points is a curve point. */
module EdwardsClosure {
  import opened Field
  import opened FieldRing
  import opened Edwards

  /** The numerators squared, in terms of the squared coordinates and m = x1 y1 x2 y2. */
  lemma SquaredNumerators(a: int, b: int, c: int, e: int)
    ensures var m := (a * b) * (c * e); var nx, ny := a * e + c * b, b * e + a * c;
            && nx * nx == (a * a) * (e * e) + (c * c) * (b * b) + 2 * m
            && ny * ny == (b * b) * (e * e) + (a * a) * (c * c) + 2 * m
  {
    SquareOfSum(a * e, c * b);
    SquareOfSum(b * e, a * c);
    Quad(a, e, a, e);
    Quad(c, b, c, b);
    Quad(b, e, b, e);
    Quad(a, c, a, c);
    assert (a * e) * (c * b) == (a * b) * (c * e);
    assert (b * e) * (a * c) == (a * b) * (c * e);
  }

  lemma SquareOfSum(x: int, y: int)
    ensures (x + y) * (x + y) == x * x + y * y + 2 * (x * y)
  {
  }

  /** With X, Y the squared coordinates: the difference and the product of V = Y1 Y2 + X1 X2 and
      U = X1 Y2 + X2 Y1. */
  lemma Products(x1: int, y1: int, x2: int, y2: int)
    ensures var u, v := x1 * y2 + x2 * y1, y1 * y2 + x1 * x2;
            var e1, e2, q1, q2 := y1 - x1, y2 - x2, x1 * y1, x2 * y2;
            v - u == e1 * e2 && u * v == q1 * (e2 * e2 + 2 * q2) + q2 * (e1 * e1 + 2 * q1)
  {
    assert y1 * y2 + x1 * x2 - (x1 * y2 + x2 * y1) == (y1 - x1) * (y2 - x2);
    SquareOfDifference(x1, y1);
    SquareOfDifference(x2, y2);
    FourTerms(x1 * y2, x2 * y1, y1 * y2, x1 * x2);
    CrossTerm(x1, y2, y1, y2);
    CrossTerm(x1, y2, x2, x1);
    CrossTerm(x2, y1, y2, y1);
    CrossTerm(x2, y1, x1, x2);
    TwoTerms(x1 * y1, y2 * y2, x2 * x2);
    TwoTerms(x2 * y2, y1 * y1, x1 * x1);
  }

  lemma FourTerms(a: int, b: int, c: int, d: int)
    ensures (a + b) * (c + d) == a * c + a * d + b * c + b * d
  {
  }

  lemma TwoTerms(a: int, b: int, c: int)
    ensures a * (b + c) == a * b + a * c
  {
  }

  lemma CrossTerm(a: int, b: int, c: int, d: int)
    ensures (a * b) * (c * d) == (a * c) * (b * d) && (a * b) * (c * d) == (b * c) * (a * d)
  {
  }

  lemma SquareOfDifference(x: int, y: int)
    ensures (y - x) * (y - x) + 2 * (x * y) == y * y + x * x
  {
  }

  /** The curve equation of the sum once both curve equations have been used: q1 and q2 are the
      squares of x1 y1 and x2 y2, m their product x1 y1 x2 y2. */
  lemma CurveCore(d: int, q1: int, q2: int, m: int, t: int)
    requires m * m == q1 * q2
    ensures var f1, f2, k := 1 + d * q1, 1 + d * q2, d * m;
            (f1 * f2) * (1 + k * k) + 2 * k * (t + 4 * m)
            == (1 - k * k) * (1 - k * k) + d * (q1 * (f2 * f2 + 2 * q2) + q2 * (f1 * f1 + 2 * q1) + 2 * m * t + 4 * (m * m))
  {
    var s, n, k := q1 + q2, q1 * q2, d * m;
    var kk := d * (d * n);
    assert k * k == kk by { assert (d * m) * (d * m) == d * (d * (m * m)); }
    CoreLeft(d, q1, q2, kk);
    CoreRight(d, q1, q2);
    CoreScaled(d, s, n, kk);
    CoreSum(d, d * s, n, kk, k, m, t, s + 4 * (d * n) + kk * s + 4 * n);
  }

  lemma CoreScaled(d: int, s: int, n: int, kk: int)
    requires kk == d * (d * n)
    ensures d * (s + 4 * (d * n) + kk * s + 4 * n) == d * s + 4 * kk + kk * (d * s) + 4 * (d * n)
  {
    assert d * (kk * s) == kk * (d * s);
  }

  lemma CoreSum(d: int, ds: int, n: int, kk: int, k: int, m: int, t: int, g: int)
    requires k == d * m && m * m == n && d * g == ds + 4 * kk + kk * ds + 4 * (d * n)
    ensures (1 + ds + kk) * (1 + kk) + 2 * k * (t + 4 * m) == (1 - kk) * (1 - kk) + d * (g + 2 * m * t + 4 * n)
  {
    assert (1 + ds + kk) * (1 + kk) == 1 + 2 * kk + kk * kk + ds + kk * ds;
    assert (1 - kk) * (1 - kk) == 1 - 2 * kk + kk * kk;
    LastTerms(d, k, m, t, n);
    assert d * (g + 2 * m * t + 4 * n) == d * g + d * (2 * m * t) + 4 * (d * n);
  }

  lemma LastTerms(d: int, k: int, m: int, t: int, n: int)
    requires k == d * m && m * m == n
    ensures 2 * k * (t + 4 * m) == d * (2 * m * t) + 8 * (d * n)
  {
    assert k * t == d * (m * t);
    assert k * m == d * n by { assert (d * m) * m == d * (m * m); }
    assert 2 * k * (t + 4 * m) == 2 * (k * t) + 8 * (k * m);
    assert 2 * m * t == 2 * (m * t);
  }

  lemma CoreLeft(d: int, q1: int, q2: int, kk: int)
    requires kk == d * (d * (q1 * q2))
    ensures (1 + d * q1) * (1 + d * q2) == 1 + d * (q1 + q2) + kk
  {
    assert (d * q1) * (d * q2) == d * (d * (q1 * q2));
  }

  lemma CoreRight(d: int, q1: int, q2: int)
    ensures var f1, f2, s, n := 1 + d * q1, 1 + d * q2, q1 + q2, q1 * q2;
            q1 * (f2 * f2 + 2 * q2) + q2 * (f1 * f1 + 2 * q1) == s + 4 * (d * n) + (d * (d * n)) * s + 4 * n
  {
    var n := q1 * q2;
    CoreTerm(d, q1, q2);
    CoreTerm(d, q2, q1);
    assert q2 * q1 == n;
    var dd := d * (d * n);
    assert dd * q2 + dd * q1 == dd * (q1 + q2);
  }

  lemma CoreTerm(d: int, q: int, r: int)
    ensures q * ((1 + d * r) * (1 + d * r) + 2 * r) == q + 2 * (d * (q * r)) + (d * (d * (q * r))) * r + 2 * (q * r)
  {
    var x := d * r;
    assert (1 + x) * (1 + x) == 1 + 2 * x + x * x;
    assert q * (1 + 2 * x + x * x + 2 * r) == q + 2 * (q * x) + q * (x * x) + 2 * (q * r);
    assert q * x == d * (q * r);
    assert q * (x * x) == (q * x) * x == (d * (q * r)) * (d * r);
    assert (d * (q * r)) * (d * r) == (d * (d * (q * r))) * r;
  }

  // ----- the curve equation of the sum

  lemma MSquare(a: int, b: int, c: int, e: int)
    ensures var m := (a * b) * (c * e); m * m == ((a * a) * (b * b)) * ((c * c) * (e * e)) && (a * c) * (b * e) == m
  {
    Quad(a, b, a, b);
    Quad(c, e, c, e);
    Quad(a * b, c * e, a * b, c * e);
    Quad(a, c, b, e);
    Quad(a, b, c, e);
  }

  /** The numerators in the form the core identity needs, before the curve equations are used. */
  lemma NumeratorSides(a: int, b: int, c: int, e: int) returns (t: int)
    ensures var nx, ny, m := a * e + c * b, b * e + a * c, (a * b) * (c * e);
            var e1, e2, q1, q2 := b * b - a * a, e * e - c * c, (a * a) * (b * b), (c * c) * (e * e);
            Sides(nx * nx, ny * ny, m, e1, e2, q1, q2, t)
  {
    var m := (a * b) * (c * e);
    var x1, y1, x2, y2 := a * a, b * b, c * c, e * e;
    SquaredNumerators(a, b, c, e);
    Products(x1, y1, x2, y2);
    var uu, vv := x1 * y2 + x2 * y1, y1 * y2 + x1 * x2;
    CrossTerms(uu, vv, m);
    t := uu + vv;
    SidesBy((a * e + c * b) * (a * e + c * b), (b * e + a * c) * (b * e + a * c), uu, vv, m, y1 - x1, y2 - x2, x1 * y1, x2 * y2, t);
  }

  lemma SidesBy(nx: int, ny: int, u: int, v: int, m: int, e1: int, e2: int, q1: int, q2: int, t: int)
    requires nx == u + 2 * m && ny == v + 2 * m && v - u == e1 * e2 && t == u + v
    requires u * v == q1 * (e2 * e2 + 2 * q2) + q2 * (e1 * e1 + 2 * q1)
    requires (u + 2 * m) * (v + 2 * m) == u * v + 2 * m * (u + v) + 4 * (m * m)
    ensures Sides(nx, ny, m, e1, e2, q1, q2, t)
  {
  }

  lemma CrossTerms(u: int, v: int, m: int)
    ensures (u + 2 * m) * (v + 2 * m) == u * v + 2 * m * (u + v) + 4 * (m * m)
  {
  }

  /** Difference, sum and product of the squared numerators. */
  predicate Sides(nx: int, ny: int, m: int, e1: int, e2: int, q1: int, q2: int, t: int) {
    && ny - nx == e1 * e2 && ny + nx == t + 4 * m
    && nx * ny == q1 * (e2 * e2 + 2 * q2) + q2 * (e1 * e1 + 2 * q1) + 2 * m * t + 4 * (m * m)
  }

  /** On the curve e1 = 1 + d q1 and e2 = 1 + d q2: the cleared curve equation of the sum. */
  lemma ClearedEquation(d: int, nx: int, ny: int, m: int, e1: int, e2: int, q1: int, q2: int, t: int)
    requires Sides(nx, ny, m, e1, e2, q1, q2, t) && m * m == q1 * q2
    requires Eqm(e1, 1 + d * q1) && Eqm(e2, 1 + d * q2)
    ensures var k := d * m; Eqm((ny - nx) * (1 + k * k) + 2 * k * (ny + nx), (1 - k * k) * (1 - k * k) + d * (nx * ny))
  {
    var f1, f2, k := 1 + d * q1, 1 + d * q2, d * m;
    var rest := 2 * m * t + 4 * (m * m);
    var left, right := 2 * k * (t + 4 * m), (1 - k * k) * (1 - k * k);
    EqmMul(e1, f1, e2, f2);
    EqmRefl(1 + k * k);
    EqmMul(e1 * e2, f1 * f2, 1 + k * k, 1 + k * k);
    EqmRefl(left);
    EqmAdd((e1 * e2) * (1 + k * k), (f1 * f2) * (1 + k * k), left, left);
    CurveCore(d, q1, q2, m, t);
    ProductEqm(d, e1, e2, f1, f2, q1, q2, rest, right);
    var h := q1 * (f2 * f2 + 2 * q2) + q2 * (f1 * f1 + 2 * q1) + rest;
    EqmTrans((ny - nx) * (1 + k * k) + left, right + d * h, right + d * (nx * ny));
  }

  lemma ProductEqm(d: int, e1: int, e2: int, f1: int, f2: int, q1: int, q2: int, rest: int, right: int)
    requires Eqm(e1, f1) && Eqm(e2, f2)
    ensures Eqm(right + d * (q1 * (f2 * f2 + 2 * q2) + q2 * (f1 * f1 + 2 * q1) + rest),
                right + d * (q1 * (e2 * e2 + 2 * q2) + q2 * (e1 * e1 + 2 * q1) + rest))
  {
    EqmSym(e1, f1);
    EqmSym(e2, f2);
    SquareEqm(f1, e1, q2, 2 * q1);
    SquareEqm(f2, e2, q1, 2 * q2);
    var a, b := q1 * (f2 * f2 + 2 * q2), q1 * (e2 * e2 + 2 * q2);
    var c, w := q2 * (f1 * f1 + 2 * q1), q2 * (e1 * e1 + 2 * q1);
    EqmAdd(a, b, c, w);
    EqmRefl(rest);
    EqmAdd(a + c, b + w, rest, rest);
    EqmScale(d, a + c + rest, b + w + rest);
    EqmRefl(right);
    EqmAdd(right, right, d * (a + c + rest), d * (b + w + rest));
  }

  lemma SquareEqm(f: int, e: int, q: int, r: int)
    requires Eqm(f, e)
    ensures Eqm(q * (f * f + r), q * (e * e + r))
  {
    EqmMul(f, e, f, e);
    EqmRefl(r);
    EqmAdd(f * f, e * e, r, r);
    EqmScale(q, f * f + r, e * e + r);
  }

  /** Clearing the denominators 1 + k and 1 - k of both sides. */
  lemma Clear(d: int, x: int, y: int, k: int, nx: int, ny: int)
    requires Eqm(x * (1 + k), nx) && Eqm(y * (1 - k), ny)
    ensures var g := (1 + k) * (1 - k);
            && Eqm((g * g) * (y * y - x * x), (ny * ny - nx * nx) * (1 + k * k) + 2 * k * (ny * ny + nx * nx))
            && Eqm((g * g) * (1 + d * (x * x * (y * y))), (1 - k * k) * (1 - k * k) + d * ((nx * nx) * (ny * ny)))
  {
    var p, q := x * (1 + k), y * (1 - k);
    EqmMul(p, nx, p, nx);
    EqmMul(q, ny, q, ny);
    ClearExact(d, x, y, k);
    ClearLeft(p * p, q * q, nx * nx, ny * ny, k);
    EqmMul(p * p, nx * nx, q * q, ny * ny);
    EqmScale(d, (p * p) * (q * q), (nx * nx) * (ny * ny));
    EqmRefl((1 - k * k) * (1 - k * k));
    EqmAdd((1 - k * k) * (1 - k * k), (1 - k * k) * (1 - k * k), d * ((p * p) * (q * q)), d * ((nx * nx) * (ny * ny)));
  }

  lemma ClearLeft(a: int, b: int, n: int, m: int, k: int)
    requires Eqm(a, n) && Eqm(b, m)
    ensures Eqm((b - a) * (1 + k * k) + 2 * k * (b + a), (m - n) * (1 + k * k) + 2 * k * (m + n))
  {
    EqmAdd(b, m, a, n);
    EqmRefl(1 + k * k);
    EqmMul(b - a, m - n, 1 + k * k, 1 + k * k);
    EqmScale(2 * k, b + a, m + n);
    EqmAdd((b - a) * (1 + k * k), (m - n) * (1 + k * k), 2 * k * (b + a), 2 * k * (m + n));
  }

  lemma ClearExact(d: int, x: int, y: int, k: int)
    ensures var g, p, q := (1 + k) * (1 - k), x * (1 + k), y * (1 - k);
            && (g * g) * (y * y - x * x) == (q * q - p * p) * (1 + k * k) + 2 * k * (q * q + p * p)
            && (g * g) * (1 + d * (x * x * (y * y))) == (1 - k * k) * (1 - k * k) + d * ((p * p) * (q * q))
  {
    var a, b := 1 + k, 1 - k;
    Quad(x, a, x, a);
    Quad(y, b, y, b);
    Quad(a, b, a, b);
    Squares(k);
    ClearDifference(a * a, b * b, x * x, y * y);
    Widen((b * b) * (y * y), (a * a) * (x * x), k);
    ClearProduct(d, a * a, b * b, x * x, y * y);
  }

  lemma Squares(k: int)
    ensures (1 + k) * (1 - k) == 1 - k * k
    ensures (1 + k) * (1 + k) == 1 + k * k + 2 * k && (1 - k) * (1 - k) == 1 + k * k - 2 * k
  {
  }

  lemma ClearDifference(a: int, b: int, x: int, y: int)
    ensures (b * a) * (y - x) == (b * y) * a - (a * x) * b
  {
  }

  lemma ClearProduct(d: int, a: int, b: int, x: int, y: int)
    ensures (b * a) * (1 + d * (x * y)) == b * a + d * ((a * x) * (b * y))
  {
    Quad(a, x, b, y);
    assert (b * a) * (d * (x * y)) == d * ((b * a) * (x * y));
    assert (x * y) * (a * b) == (b * a) * (x * y);
  }

  lemma Widen(q: int, p: int, k: int)
    ensures q * (1 + k * k + 2 * k) - p * (1 + k * k - 2 * k) == (q - p) * (1 + k * k) + 2 * k * (q + p)
  {
  }

  /** The curve is closed under the law. */
  lemma AddsOnCurve(u: Aff, v: Aff, w: Aff)
    requires Adds(u, v, w) && OnCurve(u) && OnCurve(v)
    ensures OnCurve(w)
  {
    var k, m := K(u, v), (u.x * u.y) * (v.x * v.y);
    var nx, ny := u.x * v.y + v.x * u.y, u.y * v.y + u.x * v.x;
    KValue(u, v);
    KValue(u, u);
    KValue(v, v);
    MSquare(u.x, u.y, v.x, v.y);
    var t := NumeratorSides(u.x, u.y, v.x, v.y);
    ClearedEquation(D(), nx * nx, ny * ny, m, u.y * u.y - u.x * u.x, v.y * v.y - v.x * v.x,
                    (u.x * u.x) * (u.y * u.y), (v.x * v.x) * (v.y * v.y), t);
    Clear(D(), w.x, w.y, k, nx, ny);
    CancelSides(w, k, (ny * ny - nx * nx) * (1 + k * k) + 2 * k * (ny * ny + nx * nx),
                (1 - k * k) * (1 - k * k) + D() * ((nx * nx) * (ny * ny)));
  }

  lemma CancelSides(w: Aff, k: int, left: int, right: int)
    requires Unit(1 + k) && Unit(1 - k) && Eqm(left, right)
    requires var g := (1 + k) * (1 - k);
             Eqm((g * g) * (w.y * w.y - w.x * w.x), left) && Eqm((g * g) * (1 + D() * (w.x * w.x * (w.y * w.y))), right)
    ensures OnCurve(w)
  {
    var g := (1 + k) * (1 - k);
    UnitMul(1 + k, 1 - k);
    UnitMul(g, g);
    var a, b := w.y * w.y - w.x * w.x, 1 + D() * (w.x * w.x * (w.y * w.y));
    EqmTrans((g * g) * a, left, right);
    EqmSym((g * g) * b, right);
    EqmTrans((g * g) * a, right, (g * g) * b);
    KValue(w, w);
    UnitCancel(g * g, a, b);
  }
}
