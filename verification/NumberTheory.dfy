/** The extended Euclidean algorithm of bin/python/ecdsa/numbertheory.py (lines 185-203). */
module NumberTheory {
  import opened Words

  /** The exceptions of the Python sources. */
  datatype Error = AssertionError | ZeroDivisionError | RuntimeError | IndexError | UnexpectedDER | ValueError | TypeError

  datatype Result<T> = Ok(value: T) | Raised(error: Error)

  predicate Times(x: int, d: int, k: int) {
    x == d * k
  }

  ghost predicate Divides(d: int, x: int) {
    exists k :: Times(x, d, k)
  }

  /** No common divisor above 1. */
  ghost predicate Coprime(a: int, m: int) {
    forall d {:trigger Divides(d, a)} :: d > 1 && Divides(d, a) ==> !Divides(d, m)
  }

  /** w is an inverse of a: a w - 1 is a multiple of m. */
  ghost predicate Inverts(w: int, a: int, m: int) {
    exists k :: Witness(w, a, m, k)
  }

  predicate Witness(w: int, a: int, m: int, k: int) {
    a * w - 1 == m * k
  }

  /** An inverse excludes common divisors. */
  lemma InverseCoprime(w: int, a: int, m: int)
    requires Inverts(w, a, m)
    ensures Coprime(a, m)
  {
    var k :| Witness(w, a, m, k);
    forall d {:trigger Divides(d, a)} | d > 1 && Divides(d, a) ensures !Divides(d, m) {
      if Divides(d, m) {
        var i :| Times(a, d, i);
        var j :| Times(m, d, j);
        CommonDivisor(a, m, w, k, d, i, j);
        UnitDivisor(d, i * w - j * k);
        assert false;
      }
    }
  }

  lemma CommonDivisor(a: int, m: int, w: int, k: int, d: int, i: int, j: int)
    requires a * w - 1 == m * k && a == d * i && m == d * j
    ensures d * (i * w - j * k) == 1
  {
    assert (d * i) * w == d * (i * w) && (d * j) * k == d * (j * k);
    assert d * (i * w - j * k) == d * (i * w) - d * (j * k);
  }

  lemma UnitDivisor(d: int, x: int)
    requires d >= 1 && d * x == 1
    ensures d == 1
  {
    if x >= 1 { MulMono(d, 1, x); } else { MulMono(d, x, 0); }
  }

  /** There is one inverse between 0 and m. */
  lemma InverseUnique(w: int, v: int, a: int, m: int)
    requires 0 < w < m && 0 < v < m && Inverts(w, a, m) && Inverts(v, a, m)
    ensures w == v
  {
    var i :| Witness(w, a, m, i);
    var j :| Witness(v, a, m, j);
    CrossInverse(a, w, v, m, i, j);
    SmallMultiple(m, i * v - j * w);
  }

  lemma CrossInverse(a: int, w: int, v: int, m: int, i: int, j: int)
    requires a * w == 1 + m * i && a * v == 1 + m * j
    ensures w - v == m * (i * v - j * w)
  {
    assert (a * w) * v == (a * v) * w;
    assert (1 + m * i) * v == v + m * (i * v) && (1 + m * j) * w == w + m * (j * w);
    assert m * (i * v - j * w) == m * (i * v) - m * (j * w);
  }

  function Abs(x: int): nat {
    if x < 0 then -x else x
  }

  /** The loop's state: both rows express their remainder in a and m, the transformation has
      determinant s, the signs of uc and ud alternate, and ud does not outgrow uc. */
  ghost predicate Row(a: int, m: int, c: int, d: int, uc: int, vc: int, ud: int, vd: int, s: int) {
    && 0 <= c < d && (s == 1 || s == -1)
    && uc * a + vc * m == c && ud * a + vd * m == d
    && s * (vd * c - vc * d) == a && s * (uc * d - ud * c) == m
    && s * uc >= 0 && s * ud <= 0 && Abs(ud) <= Abs(uc)
  }

  lemma RowStep(a: int, m: int, c: int, d: int, uc: int, vc: int, ud: int, vd: int, s: int, q: int)
    requires Row(a, m, c, d, uc, vc, ud, vd, s) && c != 0 && q == d / c
    ensures Row(a, m, d % c, c, ud - q * uc, vd - q * vc, uc, vc, -s)
  {
    var r := d % c;
    assert d == c * q + r;
    assert q >= 1 by { if q <= 0 { MulMono(c, q, 0); } }
    RowLinear(a, m, c, d, uc, vc, ud, vd, q, r);
    RowCross(uc, ud, c, d, q, r);
    RowCross(vc, vd, c, d, q, r);
    RowSigns(uc, ud, s, q);
  }

  lemma RowLinear(a: int, m: int, c: int, d: int, uc: int, vc: int, ud: int, vd: int, q: int, r: int)
    requires uc * a + vc * m == c && ud * a + vd * m == d && d == c * q + r
    ensures (ud - q * uc) * a + (vd - q * vc) * m == r
  {
    assert (ud - q * uc) * a == ud * a - q * (uc * a);
    assert (vd - q * vc) * m == vd * m - q * (vc * m);
    assert q * (uc * a + vc * m) == q * (uc * a) + q * (vc * m);
  }

  /** x' d' - y' c' changes sign. */
  lemma RowCross(x: int, y: int, c: int, d: int, q: int, r: int)
    requires d == c * q + r
    ensures x * r - (y - q * x) * c == x * d - y * c
  {
    assert x * d == x * (c * q) + x * r;
    assert (q * x) * c == x * (c * q);
    assert (y - q * x) * c == y * c - (q * x) * c;
  }

  lemma RowSigns(uc: int, ud: int, s: int, q: int)
    requires (s == 1 || s == -1) && s * uc >= 0 && s * ud <= 0 && q >= 1
    ensures (-s) * (ud - q * uc) >= 0 && (-s) * uc <= 0 && Abs(uc) <= Abs(ud - q * uc)
  {
    var u := s * uc;
    MulMono(u, 1, q);
    assert s * (q * uc) == u * q;
  }

  /** At the end both a and m are multiples of d, and ud lies strictly between -m and m. */
  lemma RowEnd(a: int, m: int, d: int, uc: int, vc: int, ud: int, vd: int, s: int)
    requires Row(a, m, 0, d, uc, vc, ud, vd, s) && m >= 2
    ensures Divides(d, a) && Divides(d, m) && (d == 1 ==> Inverts(ud, a, m) && -m < ud < m && ud != 0)
  {
    EndProducts(a, m, d, uc, vc, s);
    assert Times(a, d, -(s * vc)) && Times(m, d, s * uc);
    if d == 1 {
      assert m * -vd == -(vd * m) && a * ud == ud * a;
      assert Witness(ud, a, m, -vd);
      EndBound(a, m, ud, vd);
    }
  }

  lemma EndProducts(a: int, m: int, d: int, uc: int, vc: int, s: int)
    requires (s == 1 || s == -1) && s * (0 - vc * d) == a && s * (uc * d) == m
    ensures a == d * -(s * vc) && m == d * (s * uc) && (d == 1 ==> Abs(m) == Abs(uc))
  {
    if s == 1 {
      assert d * -vc == -(vc * d) && d * uc == uc * d;
    } else {
      assert d * -uc == -(uc * d) && d * vc == vc * d;
    }
  }

  /** ud = 0 or ud = m or ud = -m would make 1 a multiple of m. */
  lemma EndBound(a: int, m: int, ud: int, vd: int)
    requires ud * a + vd * m == 1 && m >= 2 && -m <= ud <= m
    ensures -m < ud < m && ud != 0
  {
    if ud == 0 { UnitDivisor(m, vd); }
    if ud == m { UnitDivisor(m, a + vd); }
    if ud == -m { UnitDivisor(m, vd - a); }
  }

  /** Python's `%`, whose result has the sign of the divisor, */
  function FloorMod(x: int, d: int): (r: int)
    requires d != 0
    ensures if d > 0 then r == x % d else d < r <= 0
  {
    if d > 0 then x % d else -(-x % -d)
  }

  /** and the quotient that goes with it. */
  function FloorDiv(x: int, d: int): (q: int)
    requires d != 0
    ensures x == d * q + FloorMod(x, d)
  {
    if d > 0 then x / d else -x / -d
  }

  /** `inverse_mod`: the inverse between 0 and m when there is one, an assertion failure otherwise. A
      modulus of 0 fails in the first reduction; a negative one leaves a negative divisor. */
  method InverseMod(a0: int, m: int) returns (r: Result<int>)
    ensures m == 0 ==> r == Raised(ZeroDivisionError)
    ensures m >= 2 ==> (r.Ok? <==> Coprime(a0, m))
    ensures m >= 2 && r.Ok? ==> 0 < r.value < m && Inverts(r.value, a0, m)
    ensures m >= 2 && !r.Ok? ==> r.error == AssertionError
    ensures m == 1 ==> r == Ok(1)
    ensures m < 0 ==> r == Raised(AssertionError)
  {
    var a := a0;
    if a < 0 || m <= a {
      if m == 0 { return Raised(ZeroDivisionError); }
      a := FloorMod(a, m);
    }
    var c, d, uc, vc, ud, vd := a, m, 1, 0, 0, 1;
    ghost var s := 1;
    while c != 0
      invariant if m > 0 then Row(a, m, c, d, uc, vc, ud, vd, s) else d < c <= 0
      invariant m == 1 ==> c == 0 && d == 1 && ud == 0
      decreases Abs(c)
    {
      var q := FloorDiv(d, c);
      if m > 0 { RowStep(a, m, c, d, uc, vc, ud, vd, s, q); }
      c, d, uc, vc, ud, vd := FloorMod(d, c), c, ud - q * uc, vd - q * vc, uc, vc;
      s := -s;
    }
    if d != 1 {
      if m > 0 {
        RowEnd(a, m, d, uc, vc, ud, vd, s);
        CommonReduced(a0, a, m, d);
      }
      return Raised(AssertionError);
    }
    if m == 1 { return Ok(1); }
    RowEnd(a, m, d, uc, vc, ud, vd, s);
    var w := if ud > 0 then ud else ud + m;
    InverseShift(a0, a, m, ud, w);
    InverseCoprime(w, a0, m);
    r := Ok(w);
  }

  /** A common divisor of a mod m and m divides a. */
  lemma CommonReduced(a0: int, a: int, m: int, d: int)
    requires m >= 2 && (a == a0 || a == a0 % m) && d > 1 && Divides(d, a) && Divides(d, m)
    ensures !Coprime(a0, m)
  {
    var i :| Times(a, d, i);
    var j :| Times(m, d, j);
    var q := if a == a0 then 0 else a0 / m;
    assert a0 == m * q + a;
    assert Divides(d, a0) && Divides(d, m) by {
      assert Times(a0, d, j * q + i) by { assert d * (j * q + i) == (d * j) * q + d * i; }
    }
  }

  lemma InverseShift(a0: int, a: int, m: int, ud: int, w: int)
    requires m >= 2 && (a == a0 || a == a0 % m) && Inverts(ud, a, m) && (w == ud || w == ud + m)
    ensures Inverts(w, a0, m)
  {
    var k :| Witness(ud, a, m, k);
    var q := if a == a0 then 0 else a0 / m;
    var e := if w == ud then 0 else 1;
    assert a0 == m * q + a && w == ud + m * e;
    ShiftAlgebra(a0, a, m, ud, w, k, q, e);
    assert Witness(w, a0, m, k + a0 * e + q * ud);
  }

  lemma ShiftAlgebra(a0: int, a: int, m: int, ud: int, w: int, k: int, q: int, e: int)
    requires a * ud - 1 == m * k && a0 == m * q + a && w == ud + m * e
    ensures a0 * w - 1 == m * (k + a0 * e + q * ud)
  {
    assert a0 * (ud + m * e) == a0 * ud + m * (a0 * e);
    assert (m * q + a) * ud == m * (q * ud) + a * ud;
    assert m * (k + a0 * e + q * ud) == m * k + m * (a0 * e) + m * (q * ud);
  }
}
