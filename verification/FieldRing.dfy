/** Ring reasoning up to multiples of p. */
module FieldRing {
  import opened Field

  lemma EqmRefl(a: int)
    ensures Eqm(a, a)
  {
    EqmBy(a, a, 0);
  }

  lemma EqmSym(a: int, b: int)
    requires Eqm(a, b)
    ensures Eqm(b, a)
  {
    var k := EqmGap(a, b);
    EqmBy(b, a, -k);
  }

  lemma EqmAdd(a: int, x: int, b: int, y: int)
    requires Eqm(a, x) && Eqm(b, y)
    ensures Eqm(a + b, x + y) && Eqm(a - b, x - y)
  {
    var i := EqmGap(a, x);
    var j := EqmGap(b, y);
    EqmBy(a + b, x + y, i + j);
    EqmBy(a - b, x - y, i - j);
  }

  lemma EqmMul(a: int, x: int, b: int, y: int)
    requires Eqm(a, x) && Eqm(b, y)
    ensures Eqm(a * b, x * y)
  {
    var i := EqmGap(a, x);
    var j := EqmGap(b, y);
    assert a * b - x * y == P * (i * b + x * j) by {
      assert a * b == x * b + P * i * b && x * b == x * y + x * (P * j);
    }
    EqmBy(a * b, x * y, i * b + x * j);
  }

  lemma SumTo(o: int, a: int, b: int, x: int, y: int)
    requires Eqm(o, a + b) && Eqm(a, x) && Eqm(b, y)
    ensures Eqm(o, x + y)
  {
    EqmAdd(a, x, b, y);
    EqmTrans(o, a + b, x + y);
  }

  lemma DifferenceTo(o: int, a: int, b: int, x: int, y: int)
    requires Eqm(o, a - b) && Eqm(a, x) && Eqm(b, y)
    ensures Eqm(o, x - y)
  {
    EqmAdd(a, x, b, y);
    EqmTrans(o, a - b, x - y);
  }

  lemma ProductTo(o: int, a: int, b: int, x: int, y: int)
    requires Eqm(o, a * b) && Eqm(a, x) && Eqm(b, y)
    ensures Eqm(o, x * y)
  {
    EqmMul(a, x, b, y);
    EqmTrans(o, a * b, x * y);
  }

  lemma NegationTo(o: int, a: int, x: int)
    requires Eqm(o, -a) && Eqm(a, x)
    ensures Eqm(o, -x)
  {
    EqmRefl(0);
    DifferenceTo(o, 0, a, 0, x);
  }

  /** A common factor on the left. */
  lemma EqmScale(c: int, a: int, x: int)
    requires Eqm(a, x)
    ensures Eqm(c * a, c * x)
  {
    EqmRefl(c);
    EqmMul(c, c, a, x);
  }

  ghost predicate Inverse(a: int, w: int) {
    Eqm(a * w, 1)
  }

  /** a has an inverse modulo p. */
  ghost predicate Unit(a: int) {
    exists w :: Inverse(a, w)
  }

  lemma UnitBy(a: int, w: int)
    requires Eqm(a * w, 1)
    ensures Unit(a)
  {
    assert Inverse(a, w);
  }

  lemma UnitInverse(a: int) returns (w: int)
    requires Unit(a)
    ensures Eqm(a * w, 1)
  {
    w :| Inverse(a, w);
  }

  lemma UnitMul(a: int, b: int)
    requires Unit(a) && Unit(b)
    ensures Unit(a * b)
  {
    var v := UnitInverse(a);
    var w := UnitInverse(b);
    EqmMul(a * v, 1, b * w, 1);
    assert (a * v) * (b * w) == (a * b) * (v * w);
    UnitBy(a * b, v * w);
  }

  lemma UnitEqm(a: int, b: int)
    requires Unit(a) && Eqm(b, a)
    ensures Unit(b)
  {
    var w := UnitInverse(a);
    EqmRefl(w);
    EqmMul(b, a, w, w);
    EqmTrans(b * w, a * w, 1);
    UnitBy(b, w);
  }

  lemma UnitTwo()
    ensures Unit(2) && Unit(1)
  {
    EqmBy(2 * ((P + 1) / 2), 1, 1);
    UnitBy(2, (P + 1) / 2);
    EqmRefl(1);
    UnitBy(1, 1);
  }

  /** Units cancel. */
  lemma UnitCancel(u: int, a: int, b: int)
    requires Unit(u) && Eqm(u * a, u * b)
    ensures Eqm(a, b)
  {
    var w := UnitInverse(u);
    EqmScale(w, u * a, u * b);
    EqmRefl(a);
    EqmRefl(b);
    EqmMul(u * w, 1, a, a);
    EqmMul(u * w, 1, b, b);
    assert (u * w) * a == w * (u * a) && (u * w) * b == w * (u * b);
    EqmSym(w * (u * a), a);
    EqmTrans(a, w * (u * a), w * (u * b));
    EqmTrans(a, w * (u * b), b);
  }
}
