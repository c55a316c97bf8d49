/** The integers modulo p as a field, from the primality of p = 2^255 - 19. */
module FieldPrime {
  import opened Words
  import opened Pow2s
  import opened Primes
  import opened Field
  import opened FieldRing
  import opened FieldPow

  /** Every number is 0 in the field or has an inverse. */
  lemma ZeroOrUnit(z: int)
    requires Prime(P)
    ensures Eqm(z, 0) || Unit(z)
  {
    var a := z % P;
    EqmBy(z, a, z / P);
    if a != 0 {
      var w, k := InverseExists(P, a);
      EqmBy(a * w, 1, k);
      UnitBy(a, w);
      UnitEqm(a, z);
    }
  }

  lemma ZeroIsNoUnit(z: int)
    requires Eqm(z, 0)
    ensures !Unit(z)
  {
    if Unit(z) {
      var w := UnitInverse(z);
      EqmScale(w, z, 0);
      assert w * z == z * w;
      EqmSym(z * w, 1);
      EqmTrans(1, z * w, 0);
      var k := EqmGap(1, 0);
      SmallMultiple(P, k);
      assert false;
    }
  }

  /** There are no zero divisors. */
  lemma ZeroProduct(a: int, b: int)
    requires Prime(P) && Eqm(a * b, 0)
    ensures Eqm(a, 0) || Eqm(b, 0)
  {
    ZeroOrUnit(a);
    if Unit(a) { UnitCancel(a, b, 0); }
  }

  /** x^2 = y^2 only for y = x and y = -x. */
  lemma SquareRoots(x: int, y: int)
    requires Prime(P) && Eqm(x * x, y * y)
    ensures Eqm(x, y) || Eqm(x, -y)
  {
    EqmRefl(y * y);
    EqmAdd(x * x, y * y, y * y, y * y);
    assert x * x - y * y == (x - y) * (x + y);
    ZeroProduct(x - y, x + y);
    EqmRefl(y);
    if Eqm(x - y, 0) { EqmAdd(x - y, 0, y, y); } else { EqmAdd(x + y, 0, y, y); }
  }

  /** z^(p-1) = 1 */
  lemma FermatField(z: int)
    requires Prime(P) && Unit(z)
    ensures PowEq(1, z, P - 1)
  {
    var a := z % P;
    EqmBy(z, a, z / P);
    if a == 0 { ZeroIsNoUnit(z); }
    var k := Fermat(P, a);
    EqmPow(z, a, P - 1);
    EqmBy(Pow(a, P - 1), 1, k);
    EqmTrans(Pow(z, P - 1), Pow(a, P - 1), 1);
    EqmSym(Pow(z, P - 1), 1);
    PowIntro(1, z, P - 1);
  }

  lemma ExponentIs()
    ensures Pow2(255) == P + 19
  {
    Exponent112();
    Pow2Add(112, 112);
    Exponent31();
    Pow2Add(224, 31);
  }

  lemma Exponent112()
    ensures Pow2(112) == 0x1_00000000_00000000_00000000_0000
  {
    Pow2Values();
    Pow2Add(56, 56);
  }

  lemma Exponent31()
    ensures Pow2(31) == 0x80000000
  {
    Pow2Values();
  }

  /** `curve25519_recip` inverts. */
  lemma RecipInverts(o: Fe, z: int)
    requires Prime(P) && Unit(z) && IsPow(o, z, Pow2(255) - 21)
    ensures Eqm(o.Val() * z, 1)
  {
    ExponentIs();
    PowOne(z);
    EqmRefl(o.Val() * z);
    PowProduct(o.Val() * z, o.Val(), z, z, P - 2, 1);
    FermatField(z);
    PowUnique(o.Val() * z, 1, z, P - 1);
  }

  lemma PowUnique(a: int, b: int, z: int, e: nat)
    requires PowEq(a, z, e) && PowEq(b, z, e)
    ensures Eqm(a, b)
  {
    PowElim(a, z, e);
    PowElim(b, z, e);
    EqmSym(b, Pow(z, e));
    EqmTrans(a, Pow(z, e), b);
  }
}
