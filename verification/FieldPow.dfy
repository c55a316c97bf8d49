/** Repeated squaring and the two fixed powers of curve25519-donna-helpers.h. */
module FieldPow {
  import opened Words
  import opened Field
  import opened FieldRing
  import opened Pow2s

  // ----- powers in the field

  lemma {:induction false} EqmPow(a: int, b: int, n: nat)
    requires Eqm(a, b)
    ensures Eqm(Pow(a, n), Pow(b, n))
  {
    if n == 0 {
      EqmBy(1, 1, 0);
    } else {
      EqmPow(a, b, n - 1);
      EqmMul(a, b, Pow(a, n - 1), Pow(b, n - 1));
    }
  }

  lemma {:induction false} PowPow(z: int, e: nat, k: nat)
    ensures e * k >= 0 && Pow(Pow(z, e), k) == Pow(z, e * k)
  {
    if k > 0 {
      PowPow(z, e, k - 1);
      assert e * k == e + e * (k - 1);
      PowAdd(z, e, e * (k - 1));
    }
  }

  predicate Power(p: int, z: int, e: int) {
    e >= 0 && p == Pow(z, e)
  }

  /** v equals z^e in the field. */
  ghost predicate PowEq(v: int, z: int, e: int) {
    forall p {:trigger Power(p, z, e)} :: Power(p, z, e) ==> Eqm(v, p)
  }

  /** a is z to the power e, with the limbs of a product. */
  ghost predicate IsPow(a: Fe, z: int, e: int) {
    a.Below(RED) && e >= 0 && PowEq(a.Val(), z, e)
  }

  lemma PowIntro(v: int, z: int, e: nat)
    requires Eqm(v, Pow(z, e))
    ensures PowEq(v, z, e)
  {
  }

  lemma PowElim(v: int, z: int, e: nat)
    requires PowEq(v, z, e)
    ensures Eqm(v, Pow(z, e))
  {
    assert Power(Pow(z, e), z, e);
  }

  lemma PowProduct(o: int, a: int, b: int, z: int, e: nat, f: nat)
    requires PowEq(a, z, e) && PowEq(b, z, f) && Eqm(o, a * b)
    ensures PowEq(o, z, e + f)
  {
    PowElim(a, z, e);
    PowElim(b, z, f);
    EqmMul(a, Pow(z, e), b, Pow(z, f));
    PowAdd(z, e, f);
    EqmTrans(o, a * b, Pow(z, e + f));
    PowIntro(o, z, e + f);
  }

  lemma PowOne(z: int)
    ensures PowEq(z, z, 1)
  {
    assert Pow(z, 1) == z * Pow(z, 0) == z;
    EqmBy(z, z, 0);
    PowIntro(z, z, 1);
  }

  // ----- repeated squaring

  /** How often the do/while loop of `curve25519_square_times` runs: the count wraps below zero. */
  function Rounds(count: int): (n: nat)
    requires 0 <= count < W64
  {
    if count == 0 then W64 else count
  }

  /** `curve25519_square_times`: the exponent is 2^count. */
  method SquareTimes(a: Fe, count: int) returns (out: Fe)
    requires a.Below(BIG) && 0 <= count < W64
    ensures IsPow(out, a.Val(), Pow2(Rounds(count))) && (count > 0 ==> IsPow(out, a.Val(), Pow2(count)))
  {
    PowOne(a.Val());
    out := SquareOnce(a, a.Val(), 0);
    var left := (count - 1) % W64;
    ghost var done: nat := 1;
    while left != 0
      invariant 0 <= left < W64 && done + left == Rounds(count)
      invariant IsPow(out, a.Val(), Pow2(done))
      decreases left
    {
      out := SquareOnce(out, a.Val(), done);
      done := done + 1;
      left := (left - 1) % W64;
    }
  }

  /** One round of the loop. */
  method SquareOnce(a: Fe, ghost z: int, ghost n: nat) returns (out: Fe)
    requires a.Below(BIG) && PowEq(a.Val(), z, Pow2(n))
    ensures IsPow(out, z, Pow2(n + 1))
  {
    out := SquareRound(a);
    PowProduct(out.Val(), a.Val(), a.Val(), z, Pow2(n), Pow2(n));
  }

  /** Squaring n times a power that is already known. */
  method PowTimes(a: Fe, n: nat, ghost z: int, ghost e: int) returns (out: Fe)
    requires IsPow(a, z, e) && 1 <= n < W64
    ensures IsPow(out, z, e * Pow2(n))
  {
    out := SquareTimes(a, n);
    PowPower(out.Val(), a.Val(), z, e, Pow2(n));
  }

  lemma PowPower(o: int, a: int, z: int, e: nat, k: nat)
    requires PowEq(a, z, e) && PowEq(o, a, k)
    ensures e * k >= 0 && PowEq(o, z, e * k)
  {
    PowElim(a, z, e);
    PowElim(o, a, k);
    EqmPow(a, Pow(z, e), k);
    PowPow(z, e, k);
    EqmTrans(o, Pow(a, k), Pow(z, e * k));
    PowIntro(o, z, e * k);
  }

  method PowMul(a: Fe, b: Fe, ghost z: int, ghost e: int, ghost f: int) returns (out: Fe)
    requires IsPow(a, z, e) && IsPow(b, z, f)
    ensures IsPow(out, z, e + f)
  {
    out := Multiply(a, b);
    PowProduct(out.Val(), a.Val(), b.Val(), z, e, f);
  }

  // ----- the addition chains

  /** From 2^m - 1 and 2^n - 1 to 2^(m+n) - 1. */
  method Extend(c: Fe, b: Fe, ghost m: nat, n: nat, ghost z: int) returns (out: Fe)
    requires 1 <= n < W64 && IsPow(c, z, Pow2(m) - 1) && IsPow(b, z, Pow2(n) - 1)
    ensures IsPow(out, z, Pow2(m + n) - 1)
  {
    ghost var e := ShiftOnes(m, n);
    var t := PowTimes(c, n, z, Pow2(m) - 1);
    out := PowMul(t, b, z, e, Pow2(n) - 1);
  }

  /** `curve25519_pow_two5mtwo0_two250mtwo0` */
  method PowTwo250(b5: Fe, ghost z: int) returns (b: Fe)
    requires IsPow(b5, z, Pow2(5) - 1)
    ensures IsPow(b, z, Pow2(250) - 1)
  {
    b := TenTimes(b5, 5, z);
    b := FiveTimes(b, 50, z);
  }

  /** Lines 17-24 with n = 5. */
  method TenTimes(b0: Fe, n: nat, ghost z: int) returns (b: Fe)
    requires 1 <= n < 1000 && IsPow(b0, z, Pow2(n) - 1)
    ensures IsPow(b, z, Pow2(10 * n) - 1)
  {
    b := Extend(b0, b0, n, n, z);
    var c := Extend(b, b, 2 * n, 2 * n, z);
    c := Extend(c, c, 4 * n, 4 * n, z);
    b := Extend(c, b, 8 * n, 2 * n, z);
  }

  /** Lines 25-30 with n = 50. */
  method FiveTimes(b0: Fe, n: nat, ghost z: int) returns (b: Fe)
    requires 1 <= n < 1000 && IsPow(b0, z, Pow2(n) - 1)
    ensures IsPow(b, z, Pow2(5 * n) - 1)
  {
    var c := Extend(b0, b0, n, n, z);
    c := Extend(c, c, 2 * n, 2 * n, z);
    b := Extend(c, b0, 4 * n, n, z);
  }

  method PowNext(t: Fe, z: Fe, ghost e: int) returns (b: Fe)
    requires z.Below(BIG) && IsPow(t, z.Val(), e)
    ensures IsPow(b, z.Val(), e + 1)
  {
    b := Multiply(t, z);
    PowOne(z.Val());
    PowProduct(b.Val(), t.Val(), z.Val(), z.Val(), e, 1);
  }

  /** The start that `curve25519_recip` and `curve25519_pow_two252m3` share: z^11 and z^31. */
  method Start(z: Fe) returns (a: Fe, b: Fe)
    requires z.Below(BIG)
    ensures IsPow(a, z.Val(), 11) && IsPow(b, z.Val(), 31)
  {
    ghost var v := z.Val();
    a := SquareTimes(z, 1);
    var t := PowTimes(a, 2, v, 2);
    b := PowNext(t, z, 8);
    a := PowMul(b, a, v, 9, 2);
    t := PowTimes(a, 1, v, 11);
    b := PowMul(t, b, v, 22, 9);
  }

  /** `curve25519_recip`: z^(p - 2). */
  method Recip(z: Fe) returns (out: Fe)
    requires z.Below(BIG)
    ensures IsPow(out, z.Val(), Pow2(255) - 21)
  {
    var a, b := Start(z);
    b := PowTwo250(b, z.Val());
    ghost var e := ShiftOnes(250, 5);
    b := PowTimes(b, 5, z.Val(), Pow2(250) - 1);
    out := PowMul(b, a, z.Val(), e, 11);
  }

  /** `curve25519_pow_two252m3`: z^((p - 5) / 8). */
  method PowTwo252m3(z: Fe) returns (out: Fe)
    requires z.Below(BIG)
    ensures IsPow(out, z.Val(), Pow2(252) - 3)
  {
    var a, b := Start(z);
    b := PowTwo250(b, z.Val());
    ghost var e := ShiftOnes(250, 2);
    b := PowTimes(b, 2, z.Val(), Pow2(250) - 1);
    out := PowNext(b, z, e);
  }

  lemma ShiftOnes(m: nat, n: nat) returns (e: int)
    ensures e == (Pow2(m) - 1) * Pow2(n) && e == Pow2(m + n) - Pow2(n)
  {
    e := (Pow2(m) - 1) * Pow2(n);
    Pow2Add(m, n);
  }
}
