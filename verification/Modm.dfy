/** Arithmetic modulo the group order (modm-donna-64bit.h): numbers in five 56-bit limbs,
    reduced by Barrett's method with the low partial products left out. */
module Modm {
  import opened Words

  /** The order m = 2^252 + 27742317777372353535851937790883648493 of the base point. */
  const M: int := 0x10000000_00000000_00000000_00000000_14def9de_a2f79cd6_5812631a_5cf5d3ed

  /** `bignum256modm`; out-parameters of the source are results here. */
  datatype Num = Num(l0: int, l1: int, l2: int, l3: int, l4: int) {
    /** The number the limbs denote. */
    function Val(): int {
      Radix56(l0, l1, l2, l3, l4)
    }

    /** Four 56-bit limbs and a top limb below `top`. */
    predicate Limbs(top: int) {
      0 <= l0 < LIMB && 0 <= l1 < LIMB && 0 <= l2 < LIMB && 0 <= l3 < LIMB && 0 <= l4 < top
    }

    /** A number below m: what every operation here returns. */
    predicate Reduced() {
      Limbs(TOP) && Val() < M
    }
  }

  function Radix56(r0: int, r1: int, r2: int, r3: int, r4: int): int {
    r0 + 0x1_00000000_000000 * r1 + 0x1_00000000_00000000_00000000_0000 * r2
    + 0x1_00000000_00000000_00000000_00000000_00000000_00 * r3
    + 0x1_00000000_00000000_00000000_00000000_00000000_00000000_00000000 * r4
  }

  const LIMB: int := 0x1_00000000_000000

  /** The top limb of a number below 2^264. */
  const TOP: int := 0x1_00000000_00

  lemma LimbsBound(r0: int, r1: int, r2: int, r3: int, r4: int)
    requires 0 <= r0 < LIMB && 0 <= r1 < LIMB && 0 <= r2 < LIMB && 0 <= r3 < LIMB
    ensures Radix56(0, 0, 0, 0, r4) <= Radix56(r0, r1, r2, r3, r4) < Radix56(0, 0, 0, 0, r4 + 1)
  {
  }

  // ----- borrow chains

  /** `lt_modm` */
  function Lt(a: int, b: int): (r: int)
    ensures 0 <= a < W64 / 2 && 0 <= b < W64 / 2 ==> r == if a < b then 1 else 0
  {
    (a - b) % W64 / 0x8000_0000_0000_0000
  }

  /** One limb `b = lt_modm(a, pb); t = a - pb + (b << 56)` of a subtraction. */
  method Borrow(a: int, pb: int) returns (t: int, b: int)
    requires 0 <= a < LIMB && 0 <= pb <= LIMB
    ensures 0 <= b <= 1 && 0 <= t < LIMB
    ensures t == a - pb + 0x1_00000000_000000 * b
  {
    b := Lt(a, pb);
    t := (a - pb + b * LIMB) % W64;
  }

  /** `r ^= mask & (r ^ t)` for an all-zero or all-one mask (see MaskedMove in BitTricks). */
  function Select(mask: int, r: int, t: int): (s: int) {
    if mask == 0 then r else t
  }

  /** The borrow out of the subtraction of m decides the comparison with m. */
  lemma MinusM(r: Num, t0: int, t1: int, t2: int, t3: int, b0: int, b1: int, b2: int, b3: int)
    requires t0 == r.l0 - 0x12631a5cf5d3ed + 0x1_00000000_000000 * b0
    requires t1 == r.l1 - (b0 + 0xf9dea2f79cd658) + 0x1_00000000_000000 * b1
    requires t2 == r.l2 - (b1 + 0x14de) + 0x1_00000000_000000 * b2
    requires t3 == r.l3 - b2 + 0x1_00000000_000000 * b3
    requires 0 <= t0 < LIMB && 0 <= t1 < LIMB && 0 <= t2 < LIMB && 0 <= t3 < LIMB
    ensures r.Val() - M == Radix56(t0, t1, t2, t3, r.l4 - (b3 + 0x10000000))
    ensures r.Val() < M <==> r.l4 < b3 + 0x10000000
  {
    LimbsBound(t0, t1, t2, t3, r.l4 - (b3 + 0x10000000));
  }

  /** Subtracts m once unless the number is already smaller. */
  method Reduce256(r: Num) returns (r': Num)
    requires r.Limbs(TOP)
    ensures r'.Limbs(TOP)
    ensures r'.Val() == if r.Val() < M then r.Val() else r.Val() - M
  {
    var t0, b0 := Borrow(r.l0, 0x12631a5cf5d3ed);
    var t1, b1 := Borrow(r.l1, b0 + 0xf9dea2f79cd658);
    var t2, b2 := Borrow(r.l2, b1 + 0x14de);
    var t3, b3 := Borrow(r.l3, b2 + 0);
    MinusM(r, t0, t1, t2, t3, b0, b1, b2, b3);
    var pb := b3 + 0x10000000;
    var b := Lt(r.l4, pb);
    var t4 := (r.l4 - pb + b * 0x1_00000000) % W64;

    var mask := (b - 1) % W64;
    if b == 0 { QuoRem(r.l4 - pb, W64, 0, r.l4 - pb); }
    r' := Num(Select(mask, r.l0, t0), Select(mask, r.l1, t1), Select(mask, r.l2, t2),
              Select(mask, r.l3, t3), Select(mask, r.l4, t4));
    assert r' == if b == 0 then Num(t0, t1, t2, t3, r.l4 - pb) else r;
  }

  // ----- Barrett reduction

  /** One column sum c of the quotient (line 78): bits 0-39 complete the limb whose low 16 bits
      are `mid`, bits 40-55 start the next limb, and the rest is the carry into the next column. */
  method Column(mid: int, c: int) returns (limb: int, next: int, f: int, ghost low: int)
    requires 0 <= mid < 0x10000 && 0 <= c < 0x1_00000000_00000000_00000000_000000
    ensures limb == mid + 0x10000 * low && 0 <= limb < LIMB && 0 <= low < TOP
    ensures 0 <= next < 0x10000 && 0 <= f < W64
    ensures c == low + 0x1_00000000_00 * next + 0x1_00000000_000000 * f
  {
    low := c % TOP;
    ghost var m, g := c / TOP % 0x10000, c / TOP / 0x10000;
    assert c == low + 0x1_00000000_00 * m + 0x1_00000000_000000 * g;
    var lo: U64 := c % W64;
    QuoRem(c, W64, g / 0x100, low + 0x1_00000000_00 * m + 0x1_00000000_000000 * (g % 0x100));
    var up := lo * 0x10000 % W64 % LIMB;
    QuoRem(lo * 0x10000, W64, m / 0x100 + 0x100 * (g % 0x100), 0x10000 * low + 0x1_00000000_000000 * (m % 0x100));
    QuoRem(0x10000 * low + 0x1_00000000_000000 * (m % 0x100), LIMB, m % 0x100, 0x10000 * low);
    limb := mid + up;
    next := lo / TOP % 0x10000;
    QuoRem(lo, TOP, m + 0x10000 * (g % 0x100), low);
    QuoRem(m + 0x10000 * (g % 0x100), 0x10000, g % 0x100, m);
    f := c / LIMB;
    QuoRem(c, LIMB, g, low + 0x1_00000000_00 * m);
  }

  /** Quotient estimate, from the split columns 4 to 8 of mu * q1 with columns 0-2 left out:
      it misses mu * q1 / 2^264 by less than 1 + 2^-37. */
  lemma QuotientColumns(q1: Num, q3: Num, f3: int, c4: int, c5: int, c6: int, c7: int, c8: int,
                        m4: int, m5: int, m6: int, m7: int, m8: int,
                        l4: int, l5: int, l6: int, l7: int, l8: int,
                        f4: int, f5: int, f6: int, f7: int, f8: int)
    requires q1.Limbs(TOP)
    requires f3 == (0x9ce5a30a2c131b * q1.l3 + 0xffffffffffffff * q1.l0 + 0x215d086329a7ed * q1.l2 + 0xffffffffeb2106 * q1.l1) / LIMB
    requires c4 == 0x9ce5a30a2c131b * q1.l4 + f3 + 0xfffffffff * q1.l0 + 0xffffffffffffff * q1.l1 + 0x215d086329a7ed * q1.l3 + 0xffffffffeb2106 * q1.l2
    requires c5 == 0xfffffffff * q1.l1 + f4 + 0x215d086329a7ed * q1.l4 + 0xffffffffeb2106 * q1.l3 + 0xffffffffffffff * q1.l2
    requires c6 == 0xfffffffff * q1.l2 + f5 + 0xffffffffeb2106 * q1.l4 + 0xffffffffffffff * q1.l3
    requires c7 == 0xfffffffff * q1.l3 + f6 + 0xffffffffffffff * q1.l4
    requires c8 == 0xfffffffff * q1.l4 + f7
    requires c4 == l4 + 0x1_00000000_00 * m4 + 0x1_00000000_000000 * f4
    requires c5 == l5 + 0x1_00000000_00 * m5 + 0x1_00000000_000000 * f5
    requires c6 == l6 + 0x1_00000000_00 * m6 + 0x1_00000000_000000 * f6
    requires c7 == l7 + 0x1_00000000_00 * m7 + 0x1_00000000_000000 * f7
    requires c8 == l8 + 0x1_00000000_00 * m8 + 0x1_00000000_000000 * f8
    requires 0 <= l4 < TOP
    requires q3 == Num(m4 + 0x10000 * l5, m5 + 0x10000 * l6, m6 + 0x10000 * l7, m7 + 0x10000 * l8, m8 + 0x10000 * f8)
    ensures 0 <= MU * q1.Val() - TWO264 * q3.Val() < TWO264 + 0x8_00000000_00000000_00000000_00000000_00000000_00000000_00000000
  {
    var c3 := 0x9ce5a30a2c131b * q1.l3 + 0xffffffffffffff * q1.l0 + 0x215d086329a7ed * q1.l2 + 0xffffffffeb2106 * q1.l1;
    var d0 := 0x9ce5a30a2c131b * q1.l0;
    var d1 := 0x9ce5a30a2c131b * q1.l1 + 0x215d086329a7ed * q1.l0;
    var d2 := 0x9ce5a30a2c131b * q1.l2 + 0x215d086329a7ed * q1.l1 + 0xffffffffeb2106 * q1.l0;
    assert MU * q1.Val() - TWO264 * q3.Val() == Radix56(d0, d1, d2, c3 - 0x1_00000000_000000 * f3, l4);
  }

  /** mu = floor(2^512 / m) */
  const MU: int := 0xf_ffffffff_ffffffff_ffffffff_ffffffeb_2106215d_086329a7_ed9ce5a3_0a2c131b
  const TWO264: int := 0x100_00000000_00000000_00000000_00000000_00000000_00000000_00000000_00000000

  /** Why two conditional subtractions are enough. */
  lemma QuotientError(x: int, q1: int, q3: int)
    requires 0 <= x < TWO264 * 0x1000000_00000000_00000000_00000000_00000000_00000000_00000000_00000000
    requires q1 == x / 0x1000000_00000000_00000000_00000000_00000000_00000000_00000000_00000000
    requires 0 <= MU * q1 - TWO264 * q3 < TWO264 + 0x8_00000000_00000000_00000000_00000000_00000000_00000000_00000000
    ensures 0 <= x - q3 * M < 3 * M
  {
  }

  /** `q3 = (mu * q1) >> 264`, from column 3 up (lines 74-85). */
  method Quotient(q1: Num) returns (q3: Num)
    requires q1.Limbs(TOP)
    ensures q3.Limbs(TOP)
    ensures 0 <= MU * q1.Val() - TWO264 * q3.Val() < TWO264 + 0x8_00000000_00000000_00000000_00000000_00000000_00000000_00000000
  {
    var c3: U128 := 0x9ce5a30a2c131b * q1.l3 + 0xffffffffffffff * q1.l0 + 0x215d086329a7ed * q1.l2 + 0xffffffffeb2106 * q1.l1;
    var f3: U64 := c3 / LIMB;
    var c4 := 0x9ce5a30a2c131b * q1.l4 + f3 + 0xfffffffff * q1.l0 + 0xffffffffffffff * q1.l1 + 0x215d086329a7ed * q1.l3 + 0xffffffffeb2106 * q1.l2;
    var _, m4, f4, l4 := Column(0, c4);
    var c5 := 0xfffffffff * q1.l1 + f4 + 0x215d086329a7ed * q1.l4 + 0xffffffffeb2106 * q1.l3 + 0xffffffffffffff * q1.l2;
    var q30, m5, f5, l5 := Column(m4, c5);
    var c6 := 0xfffffffff * q1.l2 + f5 + 0xffffffffeb2106 * q1.l4 + 0xffffffffffffff * q1.l3;
    var q31, m6, f6, l6 := Column(m5, c6);
    var c7 := 0xfffffffff * q1.l3 + f6 + 0xffffffffffffff * q1.l4;
    var q32, m7, f7, l7 := Column(m6, c7);
    var c8 := 0xfffffffff * q1.l4 + f7;
    var q33, m8, f8, l8 := Column(m7, c8);
    q3 := Num(q30, q31, q32, q33, m8 + f8 * 0x10000);
    QuotientColumns(q1, q3, f3, c4, c5, c6, c7, c8, m4, m5, m6, m7, m8, l4, l5, l6, l7, l8, f4, f5, f6, f7, f8);
  }

  /** `r = lo128(c) & (2^56 - 1); shr128(f, c, 56)` */
  method SplitLimb(c: int) returns (r: int, f: int)
    requires 0 <= c < 0x1_00000000_00000000_00000000_000000
    ensures 0 <= r < LIMB && 0 <= f < W64
    ensures c == r + 0x1_00000000_000000 * f
  {
    r := c % W64 % LIMB;
    f := c / LIMB;
    QuoRem(c, W64, f / 0x100, c % LIMB + 0x1_00000000_000000 * (f % 0x100));
    QuoRem(c % W64, LIMB, f % 0x100, c % LIMB);
  }

  lemma ProductColumns(q3: Num, r0: int, r1: int, r2: int, r3: int, r4: int,
                       f0: int, f1: int, f2: int, f3: int, f4: int)
    requires r0 + 0x1_00000000_000000 * f0 == 0x12631a5cf5d3ed * q3.l0
    requires r1 + 0x1_00000000_000000 * f1 == 0x12631a5cf5d3ed * q3.l1 + f0 + 0xf9dea2f79cd658 * q3.l0
    requires r2 + 0x1_00000000_000000 * f2 == 0x12631a5cf5d3ed * q3.l2 + f1 + 0x14de * q3.l0 + 0xf9dea2f79cd658 * q3.l1
    requires r3 + 0x1_00000000_000000 * f3 == 0x12631a5cf5d3ed * q3.l3 + f2 + 0 * q3.l0 + 0xf9dea2f79cd658 * q3.l2 + 0x14de * q3.l1
    requires r4 + 0x1_00000000_00 * f4 == 0x12631a5cf5d3ed * q3.l4 + f3 + 0x10000000 * q3.l0 + 0 * q3.l1 + 0xf9dea2f79cd658 * q3.l3 + 0x14de * q3.l2
    ensures exists k {:trigger TWO264 * k} :: Radix56(r0, r1, r2, r3, r4) == M * q3.Val() - TWO264 * k
  {
    var k := f4 + 0x10000 * Radix56(0xf9dea2f79cd658 * q3.l4 + 0x14de * q3.l3 + 0x10000000 * q3.l1,
                                    0x14de * q3.l4 + 0x10000000 * q3.l2, 0x10000000 * q3.l3, 0x10000000 * q3.l4, 0);
    assert Radix56(r0, r1, r2, r3, r4) == M * q3.Val() - TWO264 * k;
  }

  /** `r2 = (q3 * m) mod 2^264` (lines 87-96). */
  method TimesM(q3: Num) returns (r2: Num)
    requires q3.Limbs(TOP)
    ensures r2.Limbs(TOP)
    ensures exists k {:trigger TWO264 * k} :: r2.Val() == M * q3.Val() - TWO264 * k
  {
    var c0: U128 := 0x12631a5cf5d3ed * q3.l0;
    var r0, f0 := SplitLimb(c0);
    var c1: U128 := 0x12631a5cf5d3ed * q3.l1 + f0 + 0xf9dea2f79cd658 * q3.l0;
    var r1, f1 := SplitLimb(c1);
    var c2: U128 := 0x12631a5cf5d3ed * q3.l2 + f1 + 0x14de * q3.l0 + 0xf9dea2f79cd658 * q3.l1;
    var rr, f2 := SplitLimb(c2);
    var c3: U128 := 0x12631a5cf5d3ed * q3.l3 + f2 + 0 * q3.l0 + 0xf9dea2f79cd658 * q3.l2 + 0x14de * q3.l1;
    var r3, f3 := SplitLimb(c3);
    var c4: U128 := 0x12631a5cf5d3ed * q3.l4 + f3 + 0x10000000 * q3.l0 + 0 * q3.l1 + 0xf9dea2f79cd658 * q3.l3 + 0x14de * q3.l2;
    var r4, f4 := SplitTop(c4);
    r2 := Num(r0, r1, rr, r3, r4);
    ProductColumns(q3, r0, r1, rr, r3, r4, f0, f1, f2, f3, f4);
  }

  /** `lo128(c) & (2^40 - 1)` */
  method SplitTop(c: int) returns (r: int, ghost f: int)
    requires 0 <= c
    ensures 0 <= r < TOP && c == r + 0x1_00000000_00 * f
  {
    r, f := c % W64 % TOP, c / TOP;
    QuoRem(c, W64, f / 0x1000000, c % TOP + 0x1_00000000_00 * (f % 0x1000000));
    QuoRem(c % W64, TOP, f % 0x1000000, c % TOP);
  }

  /** The difference modulo 2^264 is the residue itself, and two conditional subtractions
      of m reduce it: the whole argument on numbers. */
  lemma BarrettValue(x: int, q1: int, q3: int, k: int, b: int, r: int)
    requires 0 <= x < TWO264 * TWO248 && q1 == x / TWO248
    requires 0 <= MU * q1 - TWO264 * q3 < TWO264 + 0x8_00000000_00000000_00000000_00000000_00000000_00000000_00000000
    requires r == x % TWO264 - (M * q3 - TWO264 * k) + TWO264 * b && 0 <= r < TWO264
    ensures 0 <= r < 3 * M
    ensures x % M == if r < M then r else if r < 2 * M then r - M else r - 2 * M
  {
    QuotientError(x, q1, q3);
    SmallMultiple(TWO264, k + b - x / TWO264);
    var t := if r < M then 0 else if r < 2 * M then 1 else 2;
    QuoRem(x, M, q3 + t, r - t * M);
  }

  lemma DifferenceColumns(r1: Num, r2: Num, r: Num, b0: int, b1: int, b2: int, b3: int, b: int)
    requires r.l0 == r1.l0 - r2.l0 + 0x1_00000000_000000 * b0
    requires r.l1 == r1.l1 - (b0 + r2.l1) + 0x1_00000000_000000 * b1
    requires r.l2 == r1.l2 - (b1 + r2.l2) + 0x1_00000000_000000 * b2
    requires r.l3 == r1.l3 - (b2 + r2.l3) + 0x1_00000000_000000 * b3
    requires r.l4 == r1.l4 - (b3 + r2.l4) + 0x1_00000000_00 * b
    ensures r.Val() == r1.Val() - r2.Val() + TWO264 * b
  {
  }

  /** `r1 - r2` modulo 2^264 (lines 98-103). */
  method Difference(r1: Num, r2: Num) returns (r: Num, ghost b: int)
    requires r1.Limbs(TOP) && r2.Limbs(TOP)
    ensures r.Limbs(TOP) && r.Val() == r1.Val() - r2.Val() + TWO264 * b
  {
    var d0, b0 := Borrow(r1.l0, r2.l0);
    var d1, b1 := Borrow(r1.l1, b0 + r2.l1);
    var d2, b2 := Borrow(r1.l2, b1 + r2.l2);
    var d3, b3 := Borrow(r1.l3, b2 + r2.l3);
    var pb := b3 + r2.l4;
    var b4 := Lt(r1.l4, pb);
    r, b := Num(d0, d1, d2, d3, (r1.l4 - pb + b4 * TOP) % W64), b4;
    assert r.l4 == r1.l4 - pb + 0x1_00000000_00 * b4;
    DifferenceColumns(r1, r2, r, b0, b1, b2, b3, b4);
  }

  /** The reduction: x mod m for every x below 2^512, given x >> 248 and x mod 2^264. */
  method BarrettReduce256(q1: Num, r1: Num, ghost x: int) returns (r: Num)
    requires q1.Limbs(TOP) && r1.Limbs(TOP)
    requires 0 <= x < TWO264 * TWO248
    requires q1.Val() == x / TWO248 && r1.Val() == x % TWO264
    ensures r.Reduced() && r.Val() == x % M
  {
    var q3 := Quotient(q1);
    var r2 := TimesM(q3);
    ghost var k :| r2.Val() == M * q3.Val() - TWO264 * k;
    var d, b := Difference(r1, r2);
    LimbsBound(d.l0, d.l1, d.l2, d.l3, d.l4);
    BarrettValue(x, q1.Val(), q3.Val(), k, b, d.Val());
    r := Reduce256(d);
    r := Reduce256(r);
  }

  // ----- addition and multiplication

  /** Line by line sum of the limbs. */
  method Sum256(x: Num, y: Num) returns (r: Num)
    requires x.Reduced() && y.Reduced()
    ensures r.Limbs(TOP) && r.Val() == x.Val() + y.Val() && 0 <= r.Val() < 2 * M
  {
    var c: U64 := x.l0 + y.l0;
    var r0, f0 := SplitLimb(c);
    c := f0 + (x.l1 + y.l1);
    var r1, f1 := SplitLimb(c);
    c := f1 + (x.l2 + y.l2);
    var r2, f2 := SplitLimb(c);
    c := f2 + (x.l3 + y.l3);
    var r3, f3 := SplitLimb(c);
    c := f3 + (x.l4 + y.l4);
    r := Num(r0, r1, r2, r3, c);
    assert r.Val() == x.Val() + y.Val();
    LimbsBound(r0, r1, r2, r3, c);
  }

  /** `add256_modm` for operands whose values are v and w */
  method Add256(x: Num, y: Num, ghost v: int, ghost w: int) returns (r: Num)
    requires x.Reduced() && y.Reduced() && x.Val() == v && y.Val() == w
    ensures r.Reduced() && r.Val() == (v + w) % M
  {
    var s := Sum256(x, y);
    r := Reduce256(s);
    SumResidue(s.Val(), r.Val());
    SameSum(s.Val(), v + w, r.Val());
  }

  lemma SameSum(s: int, sum: int, r: int)
    requires s == sum && r == s % M
    ensures r == sum % M && r < M
  {
  }

  lemma SumResidue(sum: int, r: int)
    requires 0 <= sum < 2 * M && r == if sum < M then sum else sum - M
    ensures r == sum % M
  {
    QuoRem(sum, M, if sum < M then 0 else 1, r);
  }

  lemma Times(a: int, y: Num)
    ensures a * y.Val() == Radix56(a * y.l0, a * y.l1, a * y.l2, a * y.l3, a * y.l4)
  {
  }

  /** Column k of the product of two five-limb numbers, times 2^(56 k), summed. */
  lemma ProductValue(x: Num, y: Num)
    ensures x.Val() * y.Val()
         == Radix56(x.l0 * y.l0, x.l0 * y.l1 + x.l1 * y.l0, x.l0 * y.l2 + x.l2 * y.l0 + x.l1 * y.l1,
                    x.l0 * y.l3 + x.l3 * y.l0 + x.l1 * y.l2 + x.l2 * y.l1,
                    x.l0 * y.l4 + x.l4 * y.l0 + x.l3 * y.l1 + x.l1 * y.l3 + x.l2 * y.l2)
            + 0x1_00000000_00000000_00000000_00000000_00000000_00000000_00000000_00000000_000000
              * Radix56(x.l4 * y.l1 + x.l1 * y.l4 + x.l2 * y.l3 + x.l3 * y.l2,
                        x.l4 * y.l2 + x.l2 * y.l4 + x.l3 * y.l3, x.l4 * y.l3 + x.l3 * y.l4, x.l4 * y.l4, 0)
  {
    Times(x.l0, y); Times(x.l1, y); Times(x.l2, y); Times(x.l3, y); Times(x.l4, y);
    TimesLeft(x, y.Val());
  }

  lemma TimesLeft(x: Num, v: int)
    ensures x.Val() * v == Radix56(x.l0 * v, x.l1 * v, x.l2 * v, x.l3 * v, x.l4 * v)
  {
  }

  /** One column of the product from column 4 up (lines 138-146): bits 0-23 complete the limb of
      x >> 248 whose low 32 bits are `mid`, bits 24-55 start the next one. */
  method WideColumn(mid: int, c: int) returns (limb: int, next: int, f: int, ghost low: int)
    requires 0 <= mid < 0x1_00000000 && 0 <= c < 0x1_00000000_00000000_00000000_000000
    ensures limb == mid + 0x1_00000000 * low && 0 <= limb < LIMB && 0 <= low < 0x1000000
    ensures 0 <= next < 0x1_00000000 && 0 <= f < W64
    ensures c == low + 0x1000000 * next + 0x1_00000000_000000 * f
  {
    low := c % 0x1000000;
    ghost var m, g := c / 0x1000000 % 0x1_00000000, c / 0x1000000 / 0x1_00000000;
    assert c == low + 0x1000000 * m + 0x1_00000000_000000 * g;
    var lo: U64 := c % W64;
    QuoRem(c, W64, g / 0x100, low + 0x1000000 * m + 0x1_00000000_000000 * (g % 0x100));
    var up := lo * 0x1_00000000 % W64 % LIMB;
    QuoRem(lo * 0x1_00000000, W64, m / 0x100 + 0x1000000 * (g % 0x100), 0x1_00000000 * low + 0x1_00000000_000000 * (m % 0x100));
    QuoRem(0x1_00000000 * low + 0x1_00000000_000000 * (m % 0x100), LIMB, m % 0x100, 0x1_00000000 * low);
    limb := mid + up;
    next := lo / 0x1000000 % 0x1_00000000;
    QuoRem(lo, 0x1000000, m + 0x1_00000000 * (g % 0x100), low);
    QuoRem(m + 0x1_00000000 * (g % 0x100), 0x1_00000000, g % 0x100, m);
    f := c / LIMB;
    QuoRem(c, LIMB, g, low + 0x1000000 * m);
  }

  lemma LimbProduct(a: int, b: int)
    requires 0 <= a < LIMB && 0 <= b < LIMB
    ensures 0 <= a * b < 0x1_00000000_00000000_00000000_0000
  {
    ProductBelow(a, b, LIMB, LIMB);
  }

  lemma RowProducts(a: int, y: Num)
    requires 0 <= a < LIMB && y.Limbs(LIMB)
    ensures 0 <= a * y.l0 < PP && 0 <= a * y.l1 < PP && 0 <= a * y.l2 < PP && 0 <= a * y.l3 < PP && 0 <= a * y.l4 < PP
  {
    LimbProduct(a, y.l0); LimbProduct(a, y.l1); LimbProduct(a, y.l2); LimbProduct(a, y.l3); LimbProduct(a, y.l4);
  }

  /** The bound 2^112 of a partial product. */
  const PP: int := 0x1_00000000_00000000_00000000_0000
  const TWO280: int := 0x1_00000000_00000000_00000000_00000000_00000000_00000000_00000000_00000000_000000

  /** Carries nine product columns of x into x mod 2^264 and x >> 248 (lines 129-147). */
  method Carry(s0: int, s1: int, s2: int, s3: int, s4: int, s5: int, s6: int, s7: int, s8: int, ghost x: int)
    returns (q1: Num, r1: Num)
    requires 0 <= s0 < 5 * PP && 0 <= s1 < 5 * PP && 0 <= s2 < 5 * PP && 0 <= s3 < 5 * PP && 0 <= s4 < 5 * PP
    requires 0 <= s5 < 5 * PP && 0 <= s6 < 5 * PP && 0 <= s7 < 5 * PP && 0 <= s8 < 5 * PP
    requires x == Radix56(s0, s1, s2, s3, s4) + TWO280 * Radix56(s5, s6, s7, s8, 0) < TWO264 * TWO248
    ensures q1.Limbs(TOP) && r1.Limbs(TOP)
    ensures q1.Val() == x / TWO248 && r1.Val() == x % TWO264
  {
    var c0: U128 := s0;
    var r0, f0 := SplitLimb(c0);
    var c1: U128 := s1 + f0;
    var rr1, f1 := SplitLimb(c1);
    var c2: U128 := s2 + f1;
    var r2, f2 := SplitLimb(c2);
    var c3: U128 := s3 + f2;
    var r3, f3 := SplitLimb(c3);
    assert Radix56(s0, s1, s2, s3, s4) == Radix56(r0, rr1, r2, r3, s4 + f3);
    q1, r1 := CarryHigh(r0, rr1, r2, r3, s4 + f3, s5, s6, s7, s8, x);
  }

  method CarryHigh(r0: int, r1: int, r2: int, r3: int, c4: int, s5: int, s6: int, s7: int, s8: int, ghost x: int)
    returns (q: Num, r: Num)
    requires 0 <= r0 < LIMB && 0 <= r1 < LIMB && 0 <= r2 < LIMB && 0 <= r3 < LIMB && 0 <= c4 < 6 * PP
    requires 0 <= s5 < 5 * PP && 0 <= s6 < 5 * PP && 0 <= s7 < 5 * PP && 0 <= s8 < 5 * PP
    requires x == Radix56(r0, r1, r2, r3, c4) + TWO280 * Radix56(s5, s6, s7, s8, 0) < TWO264 * TWO248
    ensures q.Limbs(TOP) && r.Limbs(TOP)
    ensures q.Val() == x / TWO248 && r.Val() == x % TWO264
  {
    var r4, g4 := SplitTop(c4);
    r := Num(r0, r1, r2, r3, r4);
    var _, n4, f4, l4 := WideColumn(0, c4);
    var c5: U128 := s5 + f4;
    var q0, n5, f5, l5 := WideColumn(n4, c5);
    var c6: U128 := s6 + f5;
    var q1, n6, f6, l6 := WideColumn(n5, c6);
    var c7: U128 := s7 + f6;
    var q2, n7, f7, l7 := WideColumn(n6, c7);
    var c8: U128 := s8 + f7;
    var q3, n8, f8, l8 := WideColumn(n7, c8);
    q := Num(q0, q1, q2, q3, n8 + f8 * 0x1_00000000);
    assert x == Radix56(r0, r1, r2, r3, l4) + TWO248 * q.Val();
    LimbsBound(r0, r1, r2, r3, l4);
    LimbsBound(r0, r1, r2, r3, r4);
    QuoRem(x, TWO248, q.Val(), Radix56(r0, r1, r2, r3, l4));
    QuoRem(x, TWO264, g4 + 0x10000 * Radix56(s5, s6, s7, s8, 0), r.Val());
    LimbsBound(q0, q1, q2, q3, q.l4);
  }

  lemma ProductBound(a: int, b: int)
    requires 0 <= a < 0x100 * TWO248 && 0 <= b < 0x100 * TWO248
    ensures 0 <= a * b < TWO264 * TWO248
  {
    assert a * b <= a * (0x100 * TWO248);
  }

  /** (x * y) mod m, for all x and y below 2^256 */
  method Mul256(x: Num, y: Num) returns (r: Num)
    requires x.Limbs(0x1_00000000) && y.Limbs(0x1_00000000)
    ensures r.Reduced() && r.Val() == (x.Val() * y.Val()) % M
  {
    RowProducts(x.l0, y); RowProducts(x.l1, y); RowProducts(x.l2, y); RowProducts(x.l3, y); RowProducts(x.l4, y);
    ProductValue(x, y);
    LimbsBound(x.l0, x.l1, x.l2, x.l3, x.l4);
    LimbsBound(y.l0, y.l1, y.l2, y.l3, y.l4);
    ProductBound(x.Val(), y.Val());
    var q1, r1 := Carry(
      x.l0 * y.l0,
      x.l0 * y.l1 + x.l1 * y.l0,
      x.l0 * y.l2 + x.l2 * y.l0 + x.l1 * y.l1,
      x.l0 * y.l3 + x.l3 * y.l0 + x.l1 * y.l2 + x.l2 * y.l1,
      x.l0 * y.l4 + x.l4 * y.l0 + x.l3 * y.l1 + x.l1 * y.l3 + x.l2 * y.l2,
      x.l4 * y.l1 + x.l1 * y.l4 + x.l2 * y.l3 + x.l3 * y.l2,
      x.l4 * y.l2 + x.l2 * y.l4 + x.l3 * y.l3,
      x.l4 * y.l3 + x.l3 * y.l4,
      x.l4 * y.l4,
      x.Val() * y.Val());
    r := BarrettReduce256(q1, r1, x.Val() * y.Val());
  }

  // ----- bytes

  /** Multiplication of operands whose values are known by name. */
  method MulInto(s: Num, a: Num, ghost h: int, ghost x: int) returns (t: Num)
    requires s.Reduced() && a.Reduced() && s.Val() == h && a.Val() == x
    ensures t.Reduced() && t.Val() == h * x % M
  {
    t := Mul256(s, a);
  }

  predicate NumVal(x: Num, a: int) {
    x.Val() == a
  }

  /** x is the reduced form of v. */
  ghost predicate Means(x: Num, v: int) {
    forall a {:trigger NumVal(x, a)} :: NumVal(x, a) ==> x.Reduced() && a == v
  }

  lemma MeansIff(x: Num, v: int)
    ensures Means(x, v) <==> x.Reduced() && x.Val() == v
  {
    assert NumVal(x, x.Val());
  }

  method MulMeans(x: Num, y: Num, ghost v: int, ghost w: int) returns (n: Num)
    requires Means(x, v) && Means(y, w)
    ensures Means(n, v * w % M)
  {
    MeansIff(x, v);
    MeansIff(y, w);
    n := MulInto(x, y, v, w);
    MeansIff(n, v * w % M);
  }

  method AddMeans(x: Num, y: Num, ghost v: int, ghost w: int) returns (n: Num)
    requires Means(x, v) && Means(y, w)
    ensures Means(n, (v + w) % M)
  {
    MeansIff(x, v);
    MeansIff(y, w);
    n := Add256(x, y, v, w);
    MeansIff(n, (v + w) % M);
  }

  /** x mod 2^264 from the eight 64-bit words of x (lines 169-173). */
  method LowLimbs(x0: int, x1: int, x2: int, x3: int, x4: int, ghost rest: int, ghost x: int) returns (r: Num)
    requires 0 <= x0 < W64 && 0 <= x1 < W64 && 0 <= x2 < W64 && 0 <= x3 < W64 && 0 <= x4 < W64
    requires x == Radix64(x0, x1, x2, x3) + TWO256 * (x4 + W64 * rest)
    ensures r.Limbs(TOP) && r.Val() == x % TWO264
  {
    var r1 := Funnel(x0, x1, LIMB, 0x100, 0x1_0000_0000_0000, 0x100);
    var r2 := Funnel(x1, x2, 0x1_0000_0000_0000, 0x1_0000, 0x100_0000_0000, 0x100);
    var r3 := Funnel(x2, x3, 0x100_0000_0000, 0x100_0000, 0x1_0000_0000, 0x100);
    var r4 := Funnel(x3, x4, 0x1_0000_0000, 0x1_0000_0000, 0x100, 0x100_0000);
    r := Num(x0 % LIMB, r1, r2, r3, r4);
    LimbsBound(r.l0, r.l1, r.l2, r.l3, r.l4);
    QuoRem(x, TWO264, x4 / 0x100 + 0x1_00000000_000000 * rest, r.Val());
  }

  /** x >> 248 from the eight 64-bit words of x (lines 180-184). */
  method HighLimbs(ghost low: int, x3: int, x4: int, x5: int, x6: int, x7: int, ghost x: int) returns (q: Num)
    requires 0 <= low < 0x1_00000000_00000000_00000000_00000000_00000000_00000000
    requires 0 <= x3 < W64 && 0 <= x4 < W64 && 0 <= x5 < W64 && 0 <= x6 < W64 && 0 <= x7 < W64
    requires x == Radix64(low, 0, 0, x3) + TWO256 * Radix64(x4, x5, x6, x7)
    ensures q.Limbs(TOP) && q.Val() == x / TWO248
  {
    var q0 := Funnel(x3, x4, LIMB, 0x100, 0x1_0000_0000_0000, 0x100);
    var q1 := Funnel(x4, x5, 0x1_0000_0000_0000, 0x1_0000, 0x100_0000_0000, 0x100);
    var q2 := Funnel(x5, x6, 0x100_0000_0000, 0x100_0000, 0x1_0000_0000, 0x100);
    var q3 := Funnel(x6, x7, 0x1_0000_0000, 0x1_0000_0000, 0x100_0000, 0x100);
    q := Num(q0, q1, q2, q3, x7 / 0x100_0000);
    QuoRem(x, TWO248, q.Val(), Radix64(low, 0, 0, x3 % LIMB));
  }

  /** The little-endian number of up to 64 bytes, mod m. */
  method Expand256(inp: seq<U8>) returns (out: Num)
    requires |inp| <= 64
    ensures out.Reduced() && out.Val() == LE(inp) % M
  {
    var work := inp + Zeroes(64 - |inp|);
    LEZeroes(inp, 64 - |inp|);
    LoadWords8(work);
    if |inp| < 32 { ShortLE(inp); }
    out := ExpandWords(Load64(work, 0), Load64(work, 8), Load64(work, 16), Load64(work, 24),
                       Load64(work, 32), Load64(work, 40), Load64(work, 48), Load64(work, 56), |inp| < 32, LE(inp));
  }

  method ExpandWords(x0: int, x1: int, x2: int, x3: int, x4: int, x5: int, x6: int, x7: int, short: bool, ghost x: int)
    returns (out: Num)
    requires 0 <= x0 < W64 && 0 <= x1 < W64 && 0 <= x2 < W64 && 0 <= x3 < W64
    requires 0 <= x4 < W64 && 0 <= x5 < W64 && 0 <= x6 < W64 && 0 <= x7 < W64
    requires x == Radix64(x0, x1, x2, x3) + TWO256 * Radix64(x4, x5, x6, x7)
    requires short ==> x < TWO248
    ensures out.Reduced() && out.Val() == x % M
  {
    assert Radix64(x4, x5, x6, x7) == x4 + W64 * Radix64(x5, x6, x7, 0);
    assert Radix64(x0, x1, x2, x3) == Radix64(Radix64(x0, x1, x2, 0), 0, 0, x3);
    assert 0 <= Radix64(x4, x5, x6, x7) < TWO256 && 0 <= Radix64(x0, x1, x2, x3) < TWO256;
    out := LowLimbs(x0, x1, x2, x3, x4, Radix64(x5, x6, x7, 0), x);
    if short {
      QuoRem(x, TWO264, 0, x);
      QuoRem(x, M, 0, x);
      return;
    }
    var q1 := HighLimbs(Radix64(x0, x1, x2, 0), x3, x4, x5, x6, x7, x);
    out := BarrettReduce256(q1, out, x);
  }

  /** The 32 little-endian bytes of a number below 2^256. */
  method Contract256(x: Num) returns (out: seq<U8>)
    requires x.Limbs(0x1_00000000)
    ensures |out| == 32 && LE(out) == x.Val()
  {
    var w0 := Pack64(x.l0, x.l1, 0x100, LIMB);
    var w1 := Pack64(x.l1 / 0x100, x.l2, 0x1_0000, 0x1_0000_0000_0000);
    var w2 := Pack64(x.l2 / 0x1_0000, x.l3, 0x100_0000, 0x100_0000_0000);
    var w3 := Pack64(x.l3 / 0x100_0000, x.l4, 0x1_0000_0000, 0x1_0000_0000);
    assert x.l4 % 0x1_0000_0000 == x.l4;
    assert x.Val() == Radix64(w0, w1, w2, w3);
    out := Store64(w0) + (Store64(w1) + (Store64(w2) + Store64(w3)));
    StoreWords(w0, w1, w2, w3);
  }

  /** Limbs are determined by their value, so equal values are equal arrays. */
  lemma LimbsUnique(a: Num, b: Num)
    requires a.Limbs(LIMB) && b.Limbs(LIMB) && a.Val() == b.Val()
    ensures a == b
  {
    UnpackLimb(a.l0, a.l1, a.l2, a.l3, a.l4);
    UnpackLimb(b.l0, b.l1, b.l2, b.l3, b.l4);
    UnpackLimb(a.l1, a.l2, a.l3, a.l4, 0);
    UnpackLimb(b.l1, b.l2, b.l3, b.l4, 0);
    UnpackLimb(a.l2, a.l3, a.l4, 0, 0);
    UnpackLimb(b.l2, b.l3, b.l4, 0, 0);
  }

  lemma UnpackLimb(r0: int, r1: int, r2: int, r3: int, r4: int)
    requires 0 <= r0 < LIMB
    ensures Radix56(r0, r1, r2, r3, r4) % LIMB == r0 && Radix56(r0, r1, r2, r3, r4) / LIMB == Radix56(r1, r2, r3, r4, 0)
  {
    QuoRem(Radix56(r0, r1, r2, r3, r4), LIMB, Radix56(r1, r2, r3, r4, 0), r0);
  }
}
