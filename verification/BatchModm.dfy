/** The variable-time helpers of batch verification (modm-donna-64bit.h, lines 282-361). Each
    looks only at limbs 0 to `limbsize`: the switch falls through from `case limbsize`. */
module BatchModm {
  import opened Words
  import opened Modm

  /** All limbs above `limbsize` are zero. */
  predicate Fits(a: Num, limbsize: nat) {
    a.Limbs(LIMB) && (limbsize < 4 ==> a.l4 == 0) && (limbsize < 3 ==> a.l3 == 0)
    && (limbsize < 2 ==> a.l2 == 0) && (limbsize < 1 ==> a.l1 == 0)
  }

  function Limb(a: Num, i: nat): int {
    match i case 0 => a.l0 case 1 => a.l1 case 2 => a.l2 case 3 => a.l3 case _ => a.l4
  }

  /** `(a[i] - b[i]) - carry` */
  function Diff(a: int, b: int, carry: int): (t: int) {
    (a - b - carry) % W64
  }

  lemma DiffValue(a: int, b: int, carry: int)
    requires 0 <= a < LIMB && 0 <= b < LIMB && 0 <= carry <= 1
    ensures Top(Diff(a, b, carry)) == if a - b - carry < 0 then 1 else 0
    ensures a - b - carry >= 0 ==> Diff(a, b, carry) == a - b - carry
    ensures Diff(a, b, carry) % LIMB == if a - b - carry < 0 then a - b - carry + LIMB else a - b - carry
  {
    var r := a - b - carry;
    if r < 0 {
      QuoRem(r, W64, -1, r + W64);
      QuoRem(r + W64, LIMB, 0xff, r + LIMB);
    }
  }

  /** `t >> 63` */
  function Top(t: int): int {
    t / 0x8000_0000_0000_0000
  }

  /** The carry out of limbs 0 to `i` of a - b. */
  function BorrowOut(a: Num, b: Num, i: nat): (c: int) {
    Top(Diff(Limb(a, i), Limb(b, i), if i == 0 then 0 else BorrowOut(a, b, i - 1)))
  }

  /** The number limbs 0 to `i` denote. */
  function Low(a: Num, i: nat): int {
    match i
    case 0 => a.l0
    case 1 => Radix56(a.l0, a.l1, 0, 0, 0)
    case 2 => Radix56(a.l0, a.l1, a.l2, 0, 0)
    case 3 => Radix56(a.l0, a.l1, a.l2, a.l3, 0)
    case _ => a.Val()
  }

  function Weight(i: nat): int {
    match i
    case 0 => 1
    case 1 => 0x1_00000000_000000
    case 2 => 0x1_00000000_00000000_00000000_0000
    case 3 => 0x1_00000000_00000000_00000000_00000000_00000000_00
    case _ => 0x1_00000000_00000000_00000000_00000000_00000000_00000000_00000000
  }

  lemma LowStep(a: Num, i: nat)
    requires a.Limbs(LIMB) && 1 <= i <= 4
    ensures Low(a, i) == Low(a, i - 1) + Weight(i) * Limb(a, i) && 0 <= Low(a, i - 1) < Weight(i)
  {
    match i case 1 => case 2 => case 3 => case 4 =>
  }

  /** One more significant limb decides a comparison, or leaves it to the carry so far. */
  lemma CompareStep(la: int, lb: int, w: int, x: int, y: int)
    requires 0 <= la < w && 0 <= lb < w
    ensures la + w * x < lb + w * y <==> x - y - (if la < lb then 1 else 0) < 0
  {
    assert w * x - w * y == w * (x - y);
    if x - y <= -1 { assert w * (x - y) <= -w; }
    if x - y >= 1 { assert w * (x - y) >= w; }
  }

  lemma {:induction false} BorrowIsLess(a: Num, b: Num, i: nat)
    requires a.Limbs(LIMB) && b.Limbs(LIMB) && i <= 4
    ensures BorrowOut(a, b, i) == if Low(a, i) < Low(b, i) then 1 else 0
  {
    if i == 0 {
      DiffValue(a.l0, b.l0, 0);
    } else {
      BorrowIsLess(a, b, i - 1);
      DiffValue(Limb(a, i), Limb(b, i), BorrowOut(a, b, i - 1));
      LowStep(a, i);
      LowStep(b, i);
      CompareStep(Low(a, i - 1), Low(b, i - 1), Weight(i), Limb(a, i), Limb(b, i));
    }
  }

  /** `lt256_modm_batch` */
  predicate Less(a: Num, b: Num, limbsize: nat) {
    BorrowOut(a, b, limbsize) == 1
  }

  /** `lte256_modm_batch`: no borrow out of b - a */
  predicate AtMost(a: Num, b: Num, limbsize: nat) {
    BorrowOut(b, a, limbsize) == 0
  }

  /** The truncated comparisons are the full-width ones on scalars that fit the window. */
  lemma TruncatedCompare(a: Num, b: Num, limbsize: nat)
    requires limbsize <= 4 && Fits(a, limbsize) && Fits(b, limbsize)
    ensures Less(a, b, limbsize) <==> a.Val() < b.Val()
    ensures AtMost(a, b, limbsize) <==> a.Val() <= b.Val()
  {
    BorrowIsLess(a, b, limbsize);
    BorrowIsLess(b, a, limbsize);
    FitsLow(a, limbsize);
    FitsLow(b, limbsize);
  }

  lemma FitsLow(a: Num, limbsize: nat)
    requires limbsize <= 4 && Fits(a, limbsize)
    ensures Low(a, limbsize) == a.Val()
  {
  }

  /** `sub256_modm_batch`: limbs above `limbsize` of `out` are left alone, and the limb at
      `limbsize` is not masked. */
  function Sub(out: Num, a: Num, b: Num, limbsize: nat): (r: Num)
    requires limbsize <= 4
  {
    var t0 := Diff(a.l0, b.l0, 0);
    var t1 := Diff(a.l1, b.l1, Top(t0));
    var t2 := Diff(a.l2, b.l2, Top(t1));
    var t3 := Diff(a.l3, b.l3, Top(t2));
    var t4 := Diff(a.l4, b.l4, Top(t3));
    match limbsize
    case 4 => Num(t0 % LIMB, t1 % LIMB, t2 % LIMB, t3 % LIMB, t4)
    case 3 => Num(t0 % LIMB, t1 % LIMB, t2 % LIMB, t3, out.l4)
    case 2 => Num(t0 % LIMB, t1 % LIMB, t2, out.l3, out.l4)
    case 1 => Num(t0 % LIMB, t1, out.l2, out.l3, out.l4)
    case 0 => Num(t0, out.l1, out.l2, out.l3, out.l4)
  }

  /** The masked limb `i` of a - b. */
  function Masked(a: Num, b: Num, i: nat): (d: int) {
    Diff(Limb(a, i), Limb(b, i), if i == 0 then 0 else BorrowOut(a, b, i - 1)) % LIMB
  }

  /** What it denotes. */
  lemma MaskedLimb(a: Num, b: Num, i: nat)
    requires a.Limbs(LIMB) && b.Limbs(LIMB) && i <= 4
    ensures 0 <= Masked(a, b, i) < LIMB && 0 <= BorrowOut(a, b, i) <= 1
    ensures Masked(a, b, i) == Limb(a, i) - Limb(b, i) - (if i == 0 then 0 else BorrowOut(a, b, i - 1)) + 0x1_00000000_000000 * BorrowOut(a, b, i)
  {
    if i > 0 { BorrowIsLess(a, b, i - 1); }
    DiffValue(Limb(a, i), Limb(b, i), if i == 0 then 0 else BorrowOut(a, b, i - 1));
  }

  /** All five masked limbs of a - b. */
  function FullDiff(a: Num, b: Num): (d: Num) {
    Num(Masked(a, b, 0), Masked(a, b, 1), Masked(a, b, 2), Masked(a, b, 3), Masked(a, b, 4))
  }

  lemma FullDiffValue(a: Num, b: Num)
    requires a.Limbs(LIMB) && b.Limbs(LIMB) && a.Val() >= b.Val()
    ensures FullDiff(a, b).Val() == a.Val() - b.Val() && FullDiff(a, b).Limbs(LIMB)
  {
    MaskedLimb(a, b, 0); MaskedLimb(a, b, 1); MaskedLimb(a, b, 2); MaskedLimb(a, b, 3); MaskedLimb(a, b, 4);
    BorrowIsLess(a, b, 4);
    DiffColumns(a, b, FullDiff(a, b), BorrowOut(a, b, 0), BorrowOut(a, b, 1), BorrowOut(a, b, 2), BorrowOut(a, b, 3));
  }

  lemma DiffColumns(a: Num, b: Num, d: Num, c0: int, c1: int, c2: int, c3: int)
    requires d.l0 == a.l0 - b.l0 + 0x1_00000000_000000 * c0
    requires d.l1 == a.l1 - b.l1 - c0 + 0x1_00000000_000000 * c1
    requires d.l2 == a.l2 - b.l2 - c1 + 0x1_00000000_000000 * c2
    requires d.l3 == a.l3 - b.l3 - c2 + 0x1_00000000_000000 * c3
    requires d.l4 == a.l4 - b.l4 - c3
    ensures d.Val() == a.Val() - b.Val()
  {
  }

  /** Above the window nothing is borrowed and nothing is left. */
  lemma {:induction false} NothingAbove(a: Num, b: Num, limbsize: nat, i: nat)
    requires limbsize <= i <= 4 && Fits(a, limbsize) && Fits(b, limbsize) && a.Val() >= b.Val()
    ensures BorrowOut(a, b, i) == 0
    ensures limbsize < i ==> Masked(a, b, i) == 0
  {
    if i == limbsize {
      BorrowIsLess(a, b, i);
      FitsLow(a, i);
      FitsLow(b, i);
    } else {
      NothingAbove(a, b, limbsize, i - 1);
      DiffValue(Limb(a, i), Limb(b, i), 0);
    }
  }

  /** The truncated difference is the full-width one on scalars that fit the window. */
  lemma TruncatedSub(a: Num, b: Num, limbsize: nat)
    requires limbsize <= 4 && Fits(a, limbsize) && Fits(b, limbsize) && a.Val() >= b.Val()
    ensures Fits(Sub(a, a, b, limbsize), limbsize)
    ensures Sub(a, a, b, limbsize).Val() == a.Val() - b.Val()
  {
    FullDiffValue(a, b);
    forall i | limbsize <= i <= 4
      ensures BorrowOut(a, b, i) == 0 && (limbsize < i ==> Masked(a, b, i) == 0)
    {
      NothingAbove(a, b, limbsize, i);
    }
    SubIsFullDiff(a, b, limbsize);
  }

  /** Without a borrow out, masking changes nothing. */
  lemma UnmaskedLimb(a: Num, b: Num, i: nat)
    requires a.Limbs(LIMB) && b.Limbs(LIMB) && i <= 4 && BorrowOut(a, b, i) == 0
    ensures Masked(a, b, i) == Diff(Limb(a, i), Limb(b, i), if i == 0 then 0 else BorrowOut(a, b, i - 1))
  {
    if i > 0 { BorrowIsLess(a, b, i - 1); }
    DiffValue(Limb(a, i), Limb(b, i), if i == 0 then 0 else BorrowOut(a, b, i - 1));
  }

  lemma SubIsFullDiff(a: Num, b: Num, limbsize: nat)
    requires limbsize <= 4 && Fits(a, limbsize) && Fits(b, limbsize)
    requires forall i :: limbsize <= i <= 4 ==> BorrowOut(a, b, i) == 0
    requires forall i :: limbsize < i <= 4 ==> Masked(a, b, i) == 0
    ensures Sub(a, a, b, limbsize) == FullDiff(a, b) && Fits(FullDiff(a, b), limbsize)
  {
    UnmaskedLimb(a, b, limbsize);
    assert BorrowOut(a, b, 0) == Top(Diff(a.l0, b.l0, 0));
    assert BorrowOut(a, b, 1) == Top(Diff(a.l1, b.l1, BorrowOut(a, b, 0)));
    assert BorrowOut(a, b, 2) == Top(Diff(a.l2, b.l2, BorrowOut(a, b, 1)));
    assert BorrowOut(a, b, 3) == Top(Diff(a.l3, b.l3, BorrowOut(a, b, 2)));
    assert BorrowOut(a, b, limbsize) == 0;
    assert limbsize < 4 ==> Masked(a, b, 4) == 0;
    assert limbsize < 3 ==> Masked(a, b, 3) == 0;
    assert limbsize < 2 ==> Masked(a, b, 2) == 0;
    assert limbsize < 1 ==> Masked(a, b, 1) == 0;
    match limbsize case 0 => case 1 => case 2 => case 3 => case 4 =>
  }

  /** `iszero256_modm_batch` */
  predicate IsZero(a: Num) {
    a.l0 == 0 && a.l1 == 0 && a.l2 == 0 && a.l3 == 0 && a.l4 == 0
  }

  /** `isone256_modm_batch` */
  predicate IsOne(a: Num) {
    a.l0 == 1 && a.l1 == 0 && a.l2 == 0 && a.l3 == 0 && a.l4 == 0
  }

  /** `isatmost128bits256_modm_batch` */
  predicate AtMost128Bits(a: Num) {
    a.l4 == 0 && a.l3 == 0 && a.l2 / 0x1_0000 % 0x100_0000_0000 == 0
  }

  const TWO128: int := 0x1_00000000_00000000_00000000_00000000

  lemma LimbTests(a: Num)
    requires a.Limbs(LIMB)
    ensures IsZero(a) <==> a.Val() == 0
    ensures IsOne(a) <==> a.Val() == 1
    ensures AtMost128Bits(a) <==> a.Val() < TWO128
  {
    SmallValue(a);
    AtMost128Value(a);
  }

  lemma SmallValue(a: Num)
    requires a.Limbs(LIMB)
    ensures a.Val() < LIMB <==> a == Num(a.l0, 0, 0, 0, 0)
  {
  }

  lemma AtMost128Value(a: Num)
    requires a.Limbs(LIMB)
    ensures AtMost128Bits(a) <==> a.Val() < TWO128
  {
    if AtMost128Bits(a) {
      assert a.l2 == a.l2 % 0x1_0000 + 0x1_0000 * (a.l2 / 0x1_0000);
    }
    if a.Val() < TWO128 {
      assert a.l4 == 0 && a.l3 == 0;
      QuoRem(a.l2, 0x1_0000, 0, a.l2);
    }
  }
}
