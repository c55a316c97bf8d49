/** Bos-Coster multi-scalar multiplication (ed25519-donna-batchverify.h, lines 105-188): the two
    largest scalars a >= b of a heap are replaced by a - b and b until one is left. */
module BosCoster {
  import opened Words
  import opened Pow2s
  import opened Modm
  import opened BatchModm
  import opened BatchHeap
  import opened Groups
  import opened MultiSum
  import opened Elements
  import Edwards
  import Ladder

  datatype Option<T> = None | Some(value: T)

  // ----- the last scalar

  const TWO224: int := 0x1_00000000_00000000_00000000_00000000_00000000_00000000_00000000

  /** The multiple of the point that the final step computes for the last scalar s. The source
      scans limbs 0 to 3 only, and counts the leading bit twice; with s a positive multiple of
      2^224 its limb index runs below 0. */
  function FinalMultiplier(s: nat): Option<nat> {
    if s <= 1 then Some(s)
    else if s % TWO224 == 0 then None
    else Some(s % TWO224 + 2 * TopBit(s % TWO224))
  }

  /** s is above 1 and 2^t is the leading bit of s mod 2^224. */
  ghost predicate LeadingBit(s: nat, t: nat) {
    s > 1 && Pow2(t) <= s % Pow2(224) < Pow2(t + 1)
  }

  /** For s >= 2 with low = s mod 2^224 > 0 and leading bit 2^t of low, it is low + 2^(t+1). */
  lemma MultiplierIs(s: nat, t: nat)
    requires LeadingBit(s, t)
    ensures FinalMultiplier(s) == Some(s % Pow2(224) + Pow2(t + 1))
  {
    TwoPow224();
    TopBitIs(s % TWO224, t);
  }

  lemma TwoPow224()
    ensures TWO224 == Pow2(224)
  {
    WeightIsPow2(3);
    Pow2Add(168, 56);
    Pow2Values();
  }

  /** It is s exactly for 0, 1 and the numbers whose bits 223 and 224 are the two leading ones. */
  lemma FinalExact(s: nat)
    ensures FinalMultiplier(s) == Some(s) <==> s <= 1 || TWO224 + TWO224 / 2 <= s < 2 * TWO224
  {
    if s > 1 && s % TWO224 != 0 {
      var low := s % TWO224;
      TopBitBounds(low);
      if TWO224 + TWO224 / 2 <= s < 2 * TWO224 {
        QuoRem(s, TWO224, 1, s - TWO224);
        TopBitOfHalf(low);
      }
      if low + 2 * TopBit(low) == s {
        assert TWO224 * (s / TWO224) == 2 * TopBit(low) < 2 * TWO224;
        assert s / TWO224 == 1;
      }
    }
  }

  lemma MultiplierBelow(s: nat, m: nat)
    requires 1 < s && FinalMultiplier(s) == Some(m)
    ensures 0 < m < M
  {
    TopBitBounds(s % TWO224);
  }

  lemma {:induction false} TopBitBounds(n: nat)
    requires n > 0
    ensures TopBit(n) <= n < 2 * TopBit(n)
  {
    if n > 1 { TopBitBounds(n / 2); }
  }

  lemma TopBitOfHalf(low: nat)
    requires TWO224 / 2 <= low < TWO224
    ensures 2 * TopBit(low) == TWO224
  {
    TwoPow224();
    assert Pow2(224) == 2 * Pow2(223);
    TopBitIs(low, 223);
  }

  lemma WeightIsPow2(i: nat)
    requires i <= 3
    ensures Weight(i) == Pow2(56 * i)
  {
    Pow2Values();
    Pow2Add(56, 56);
    Pow2Add(112, 56);
    match i case 0 => case 1 => case 2 => case 3 =>
  }

  /** What lies above limb i of the four scanned limbs. */
  function Above(a: Num, i: nat): int {
    match i case 0 => Radix56(a.l1, a.l2, a.l3, 0, 0) case 1 => Radix56(a.l2, a.l3, 0, 0, 0) case 2 => a.l3 case _ => 0
  }

  lemma LimbAt(a: Num, i: nat)
    requires a.Limbs(LIMB) && i <= 3
    ensures Low(a, 3) / Weight(i) == Limb(a, i) + Above(a, i) * 0x1_00000000_000000
  {
    if i > 0 {
      LowStep(a, i);
      QuoRem(Low(a, 3), Weight(i), Limb(a, i) + Above(a, i) * 0x1_00000000_000000, Low(a, i - 1));
    }
  }

  /** A bit of a limb is a bit of the number. */
  lemma LimbBit(a: Num, i: nat, e: nat)
    requires a.Limbs(LIMB) && i <= 3 && e < 56
    ensures Bit(Limb(a, i), e) == Bit(Low(a, 3), 56 * i + e)
  {
    LimbAt(a, i);
    WeightIsPow2(i);
    Pow2Values();
    Pow2Add(56 * i, e);
    DivDiv(Low(a, 3), Weight(i), Pow2(e));
    BitAbove(Limb(a, i), Above(a, i), e, 56);
  }

  /** The highest nonzero limb of limbs 0 to 3 (lines 126-128), or none. */
  method FindLimb(scalar: Num) returns (found: bool, limb: nat)
    requires scalar.Limbs(LIMB)
    ensures limb <= 3 && Above(scalar, limb) == 0
    ensures if found then Limb(scalar, limb) != 0 else Low(scalar, 3) == 0
  {
    limb := 3;
    while Limb(scalar, limb) == 0
      invariant limb <= 3 && Above(scalar, limb) == 0
      decreases limb
    {
      if limb == 0 {
        return false, limb;
      }
      limb := limb - 1;
    }
    found := true;
  }

  /** The highest set bit of a nonzero limb (lines 130-133). */
  method FindFlag(x: int) returns (flag: int, ghost e: nat)
    requires 0 < x < LIMB
    ensures e < 56 && flag == Pow2(e) && Pow2(e) <= x < Pow2(e + 1)
  {
    Pow2Values();
    flag, e := 0x80_0000_0000_0000, 55;
    while x / flag % 2 == 0
      invariant e < 56 && flag == Pow2(e) && x < Pow2(e + 1)
      decreases e
    {
      SmallQuotient(x, flag);
      assert e > 0;
      flag, e := flag / 2, e - 1;
    }
    SmallQuotient(x, flag);
  }

  lemma SmallQuotient(x: int, p: int)
    requires 0 <= x < 2 * p
    ensures x / p == (if x < p then 0 else 1)
  {
    QuoRem(x, p, if x < p then 0 else 1, if x < p then x else x - p);
  }

  lemma ScaledRange(w: int, x: int, r: int, p: int)
    requires 0 <= r < w && p <= x < 2 * p
    ensures w * p <= w * x + r < w * (2 * p)
  {
    MulMono(w, p, x);
    MulMono(w, x + 1, 2 * p);
  }

  lemma TopOfLimb(a: Num, i: nat, e: nat)
    requires a.Limbs(LIMB) && i <= 3 && Above(a, i) == 0 && Pow2(e) <= Limb(a, i) < Pow2(e + 1)
    ensures Pow2(56 * i + e) <= Low(a, 3) < Pow2(56 * i + e + 1)
  {
    LimbAt(a, i);
    WeightIsPow2(i);
    Pow2Add(56 * i, e);
    ScaledRange(Weight(i), Limb(a, i), Low(a, 3) % Weight(i), Pow2(e));
    assert Low(a, 3) == Weight(i) * Limb(a, i) + Low(a, 3) % Weight(i);
    assert Weight(i) * (2 * Pow2(e)) == 2 * (Weight(i) * Pow2(e));
  }

  lemma LowRemainder(a: Num)
    requires a.Limbs(LIMB)
    ensures Low(a, 3) == a.Val() % TWO224
  {
    QuoRem(a.Val(), 0x1_00000000_00000000_00000000_00000000_00000000_00000000_00000000, a.l4, Radix56(a.l0, a.l1, a.l2, a.l3, 0));
  }

  /** r stands for the multiple [m]q that the final step gives, if it gives one. */
  ghost predicate IsMultiple<T>(g: Group<T>, at: T -> Edwards.Aff, r: Option<Edwards.Ext>, m: Option<nat>, q: T) {
    r.Some? == m.Some? && (r.Some? ==> StandsFor(g, at, r.value, Mul(g, m.value, q)))
  }

  /** `ge25519_multi_scalarmult_vartime_final` for a point that stands for q. */
  method Final<T(!new)>(point: Edwards.Ext, scalar: Num, ghost s: nat, ghost g: Group<T>, ghost at: T -> Edwards.Aff, ghost q: T)
    returns (r: Option<Edwards.Ext>)
    requires Ladder.Points(g, at) && StandsFor(g, at, point, q) && scalar.Limbs(LIMB) && s == scalar.Val()
    ensures IsMultiple(g, at, r, FinalMultiplier(s), q)
    ensures s <= 1 ==> r.Some? && StandsFor(g, at, r.value, Mul(g, s, q))
    ensures s > 1 && s % Pow2(224) == 0 ==> r == None
    ensures forall t: nat {:trigger LeadingBit(s, t)} :: LeadingBit(s, t) ==>
              r.Some? && StandsFor(g, at, r.value, Mul(g, s % Pow2(224) + Pow2(t + 1), q))
  {
    var small, x := FinalSmall(point, scalar, s, g, at, q);
    if small { return Some(x); }
    r := FinalScan(point, scalar, FinalMultiplier(s), g, at, q);
    FinalMeans(g, at, r, s, q);
  }

  lemma FinalMeans<T>(g: Group<T>, at: T -> Edwards.Aff, r: Option<Edwards.Ext>, s: nat, q: T)
    requires IsMultiple(g, at, r, FinalMultiplier(s), q) && s > 1
    ensures s % Pow2(224) == 0 ==> r == None
    ensures forall t: nat {:trigger LeadingBit(s, t)} :: LeadingBit(s, t) ==>
              r.Some? && StandsFor(g, at, r.value, Mul(g, s % Pow2(224) + Pow2(t + 1), q))
  {
    TwoPow224();
    forall t: nat {:trigger LeadingBit(s, t)} | LeadingBit(s, t)
      ensures r.Some? && StandsFor(g, at, r.value, Mul(g, s % Pow2(224) + Pow2(t + 1), q))
    {
      MultiplierIs(s, t);
    }
  }

  method SmallTests(scalar: Num, ghost s: nat) returns (one: bool, zero: bool)
    requires scalar.Limbs(LIMB) && s == scalar.Val()
    ensures (one <==> s == 1) && (zero <==> s == 0)
  {
    LimbTests(scalar);
    one, zero := IsOne(scalar), IsZero(scalar);
  }

  /** Lines 111-120: the scalars 0 and 1. */
  method FinalSmall<T(!new)>(point: Edwards.Ext, scalar: Num, ghost s: nat, ghost g: Group<T>, ghost at: T -> Edwards.Aff, ghost q: T)
    returns (small: bool, x: Edwards.Ext)
    requires Ladder.Points(g, at) && StandsFor(g, at, point, q) && scalar.Limbs(LIMB) && s == scalar.Val()
    ensures small <==> s <= 1
    ensures small ==> StandsFor(g, at, x, Mul(g, s, q))
  {
    var one, zero := SmallTests(scalar, s);
    small, x := true, point;
    if one {
      MulOne(g, q);
    } else if zero {
      x := Neutral(g, at);
    } else {
      small := false;
    }
  }

  /** Lines 122-147, for a scalar above 1. */
  method FinalScan<T(!new)>(point: Edwards.Ext, scalar: Num, ghost m: Option<nat>, ghost g: Group<T>, ghost at: T -> Edwards.Aff, ghost q: T)
    returns (r: Option<Edwards.Ext>)
    requires Ladder.Points(g, at) && StandsFor(g, at, point, q) && scalar.Limbs(LIMB)
    requires scalar.Val() > 1 && m == FinalMultiplier(scalar.Val())
    ensures IsMultiple(g, at, r, m, q)
  {
    LowRemainder(scalar);
    var found, limb := FindLimb(scalar);
    if !found {
      return None;
    }
    var flag, e := FindFlag(Limb(scalar, limb));
    TopOfLimb(scalar, limb, e);
    TopBitIs(Low(scalar, 3), 56 * limb + e);
    var x := Exponentiate(point, scalar, limb, flag, e, m.value, g, at, q);
    r := Some(x);
  }

  /** The loop of lines 135-147, entered with r = point although the leading bit is still to come. */
  method Exponentiate<T(!new)>(point: Edwards.Ext, scalar: Num, limb0: nat, flag0: int, ghost e0: nat, ghost x: nat,
                               ghost g: Group<T>, ghost at: T -> Edwards.Aff, ghost q: T)
    returns (r: Edwards.Ext)
    requires Ladder.Points(g, at) && StandsFor(g, at, point, q) && scalar.Limbs(LIMB)
    requires limb0 <= 3 && e0 < 56 && flag0 == Pow2(e0)
    requires Pow2(56 * limb0 + e0) <= Low(scalar, 3) < Pow2(56 * limb0 + e0 + 1)
    requires x == Low(scalar, 3) + Pow2(56 * limb0 + e0 + 1)
    ensures StandsFor(g, at, r, Mul(g, x, q))
  {
    var limb: nat, flag := limb0, flag0;
    ghost var t, e: nat := 56 * limb0 + e0, e0;
    r := point;
    MulOne(g, q);
    SmallQuotient(x, Pow2(t + 1));
    var done := false;
    while !done
      invariant !done ==> limb <= 3 && e < 56 && flag == Pow2(e) && 56 * limb + e <= t
      invariant StandsFor(g, at, r, Mul(g, if done then x else High(x, 56 * limb + e + 1), q))
      decreases !done, 56 * limb + e
    {
      r := ScanStep(point, scalar, r, limb, flag, e, t, x, g, at, q);
      done, limb, flag, e := NextFlag(limb, flag, e);
    }
  }

  /** `flag >>= 1`, moving to the next lower limb when the flag runs out; done below limb 0. */
  method NextFlag(limb: nat, flag: int, ghost e: nat) returns (done: bool, limb': nat, flag': int, ghost e': nat)
    requires limb <= 3 && e < 56 && flag == Pow2(e)
    ensures done <==> limb == 0 && e == 0
    ensures !done ==> limb' <= 3 && e' < 56 && flag' == Pow2(e') && 56 * limb' + e' + 1 == 56 * limb + e
  {
    done, limb', flag', e' := false, limb, flag / 2, if e > 0 then e - 1 else 55;
    if flag' == 0 {
      Pow2Values();
      if limb == 0 {
        done := true;
      } else {
        limb', flag' := limb - 1, 0x80_0000_0000_0000;
      }
    }
  }

  method ScanStep<T(!new)>(point: Edwards.Ext, scalar: Num, r: Edwards.Ext, limb: nat, flag: int, ghost e: nat, ghost t: nat, ghost x: nat,
                           ghost g: Group<T>, ghost at: T -> Edwards.Aff, ghost q: T)
    returns (r': Edwards.Ext)
    requires Ladder.Points(g, at) && StandsFor(g, at, point, q) && scalar.Limbs(LIMB)
    requires limb <= 3 && e < 56 && flag == Pow2(e) && 56 * limb + e <= t && x == Low(scalar, 3) + Pow2(t + 1)
    requires StandsFor(g, at, r, Mul(g, High(x, 56 * limb + e + 1), q))
    ensures StandsFor(g, at, r', Mul(g, High(x, 56 * limb + e), q))
    ensures limb == 0 && e == 0 ==> StandsFor(g, at, r', Mul(g, x, q))
  {
    ScanBit(scalar, limb, e, t);
    r' := DoubleAddBit(point, r, Limb(scalar, limb) / flag % 2 == 1, High(x, 56 * limb + e + 1), High(x, 56 * limb + e), g, at, q);
  }

  method DoubleAddBit<T(!new)>(point: Edwards.Ext, r: Edwards.Ext, one: bool, ghost n: nat, ghost n': nat,
                               ghost g: Group<T>, ghost at: T -> Edwards.Aff, ghost q: T)
    returns (r': Edwards.Ext)
    requires Ladder.Points(g, at) && StandsFor(g, at, point, q) && StandsFor(g, at, r, Mul(g, n, q))
    requires n' == 2 * n + (if one then 1 else 0)
    ensures StandsFor(g, at, r', Mul(g, n', q))
  {
    DoubleAdd(g, n, if one then 1 else 0, q);
    ghost var m := Mul(g, n, q);
    r' := DoubleElement(r, g, at, m);
    if one {
      r' := AddElements(r', point, g, at, g.add(m, m), q);
    }
  }

  /** The bit scanned at (limb, 2^e) is the next bit of the multiplier. */
  lemma ScanBit(a: Num, limb: nat, e: nat, t: nat)
    requires a.Limbs(LIMB) && limb <= 3 && e < 56 && 56 * limb + e <= t
    ensures var x, b := Low(a, 3) + Pow2(t + 1), 56 * limb + e;
      High(x, b) == 2 * High(x, b + 1) + Bit(x, b) && 0 <= Bit(x, b) <= 1 && Bit(x, b) == Limb(a, limb) / Pow2(e) % 2
  {
    var s, b := Low(a, 3), 56 * limb + e;
    NextBit(s + Pow2(t + 1), b);
    BitAbove(s, 1, b, t + 1);
    LimbBit(a, limb, e);
  }

  // ----- the limb window

  /** Fitting a window is a bound on the value. */
  lemma FitsBound(a: Num, limbsize: nat)
    requires a.Limbs(LIMB) && 0 < limbsize <= 4
    ensures Fits(a, limbsize - 1) <==> Fits(a, limbsize) && a.Val() < Weight(limbsize)
    ensures Fits(a, limbsize) && Limb(a, limbsize) == 0 ==> Fits(a, limbsize - 1)
  {
    match limbsize case 1 => case 2 => case 3 => case 4 =>
  }

  /** The window may shrink when the largest scalar has used up its top limb. */
  lemma WindowShrinks(s: seq<Num>, n: nat, limbsize: nat, max: nat)
    requires AllFit(s, n, limbsize) && max < n && (forall i :: 0 <= i < n ==> s[i].Val() <= s[max].Val())
    requires Limb(s[max], limbsize) == 0 && s[max].Val() > 0
    ensures limbsize > 0 && AllFit(s, n, limbsize - 1)
  {
    assert Fits(s[max], limbsize);
    if limbsize > 0 {
      FitsBound(s[max], limbsize);
      forall i | 0 <= i < n
        ensures Fits(s[i], limbsize - 1)
      {
        assert Fits(s[i], limbsize);
        FitsBound(s[i], limbsize);
      }
    }
  }

  /** A 128-bit scalar fits limbs 0 to 2. */
  lemma ShortFits(a: Num, limbsize: nat)
    requires a.Limbs(LIMB) && a.Val() < TWO128 && 2 <= limbsize <= 4
    ensures Fits(a, limbsize)
  {
    FitsBound(a, 4);
    FitsBound(a, 3);
  }

  /** Replacing a scalar by one that fits keeps the windows. */
  lemma DifferenceFits(s: seq<Num>, all: nat, n: nat, limbsize: nat, i: nat, d: Num)
    requires AllFit(s, all, 4) && AllFit(s, n, limbsize) && i < n && Fits(d, limbsize)
    ensures AllFit(s[i := d], all, 4) && AllFit(s[i := d], n, limbsize)
    ensures Keys(s[i := d]) == Keys(s)[i := d.Val()]
  {
    var t := s[i := d];
    forall j | 0 <= j < all ensures Fits(t[j], 4) { assert Fits(s[j], 4); }
    forall j | 0 <= j < n ensures Fits(t[j], limbsize) { assert Fits(s[j], limbsize); }
  }

  /** One reduction (lines 182-184) of the heap `h`: the largest scalar loses the second largest,
      whose point gains the largest scalar's point. */
  method Reduce<T(!new)>(h: Heap<Edwards.Ext>, max1: nat, max2: nat, limbsize: nat, ghost k: seq<int>,
                         ghost g: Group<T>, ghost at: T -> Edwards.Aff, ghost p: seq<T>)
    requires h.Heaped() && 3 <= h.size && h.size % 2 == 1 && AllFit(h.scalars[..], h.size, limbsize)
    requires IsTop2(h, max1, max2) && k == Keys(h.scalars[..]) && Ladder.Points(g, at) && AllStand(g, at, h.points[..], p)
    modifies h.heap, h.scalars, h.points
    ensures h.Heaped() && h.size == old(h.size) && AllFit(h.scalars[..], h.size, limbsize)
    ensures Keys(h.scalars[..]) == k[max1 := k[max1] - k[max2]]
    ensures AllStand(g, at, h.points[..], p[max2 := g.add(p[max2], p[max1])])
  {
    SubtractInto(h.scalars, max1, max2, h.size, limbsize, k);
    AddInto(h.points, max2, max1, g, at, p);
    h.UpdatedRoot(limbsize, k);
  }

  /** `sub256_modm_batch(scalars[i], scalars[i], scalars[j], limbsize)` */
  method SubtractInto(scalars: array<Num>, i: nat, j: nat, n: nat, limbsize: nat, ghost k: seq<int>)
    requires i < n <= scalars.Length && j < n && AllFit(scalars[..], n, limbsize) && AllFit(scalars[..], scalars.Length, 4)
    requires k == Keys(scalars[..]) && k[j] <= k[i]
    modifies scalars
    ensures AllFit(scalars[..], n, limbsize) && AllFit(scalars[..], scalars.Length, 4)
    ensures Keys(scalars[..]) == k[i := k[i] - k[j]]
  {
    assert Fits(scalars[i], limbsize) && Fits(scalars[j], limbsize);
    TruncatedSub(scalars[i], scalars[j], limbsize);
    var d := Sub(scalars[i], scalars[i], scalars[j], limbsize);
    DifferenceFits(scalars[..], scalars.Length, n, limbsize, i, d);
    scalars[i] := d;
    assert scalars[..] == old(scalars[..])[i := d];
  }

  /** `ge25519_add(&points[j], &points[j], &points[i])` */
  method AddInto<T(!new)>(points: array<Edwards.Ext>, j: nat, i: nat, ghost g: Group<T>, ghost at: T -> Edwards.Aff, ghost p: seq<T>)
    requires i < points.Length && j < points.Length && Ladder.Points(g, at) && AllStand(g, at, points[..], p)
    modifies points
    ensures AllStand(g, at, points[..], p[j := g.add(p[j], p[i])])
  {
    assert StandsAt(g, at, points[..], p, i) && StandsAt(g, at, points[..], p, j);
    var sum := AddElements(points[j], points[i], g, at, p[j], p[i]);
    StandReplaced(g, at, points[..], p, j, sum, g.add(p[j], p[i]));
    points[j] := sum;
    assert points[..] == old(points[..])[j := sum];
  }

  // ----- the main loop

  const TWO127: int := 0x80000000_00000000_00000000_00000000

  /** Before the heap is extended: either no limb has been dropped, or some scalar still has 127 bits. */
  ghost predicate Wide(s: seq<Num>, n: nat, limbsize: nat) {
    limbsize == 4 || (2 <= limbsize <= 4 && exists i :: 0 <= i < n <= |s| && TWO127 <= s[i].Val())
  }

  lemma WideMax(s: seq<Num>, n: nat, limbsize: nat, max: nat)
    requires AllFit(s, n, limbsize) && Wide(s, n, limbsize) && max < n
    requires forall i :: 0 <= i < n ==> s[i].Val() <= s[max].Val()
    requires Limb(s[max], limbsize) == 0
    ensures limbsize >= 3
  {
    assert Fits(s[max], limbsize);
    if limbsize == 2 { FitsBound(s[max], 2); }
  }

  /** A step at most halves the maximum. */
  lemma StaysWide(k: seq<int>, k': seq<int>, s: seq<Num>, n: nat, limbsize: nat, i: nat, j: nat)
    requires 2 <= limbsize <= 4 && n <= |s| && k' == Keys(s) && |k| == |k'| && i < n && j < n && i != j
    requires k' == k[i := k[i] - k[j]] && TWO128 <= k[i]
    ensures Wide(s, n, limbsize)
  {
    assert k'[i] + k'[j] == k[i];
    assert TWO127 <= s[if k'[i] >= k'[j] then i else j].Val();
  }

  /** The two largest scalars of the heap, at different indices, the largest at the root. */
  ghost predicate IsTop2<T>(h: Heap<T>, max1: nat, max2: nat)
    reads h, h.heap, h.scalars
  {
    && 0 < h.size <= h.scalars.Length && h.size <= h.heap.Length
    && max1 < h.size && max2 < h.size && max1 != max2 && max1 == h.heap[0]
    && (forall i :: 0 <= i < h.size ==> h.scalars[i].Val() <= h.scalars[max1].Val())
    && (forall i :: 0 <= i < h.size && i != max1 ==> h.scalars[i].Val() <= h.scalars[max2].Val())
  }

  /** The heap and its limb window: all the loop needs of the scalars' size. */
  ghost predicate Windowed<T>(h: Heap<T>, count: nat, limbsize: nat, extended: bool)
    reads h, h.heap, h.scalars, h.points
  {
    && h.Heaped() && 5 <= count == h.heap.Length && count % 2 == 1
    && h.size == (if extended then count else Built(count))
    && AllFit(h.scalars[..], h.size, limbsize)
    && (!extended ==> Wide(h.scalars[..], h.size, limbsize) && RestShort(h.scalars[..], h.size))
  }

  /** The scalars from n on have at most 128 bits. */
  ghost predicate RestShort(s: seq<Num>, n: nat) {
    forall i :: n <= i < |s| ==> s[i].Val() < TWO128
  }

  /** `if (!scalars[max1][limbsize]) limbsize -= 1` (lines 171-173): never below 0, and not below
      the 128 bits of the scalars still to come. */
  method Narrow<T>(h: Heap<T>, count: nat, limbsize: nat, extended: bool, max1: nat, max2: nat) returns (l: nat)
    requires Windowed(h, count, limbsize, extended) && IsTop2(h, max1, max2) && h.scalars[max2].Val() > 0
    ensures AllFit(h.scalars[..], h.size, l) && (!extended ==> 2 <= l)
  {
    l := limbsize;
    if Limb(h.scalars[max1], limbsize) == 0 {
      WindowShrinks(h.scalars[..], h.size, limbsize, max1);
      if !extended { WideMax(h.scalars[..], h.size, limbsize, max1); }
      l := limbsize - 1;
    }
  }

  /** `heap_extend` to the 128-bit scalars (line 177) keeps all scalars within the window. */
  method Widen<T>(h: Heap<T>, count: nat, limbsize: nat)
    requires h.Heaped() && h.size <= count == h.heap.Length && AllFit(h.scalars[..], h.size, limbsize) && 2 <= limbsize
    requires RestShort(h.scalars[..], h.size)
    modifies h.heap, h`size
    ensures h.Heaped() && h.size == count && AllFit(h.scalars[..], count, limbsize)
  {
    forall i | 0 <= i < count
      ensures Fits(h.scalars[i], limbsize)
    {
      assert Fits(h.scalars[i], 4) && (i < h.size ==> Fits(h.scalars[i], limbsize));
      if i >= h.size { ShortFits(h.scalars[i], limbsize); }
    }
    h.Extend(count);
  }

  /** `((count + 1) / 2) | 1`, the odd size the heap is first built with. */
  function Built(count: nat): (n: nat)
    ensures n % 2 == 1 && (2 * n == count + 1 || 2 * n == count + 3 || 2 * n == count || 2 * n == count + 2)
    ensures count >= 5 && count % 2 == 1 ==> 3 <= n <= count
  {
    var half := (count + 1) / 2;
    if half % 2 == 0 then half + 1 else half
  }

  /** Lines 171-180 of the loop: narrow the window, extend the heap if the largest scalar now has
      at most 128 bits, and take the top two again. */
  method Choose<T>(h: Heap<T>, count: nat, limbsize: nat, extended: bool, max1: nat, max2: nat)
    returns (limbsize': nat, extended': bool, m1: nat, m2: nat)
    requires Windowed(h, count, limbsize, extended) && IsTop2(h, max1, max2) && h.scalars[max2].Val() > 0
    modifies h.heap, h`size
    ensures h.Heaped() && AllFit(h.scalars[..], h.size, limbsize') && IsTop2(h, m1, m2) && h.scalars[m2].Val() > 0
    ensures h.size == (if extended' then count else Built(count)) && h.size >= old(h.size)
    ensures !extended' ==> 2 <= limbsize' && TWO128 <= h.scalars[m1].Val() && !extended
    ensures extended' && !extended ==> h.scalars[max1].Val() < TWO128
  {
    limbsize' := Narrow(h, count, limbsize, extended, max1, max2);
    extended', m1, m2 := extended, max1, max2;
    assert Fits(h.scalars[max1], 4);
    LimbTests(h.scalars[max1]);
    if !extended && AtMost128Bits(h.scalars[max1]) {
      Widen(h, count, limbsize');
      m1, m2 := h.GetTop2(limbsize');
      extended' := true;
      TopTwoPositive(h, max1, max2, m1, m2);
    }
  }

  lemma TopTwoPositive<T>(h: Heap<T>, a: nat, b: nat, m1: nat, m2: nat)
    requires IsTop2(h, m1, m2) && a < h.size && b < h.size && a != b
    requires h.scalars[a].Val() > 0 && h.scalars[b].Val() > 0
    ensures h.scalars[m2].Val() > 0
  {
  }

  /** One pass of the loop (lines 171-184). */
  method Iterate<T(!new)>(h: Heap<Edwards.Ext>, count: nat, limbsize: nat, extended: bool, max1: nat, max2: nat,
                          ghost k: seq<int>, ghost g: Group<T>, ghost at: T -> Edwards.Aff, ghost p: seq<T>)
    returns (limbsize': nat, extended': bool, ghost i: nat, ghost j: nat)
    requires Windowed(h, count, limbsize, extended) && IsTop2(h, max1, max2) && h.scalars[max2].Val() > 0
    requires k == Keys(h.scalars[..]) && Ladder.Points(g, at) && AllStand(g, at, h.points[..], p)
    modifies h, h.heap, h.scalars, h.points
    ensures Windowed(h, count, limbsize', extended') && h.size >= old(h.size)
    ensures i < h.size && j < h.size && i != j && 0 < k[j]
    ensures Keys(h.scalars[..]) == k[i := k[i] - k[j]] && AllStand(g, at, h.points[..], p[j := g.add(p[j], p[i])])
    ensures if extended' then !extended ==> k[max1] < TWO128 else TWO128 <= k[i]
  {
    var m1, m2;
    ghost var s := h.scalars[..];
    assert !extended ==> RestShort(s, h.size);
    limbsize', extended', m1, m2 := Choose(h, count, limbsize, extended, max1, max2);
    assert h.scalars[..] == s;
    i, j := m1, m2;
    Reduce(h, m1, m2, limbsize', k, g, at, p);
    if !extended' { StaysWindowed(s, h.scalars[..], k, h.size, limbsize', m1, m2); }
  }

  lemma StaysWindowed(s: seq<Num>, s': seq<Num>, k: seq<int>, n: nat, limbsize: nat, i: nat, j: nat)
    requires |s| == |s'| && k == Keys(s) && i < n <= |s| && j < n && i != j && 2 <= limbsize <= 4
    requires Keys(s') == k[i := k[i] - k[j]] && TWO128 <= k[i] && RestShort(s, n)
    ensures Wide(s', n, limbsize) && RestShort(s', n)
  {
    StaysWide(k, Keys(s'), s', n, limbsize, i, j);
    OthersShort(s, s', n, i, k[i] - k[j]);
  }

  /** Scalars outside the heap keep their bound. */
  lemma OthersShort(s: seq<Num>, s': seq<Num>, n: nat, i: nat, x: int)
    requires |s| == |s'| && i < n <= |s| && Keys(s') == Keys(s)[i := x] && RestShort(s, n)
    ensures RestShort(s', n)
  {
    forall l | n <= l < |s| ensures s'[l].Val() < TWO128 { assert Keys(s')[l] == Keys(s)[l]; }
  }

  // ----- when the heap is extended

  /** At least two of the first n scalars are positive. */
  predicate TwoPositive(k: seq<int>, n: nat) {
    n <= |k| && exists i: nat, j: nat {:trigger PositivePair(k, i, j)} :: i < n && j < n && PositivePair(k, i, j)
  }

  predicate PositivePair(k: seq<int>, i: nat, j: nat) {
    i < |k| && j < |k| && i != j && k[i] > 0 && k[j] > 0
  }

  /** The heap is extended to the 128-bit scalars exactly when the first n scalars, those it is built
      with, have two positive ones and a gcd of at most 128 bits. */
  ghost predicate Extends(k: seq<int>, n: nat) {
    TwoPositive(k, n) && Gcd(k, n) < TWO128
  }

  /** The number of entries that the result is about. */
  ghost function Used(k: seq<int>): (n: nat)
    ensures |k| >= 5 && |k| % 2 == 1 ==> n <= |k|
  {
    if Extends(k, Built(|k|)) then |k| else Built(|k|)
  }

  /** Two scalars with more than 128 bits between them. */
  predicate HeavyAt(k: seq<int>, n: nat, i: nat, j: nat) {
    i < n <= |k| && j < n && i != j && TWO128 <= k[i] + k[j]
  }

  ghost predicate Heavy(k: seq<int>, n: nat) {
    exists i, j :: HeavyAt(k, n, i, j)
  }

  /** After a pass: either the heap was extended, and the common divisor d of the scalars has at most
      128 bits, or two scalars are still heavy. */
  ghost predicate Tracked(k0: seq<int>, n: nat, k: seq<int>, extended: bool, d: nat) {
    TwoPositive(k0, n) && if extended then d < TWO128 else Heavy(k, n)
  }

  /** A common divisor is at most every positive scalar on the way. */
  lemma CommonBelow<T(!new)>(g: Group<T>, k: seq<int>, p: seq<T>, k0: seq<int>, p0: seq<T>, n: nat, hi: nat, max1: nat, d: nat)
    requires Conserved(g, k, p, k0, p0, n, hi) && max1 < n <= hi && n <= |k| && n <= |k0| && k[max1] > 0 && DividesAll(d, k0, n)
    ensures d <= k[max1]
  {
    assert ConservedAt(g, k, p, k0, p0, n);
    assert DividesAll(d, k, n);
    DivisorBound(d, k[max1]);
  }

  lemma StillHeavy(k: seq<int>, k': seq<int>, n: nat, i: nat, j: nat)
    requires i < n <= |k| && j < n && i != j && k' == k[i := k[i] - k[j]] && TWO128 <= k[i]
    ensures Heavy(k', n)
  {
    assert HeavyAt(k', n, i, j);
  }

  lemma HeavySurvivor(k: seq<int>, n: nat, max1: nat)
    requires n <= |k| && max1 < n && Heavy(k, n) && forall i :: 0 <= i < n && i != max1 ==> k[i] == 0
    ensures TWO128 <= k[max1]
  {
    var i, j :| HeavyAt(k, n, i, j);
  }

  lemma FirstLook<T>(h: Heap<T>, max1: nat, max2: nat, k: seq<int>)
    requires h.Valid() && IsTop2(h, max1, max2) && k == Keys(h.scalars[..])
    ensures h.scalars[max2].Val() != 0 <==> TwoPositive(k, h.size)
  {
    assert Fits(h.scalars[max2], 4);
    if h.scalars[max2].Val() != 0 {
      assert PositivePair(k, max1, max2);
    }
    if TwoPositive(k, h.size) {
      var i: nat, j: nat :| i < h.size && j < h.size && PositivePair(k, i, j);
      assert h.scalars[if i != max1 then i else j].Val() <= h.scalars[max2].Val();
    }
  }

  // ----- the whole multiplication

  /** The scalars for which the result is the sum over all entries: the final step is exact for the
      gcd, and every scalar outside the heap is zero. */
  ghost predicate Exact(k: seq<int>) {
    && |k| >= 5 && |k| % 2 == 1 && FinalMultiplier(Gcd(k, Used(k))) == Some(Gcd(k, Used(k)))
    && forall i :: Used(k) <= i < |k| ==> k[i] == 0
  }

  /** The element q that is left: its multiple by the gcd is the sum of the used entries, and what
      multiplies all points to the neutral element does so with q. */
  ghost predicate Remains<T(!new)>(g: Group<T>, k: seq<int>, p: seq<T>, q: T) {
    && |p| == |k| >= 5 && |k| % 2 == 1
    && g.mem(q) && Mul(g, Gcd(k, Used(k)), q) == Sum(g, k, p, Used(k))
    && (forall m: nat :: Exponent(g, m, p, |k|) ==> Mul(g, m, q) == g.zero)
  }

  /** Multi-scalar multiplication over the `count` entries of `h`, whose points stand for p0. It ends
      with the gcd of the used scalars and a point for an element q whose multiple by the gcd is the
      sum of the used entries. */
  method MultiScalarmult<T(!new)>(h: Heap<Edwards.Ext>, count: nat, ghost g: Group<T>, ghost at: T -> Edwards.Aff, ghost p0: seq<T>)
    returns (r: Option<Edwards.Ext>, ghost q: T)
    requires h.Valid() && 5 <= count == h.heap.Length && count % 2 == 1 && RestShort(h.scalars[..], Built(count))
    requires Ladder.Points(g, at) && AllStand(g, at, h.points[..], p0)
    modifies h, h.heap, h.scalars, h.points
    ensures var k0 := old(Keys(h.scalars[..]));
            && Remains(g, k0, p0, q) && IsMultiple(g, at, r, FinalMultiplier(Gcd(k0, Used(k0))), q)
            && (Exact(k0) ==> r.Some? && StandsFor(g, at, r.value, Sum(g, k0, p0, count)))
  {
    ghost var k0 := Keys(h.scalars[..]);
    h.Build(Built(count));
    StandMembers(g, at, h.points[..], p0);
    var max1, extended; ghost var p;
    max1, extended, p := Loop(h, count, k0, Gcd(k0, Built(count)), g, at, p0);
    assert Fits(h.scalars[max1], 4) && StandsAt(g, at, h.points[..], p, max1);
    q := p[max1];
    Survivor(g, Keys(h.scalars[..]), p, k0, p0, h.size, count, max1);
    if Exact(k0) { SumTail(g, k0, p0, h.size, count); }
    r := Final(h.points[max1], h.scalars[max1], h.scalars[max1].Val(), g, at, q);
  }

  lemma StandMembers<T>(g: Group<T>, at: T -> Edwards.Aff, x: seq<Edwards.Ext>, p: seq<T>)
    requires AllStand(g, at, x, p)
    ensures AllMem(g, p, |p|)
  {
    forall i: nat | i < |p| ensures g.mem(p[i]) { assert StandsAt(g, at, x, p, i); }
  }

  lemma {:induction false} SumTail<T(!new)>(g: Group<T>, k: seq<int>, p: seq<T>, n: nat, hi: nat)
    requires Abelian(g) && n <= hi <= |k| && AllMem(g, p, hi) && forall i :: n <= i < hi ==> k[i] == 0
    ensures Sum(g, k, p, hi) == Sum(g, k, p, n)
  {
    if n < hi {
      SumTail(g, k, p, n, hi - 1);
      SumMem(g, k, p, n);
      Law(g, Sum(g, k, p, n), Sum(g, k, p, n), Sum(g, k, p, n));
    }
  }

  /** The loop: it ends with one nonzero scalar at most, at `max1`; the points then stand for p. */
  method Loop<T(!new)>(h: Heap<Edwards.Ext>, count: nat, ghost k0: seq<int>, ghost d: nat,
                       ghost g: Group<T>, ghost at: T -> Edwards.Aff, ghost p0: seq<T>)
    returns (max1: nat, extended: bool, ghost p: seq<T>)
    requires Windowed(h, count, 4, false) && k0 == Keys(h.scalars[..]) && DividesAll(d, k0, Built(count))
    requires Ladder.Points(g, at) && AllStand(g, at, h.points[..], p0) && AllMem(g, p0, count)
    modifies h, h.heap, h.scalars, h.points
    ensures h.Valid() && h.size == (if extended then count else Built(count))
    ensures AllStand(g, at, h.points[..], p) && AllMem(g, p, count)
    ensures max1 < h.size && forall i :: 0 <= i < h.size && i != max1 ==> h.scalars[i].Val() == 0
    ensures Conserved(g, Keys(h.scalars[..]), p, k0, p0, h.size, count)
    ensures extended ==> TwoPositive(k0, Built(count)) && d < TWO128
    ensures !extended && TwoPositive(k0, Built(count)) ==> TWO128 <= h.scalars[max1].Val()
  {
    var limbsize: nat := 4;
    extended := false;
    var max2, done;
    max1, max2, done := TopTwo(h, count, limbsize, extended);
    FirstLook(h, max1, max2, k0);
    ghost var k := k0;
    p := p0;
    while !done
      invariant Windowed(h, count, limbsize, extended) && IsTop2(h, max1, max2)
      invariant done <==> h.scalars[max2].Val() == 0
      invariant k == Keys(h.scalars[..]) && AllStand(g, at, h.points[..], p)
      invariant AllMem(g, p, count) && Conserved(g, k, p, k0, p0, h.size, count)
      invariant Tracked(k0, Built(count), k, extended, d) || (!extended && (done <==> !TwoPositive(k0, Built(count))))
      decreases Total(k, count)
    {
      limbsize, extended, max1, max2, done, p := Advance(h, count, limbsize, extended, max1, max2, k, k0, d, g, at, p, p0);
      k := Keys(h.scalars[..]);
    }
    ZeroScalars(h, max1, max2);
    if !extended && TwoPositive(k0, Built(count)) { HeavySurvivor(k, h.size, max1); }
  }

  /** One pass and the next look at the top of the heap. */
  method Advance<T(!new)>(h: Heap<Edwards.Ext>, count: nat, limbsize: nat, extended: bool, max1: nat, max2: nat,
                          ghost k: seq<int>, ghost k0: seq<int>, ghost d: nat,
                          ghost g: Group<T>, ghost at: T -> Edwards.Aff, ghost p: seq<T>, ghost p0: seq<T>)
    returns (limbsize': nat, extended': bool, m1: nat, m2: nat, done: bool, ghost p': seq<T>)
    requires Windowed(h, count, limbsize, extended) && IsTop2(h, max1, max2) && h.scalars[max2].Val() != 0
    requires k == Keys(h.scalars[..]) && Ladder.Points(g, at) && AllStand(g, at, h.points[..], p)
    requires AllMem(g, p, count) && Conserved(g, k, p, k0, p0, h.size, count)
    requires TwoPositive(k0, Built(count)) && DividesAll(d, k0, Built(count)) && (extended ==> d < TWO128)
    modifies h, h.heap, h.scalars, h.points
    ensures Windowed(h, count, limbsize', extended') && IsTop2(h, m1, m2) && (done <==> h.scalars[m2].Val() == 0)
    ensures AllStand(g, at, h.points[..], p') && AllMem(g, p', count)
    ensures Conserved(g, Keys(h.scalars[..]), p', k0, p0, h.size, count)
    ensures 0 <= Total(Keys(h.scalars[..]), count) < Total(k, count)
    ensures Tracked(k0, Built(count), Keys(h.scalars[..]), extended', d)
  {
    PositiveScalar(h, max2);
    if !extended { CommonBelow(g, k, p, k0, p0, h.size, count, max1, d); }
    limbsize', extended', p' := Pass(h, count, limbsize, extended, max1, max2, k, k0, g, at, p, p0);
    TotalKeys(h.scalars[..], count);
    m1, m2, done := TopTwo(h, count, limbsize', extended');
  }

  lemma PositiveScalar<T>(h: Heap<T>, i: nat)
    requires h.Valid() && i < h.scalars.Length && h.scalars[i].Val() != 0
    ensures h.scalars[i].Val() > 0
  {
    assert Fits(h.scalars[i], 4);
  }

  lemma ZeroScalars<T>(h: Heap<T>, max1: nat, max2: nat)
    requires h.Valid() && IsTop2(h, max1, max2) && h.scalars[max2].Val() == 0
    ensures forall i :: 0 <= i < h.size && i != max1 ==> h.scalars[i].Val() == 0
  {
    forall i | 0 <= i < h.size && i != max1 ensures h.scalars[i].Val() == 0 { assert Fits(h.scalars[i], 4); }
  }

  /** `heap_get_top2`, and whether only one scalar remains (lines 165-169). */
  method TopTwo<T>(h: Heap<T>, count: nat, limbsize: nat, extended: bool) returns (max1: nat, max2: nat, done: bool)
    requires Windowed(h, count, limbsize, extended)
    ensures IsTop2(h, max1, max2) && (done <==> h.scalars[max2].Val() == 0)
  {
    max1, max2 := h.GetTop2(limbsize);
    assert Fits(h.scalars[max2], 4);
    LimbTests(h.scalars[max2]);
    done := IsZero(h.scalars[max2]);
  }

  /** One pass conserves the sum and the common divisors, and lowers the total. */
  method Pass<T(!new)>(h: Heap<Edwards.Ext>, count: nat, limbsize: nat, extended: bool, max1: nat, max2: nat,
                       ghost k: seq<int>, ghost k0: seq<int>, ghost g: Group<T>, ghost at: T -> Edwards.Aff, ghost p: seq<T>, ghost p0: seq<T>)
    returns (limbsize': nat, extended': bool, ghost p': seq<T>)
    requires Windowed(h, count, limbsize, extended) && IsTop2(h, max1, max2) && h.scalars[max2].Val() > 0
    requires k == Keys(h.scalars[..]) && Ladder.Points(g, at) && AllStand(g, at, h.points[..], p)
    requires AllMem(g, p, count) && Conserved(g, k, p, k0, p0, h.size, count)
    modifies h, h.heap, h.scalars, h.points
    ensures Windowed(h, count, limbsize', extended') && AllStand(g, at, h.points[..], p') && AllMem(g, p', count)
    ensures Conserved(g, Keys(h.scalars[..]), p', k0, p0, h.size, count)
    ensures Total(Keys(h.scalars[..]), count) < Total(k, count)
    ensures if extended' then !extended ==> k[max1] < TWO128 else Heavy(Keys(h.scalars[..]), h.size)
  {
    ghost var size, i, j := h.size, 0, 0;
    limbsize', extended', i, j := Iterate(h, count, limbsize, extended, max1, max2, k, g, at, p);
    p' := p[j := g.add(p[j], p[i])];
    if !extended' { StillHeavy(k, Keys(h.scalars[..]), size, i, j); }
    PassConserved(g, k, p, Keys(h.scalars[..]), p', k0, p0, size, h.size, count, i, j);
  }

  lemma PassConserved<T(!new)>(g: Group<T>, k: seq<int>, p: seq<T>, k': seq<int>, p': seq<T>, k0: seq<int>, p0: seq<T>,
                               size: nat, size': nat, count: nat, i: nat, j: nat)
    requires Abelian(g) && size <= size' <= count && Conserved(g, k, p, k0, p0, size, count) && AllMem(g, p, count) && count <= |k|
    requires i < size' && j < size' && i != j && 0 < k[j]
    requires k' == k[i := k[i] - k[j]] && p' == p[j := g.add(p[j], p[i])]
    ensures Conserved(g, k', p', k0, p0, size', count) && AllMem(g, p', count) && Total(k', count) < Total(k, count)
  {
    StepConserved(g, k, p, k', p', k0, p0, size, size', count, i, j);
    TotalUpdate(k, count, i, k[i] - k[j]);
  }

  lemma TotalKeys(s: seq<Num>, n: nat)
    requires AllFit(s, n, 4)
    ensures 0 <= Total(Keys(s), n)
  {
    forall i | 0 <= i < n ensures 0 <= Keys(s)[i] { assert Fits(s[i], 4); }
    TotalSign(Keys(s), n);
  }
}
