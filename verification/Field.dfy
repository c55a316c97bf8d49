/** Arithmetic modulo p = 2^255 - 19 (curve25519-donna-64bit.h): five 51-bit limbs that may
    outgrow their 51 bits between reductions. */
module Field {
  import opened Words

  const P: int := 0x7fffffff_ffffffff_ffffffff_ffffffff_ffffffff_ffffffff_ffffffff_ffffffed

  /** `bignum25519`; out-parameters of the source are results here. */
  datatype Fe = Fe(l0: int, l1: int, l2: int, l3: int, l4: int) {
    function Val(): int {
      Radix51(l0, l1, l2, l3, l4)
    }

    predicate Below(n: int) {
      0 <= l0 < n && 0 <= l1 < n && 0 <= l2 < n && 0 <= l3 < n && 0 <= l4 < n
    }
  }

  function Radix51(r0: int, r1: int, r2: int, r3: int, r4: int): int {
    r0 + 0x80000_00000000 * r1 + 0x40_00000000_00000000_00000000 * r2
    + 0x2000000_00000000_00000000_00000000_00000000 * r3
    + 0x1000_00000000_00000000_00000000_00000000_00000000_00000000 * r4
  }

  const LIMB: int := 0x80000_00000000

  /** 2^51 + 2^18: the limbs of a product, square or reduced sum. */
  const RED: int := 0x80000_00040000
  /** 2^53 - 76: the limbs of a sum or difference of two such numbers. */
  const MID: int := 0x1fffff_ffffffb4
  /** 2^54: what multiplication accepts. */
  const BIG: int := 0x400000_00000000

  /** Always true. Congruences are stated under this guard, so that the verifier looks into their
      integer equations only in the two lemmas that mention it. */
  predicate Opened(t: int) {
    true
  }

  /** a - b divided by p gives k with remainder r. */
  ghost predicate Divided(a: int, b: int, k: int, r: int) {
    forall t {:trigger Opened(t)} :: Opened(t) ==> a - b == P * k + r && 0 <= r < P
  }

  /** Equality in the field: a - b leaves no remainder. */
  ghost predicate Eqm(a: int, b: int) {
    forall k, r {:trigger Divided(a, b, k, r)} :: Divided(a, b, k, r) ==> r == 0
  }

  lemma EqmBy(a: int, b: int, k: int)
    requires a - b == P * k
    ensures Eqm(a, b)
  {
    forall j, r {:trigger Divided(a, b, j, r)} | Divided(a, b, j, r) ensures r == 0 {
      assert Opened(0);
      SmallMultiple(P, k - j);
    }
  }

  lemma EqmGap(a: int, b: int) returns (k: int)
    requires Eqm(a, b)
    ensures a == b + P * k
  {
    k := (a - b) / P;
    assert Divided(a, b, k, (a - b) % P);
  }

  // ----- addition and subtraction

  /** `curve25519_add` */
  method Add(a: Fe, b: Fe) returns (out: Fe)
    requires a.Below(RED) && b.Below(RED)
    ensures out.Below(MID) && Eqm(out.Val(), a.Val() + b.Val())
  {
    var o0: U64, o1: U64, o2: U64, o3: U64, o4: U64 := a.l0 + b.l0, a.l1 + b.l1, a.l2 + b.l2, a.l3 + b.l3, a.l4 + b.l4;
    out := Fe(o0, o1, o2, o3, o4);
    EqmBy(out.Val(), a.Val() + b.Val(), 0);
  }

  /** `curve25519_add_after_basic` */
  method AddAfterBasic(a: Fe, b: Fe) returns (out: Fe)
    requires a.Below(MID) && b.Below(MID)
    ensures out.Below(BIG) && Eqm(out.Val(), a.Val() + b.Val())
  {
    var o0: U64, o1: U64, o2: U64, o3: U64, o4: U64 := a.l0 + b.l0, a.l1 + b.l1, a.l2 + b.l2, a.l3 + b.l3, a.l4 + b.l4;
    out := Fe(o0, o1, o2, o3, o4);
    EqmBy(out.Val(), a.Val() + b.Val(), 0);
  }

  /** `curve25519_sub`: adds 2p first */
  method Sub(a: Fe, b: Fe) returns (out: Fe)
    requires a.Below(RED) && b.Below(RED)
    ensures out.Below(MID) && Eqm(out.Val(), a.Val() - b.Val())
  {
    var o0: U64, o1: U64, o2: U64, o3: U64, o4: U64 :=
      a.l0 + 0xfffffffffffda - b.l0, a.l1 + 0xffffffffffffe - b.l1, a.l2 + 0xffffffffffffe - b.l2,
      a.l3 + 0xffffffffffffe - b.l3, a.l4 + 0xffffffffffffe - b.l4;
    out := Fe(o0, o1, o2, o3, o4);
    EqmBy(out.Val(), a.Val() - b.Val(), 2);
  }

  /** `curve25519_sub_after_basic`: adds 4p first */
  method SubAfterBasic(a: Fe, b: Fe) returns (out: Fe)
    requires a.Below(MID) && b.Below(MID)
    ensures out.Below(BIG) && Eqm(out.Val(), a.Val() - b.Val())
  {
    var o0: U64, o1: U64, o2: U64, o3: U64, o4: U64 :=
      a.l0 + 0x1fffffffffffb4 - b.l0, a.l1 + 0x1ffffffffffffc - b.l1, a.l2 + 0x1ffffffffffffc - b.l2,
      a.l3 + 0x1ffffffffffffc - b.l3, a.l4 + 0x1ffffffffffffc - b.l4;
    out := Fe(o0, o1, o2, o3, o4);
    EqmBy(out.Val(), a.Val() - b.Val(), 4);
  }

  /** `c = x >> 51; x &= reduce_mask_51` */
  method Split(x: int) returns (r: int, c: int)
    requires 0 <= x < 0x80000_00000000_00000000_00000000
    ensures 0 <= r < LIMB && 0 <= c < W64 && x == r + 0x80000_00000000 * c
  {
    var lo := x % W64;
    r := lo % LIMB;
    c := x / LIMB;
    QuoRem(x, W64, c / 0x2000, x % LIMB + 0x80000_00000000 * (c % 0x2000));
    QuoRem(lo, LIMB, c % 0x2000, x % LIMB);
  }

  /** Carries five small limbs once around: `out[0] += c * 19` at the end. */
  method CarryAround(o0: int, o1: int, o2: int, o3: int, o4: int) returns (out: Fe)
    requires 0 <= o0 < BIG && 0 <= o1 < BIG && 0 <= o2 < BIG && 0 <= o3 < BIG && 0 <= o4 < BIG
    ensures out.Below(RED) && Eqm(out.Val(), Radix51(o0, o1, o2, o3, o4))
  {
    var r0, c0 := Split(o0);
    var r1, c1 := Split(o1 + c0);
    var r2, c2 := Split(o2 + c1);
    var r3, c3 := Split(o3 + c2);
    var r4, c4 := Split(o4 + c3);
    out := Fe(r0 + c4 * 19, r1, r2, r3, r4);
    EqmBy(out.Val(), Radix51(o0, o1, o2, o3, o4), -c4);
  }

  /** `curve25519_add_reduce` */
  method AddReduce(a: Fe, b: Fe) returns (out: Fe)
    requires a.Below(MID) && b.Below(MID)
    ensures out.Below(RED) && Eqm(out.Val(), a.Val() + b.Val())
  {
    out := CarryAround(a.l0 + b.l0, a.l1 + b.l1, a.l2 + b.l2, a.l3 + b.l3, a.l4 + b.l4);
    RadixSum(a, b);
  }

  lemma RadixSum(a: Fe, b: Fe)
    ensures Radix51(a.l0 + b.l0, a.l1 + b.l1, a.l2 + b.l2, a.l3 + b.l3, a.l4 + b.l4) == a.Val() + b.Val()
  {
  }

  /** `curve25519_sub_reduce` */
  method SubReduce(a: Fe, b: Fe) returns (out: Fe)
    requires a.Below(MID) && b.Below(MID)
    ensures out.Below(RED) && Eqm(out.Val(), a.Val() - b.Val())
  {
    var t := SubAfterBasic(a, b);
    out := CarryAround(t.l0, t.l1, t.l2, t.l3, t.l4);
    EqmTrans(out.Val(), t.Val(), a.Val() - b.Val());
  }

  lemma EqmTrans(a: int, b: int, c: int)
    requires Eqm(a, b) && Eqm(b, c)
    ensures Eqm(a, c)
  {
    var i := EqmGap(a, b);
    var j := EqmGap(b, c);
    EqmBy(a, c, i + j);
  }

  /** `curve25519_neg` */
  method Neg(a: Fe) returns (out: Fe)
    requires a.Below(RED)
    ensures out.Below(RED) && Eqm(out.Val(), -a.Val())
  {
    var t := Fe(0xfffffffffffda - a.l0, 0xffffffffffffe - a.l1, 0xffffffffffffe - a.l2,
                0xffffffffffffe - a.l3, 0xffffffffffffe - a.l4);
    assert t.Val() == 2 * P - a.Val() && t.Below(MID);
    out := CarryAround(t.l0, t.l1, t.l2, t.l3, t.l4);
    EqmBy(t.Val(), -a.Val(), 2);
    EqmTrans(out.Val(), t.Val(), -a.Val());
  }

  // ----- multiplication

  const PP: int := 0x1000_00000000_00000000_00000000

  lemma LimbProduct(a: int, b: int)
    requires 0 <= a < BIG && 0 <= b < BIG
    ensures 0 <= a * b < PP
  {
    ProductBelow(a, b, BIG, BIG);
  }

  lemma RowProducts(a: int, y: Fe)
    requires 0 <= a < BIG && y.Below(BIG)
    ensures 0 <= a * y.l0 < PP && 0 <= a * y.l1 < PP && 0 <= a * y.l2 < PP && 0 <= a * y.l3 < PP && 0 <= a * y.l4 < PP
  {
    LimbProduct(a, y.l0); LimbProduct(a, y.l1); LimbProduct(a, y.l2); LimbProduct(a, y.l3); LimbProduct(a, y.l4);
  }

  lemma Times(a: int, y: Fe)
    ensures a * y.Val() == Radix51(a * y.l0, a * y.l1, a * y.l2, a * y.l3, a * y.l4)
  {
  }

  lemma TimesLeft(x: Fe, v: int)
    ensures x.Val() * v == Radix51(x.l0 * v, x.l1 * v, x.l2 * v, x.l3 * v, x.l4 * v)
  {
  }

  /** The high columns of a product fold back with factor 19, because 2^255 = p + 19. */
  lemma FoldedProduct(x: Fe, y: Fe, t0: int, t1: int, t2: int, t3: int, t4: int)
    requires t0 == x.l0 * y.l0 + 19 * (x.l4 * y.l1 + x.l1 * y.l4 + x.l2 * y.l3 + x.l3 * y.l2)
    requires t1 == x.l0 * y.l1 + x.l1 * y.l0 + 19 * (x.l4 * y.l2 + x.l2 * y.l4 + x.l3 * y.l3)
    requires t2 == x.l0 * y.l2 + x.l2 * y.l0 + x.l1 * y.l1 + 19 * (x.l4 * y.l3 + x.l3 * y.l4)
    requires t3 == x.l0 * y.l3 + x.l3 * y.l0 + x.l1 * y.l2 + x.l2 * y.l1 + 19 * (x.l4 * y.l4)
    requires t4 == x.l0 * y.l4 + x.l4 * y.l0 + x.l3 * y.l1 + x.l1 * y.l3 + x.l2 * y.l2
    ensures Eqm(Radix51(t0, t1, t2, t3, t4), x.Val() * y.Val())
  {
    Times(x.l0, y); Times(x.l1, y); Times(x.l2, y); Times(x.l3, y); Times(x.l4, y);
    var v := y.Val();
    TimesLeft(x, v);
    var h := Radix51(x.l4 * y.l1 + x.l1 * y.l4 + x.l2 * y.l3 + x.l3 * y.l2,
                     x.l4 * y.l2 + x.l2 * y.l4 + x.l3 * y.l3, x.l4 * y.l3 + x.l3 * y.l4, x.l4 * y.l4, 0);
    assert Radix51(t0, t1, t2, t3, t4) - x.Val() * v == -P * h;
    EqmBy(Radix51(t0, t1, t2, t3, t4), x.Val() * v, -h);
  }

  /** The carry chain of lines 158-164. */
  method CarryProduct(t0: int, t1: int, t2: int, t3: int, t4: int) returns (out: Fe)
    requires 0 <= t0 < 77 * PP && 0 <= t1 < 77 * PP && 0 <= t2 < 77 * PP && 0 <= t3 < 77 * PP && 0 <= t4 < 5 * PP
    ensures out.Below(RED) && Eqm(out.Val(), Radix51(t0, t1, t2, t3, t4))
  {
    var s0: U128 := t0;
    var r0, c0 := Split(s0);
    var s1: U128 := t1 + c0;
    var r1, c1 := Split(s1);
    var s2: U128 := t2 + c1;
    var r2, c2 := Split(s2);
    var s3: U128 := t3 + c2;
    var r3, c3 := Split(s3);
    var s4: U128 := t4 + c3;
    var r4, c4 := Split(s4);
    var w: U64 := r0 + c4 * 19;
    var w0, c := Split(w);
    out := Fe(w0, r1 + c, r2, r3, r4);
    EqmBy(out.Val(), Radix51(t0, t1, t2, t3, t4), -c4);
  }

  /** `curve25519_mul` */
  method Multiply(in2: Fe, in1: Fe) returns (out: Fe)
    requires in2.Below(BIG) && in1.Below(BIG)
    ensures out.Below(RED) && Eqm(out.Val(), in2.Val() * in1.Val())
  {
    var r0, r1, r2, r3, r4 := in1.l0, in1.l1, in1.l2, in1.l3, in1.l4;
    var s0, s1, s2, s3, s4 := in2.l0, in2.l1, in2.l2, in2.l3, in2.l4;
    RowProducts(r0, in2); RowProducts(r1, in2); RowProducts(r2, in2); RowProducts(r3, in2); RowProducts(r4, in2);
    var t0: U128 := r0 * s0;
    var t1: U128 := r0 * s1 + r1 * s0;
    var t2: U128 := r0 * s2 + r2 * s0 + r1 * s1;
    var t3: U128 := r0 * s3 + r3 * s0 + r1 * s2 + r2 * s1;
    var t4: U128 := r0 * s4 + r4 * s0 + r3 * s1 + r1 * s3 + r2 * s2;
    var q1: U64, q2: U64, q3: U64, q4: U64 := r1 * 19, r2 * 19, r3 * 19, r4 * 19;
    Nineteen(q1, r1, in2); Nineteen(q2, r2, in2); Nineteen(q3, r3, in2); Nineteen(q4, r4, in2);
    var u0: U128 := t0 + (q4 * s1 + q1 * s4 + q2 * s3 + q3 * s2);
    var u1: U128 := t1 + (q4 * s2 + q2 * s4 + q3 * s3);
    var u2: U128 := t2 + (q4 * s3 + q3 * s4);
    var u3: U128 := t3 + q4 * s4;
    out := CarryProduct(u0, u1, u2, u3, t4);
    FoldedProduct(in1, in2, u0, u1, u2, u3, t4);
    assert in1.Val() * in2.Val() == in2.Val() * in1.Val();
    EqmTrans(out.Val(), Radix51(u0, u1, u2, u3, t4), in2.Val() * in1.Val());
  }

  lemma Nineteen(q: int, r: int, s: Fe)
    requires q == r * 19
    ensures q * s.l1 == 19 * (r * s.l1) && q * s.l2 == 19 * (r * s.l2) && q * s.l3 == 19 * (r * s.l3) && q * s.l4 == 19 * (r * s.l4)
  {
  }

  // ----- squaring

  lemma SquareProducts(r: Fe)
    requires r.Below(BIG)
    ensures 0 <= r.l0 * r.l0 < PP && 0 <= r.l0 * r.l1 < PP && 0 <= r.l0 * r.l2 < PP && 0 <= r.l0 * r.l3 < PP
    ensures 0 <= r.l0 * r.l4 < PP && 0 <= r.l1 * r.l1 < PP && 0 <= r.l1 * r.l2 < PP && 0 <= r.l1 * r.l3 < PP
    ensures 0 <= r.l4 * r.l1 < PP && 0 <= r.l2 * r.l2 < PP && 0 <= r.l2 * r.l3 < PP && 0 <= r.l4 * r.l2 < PP
    ensures 0 <= r.l3 * r.l3 < PP && 0 <= r.l4 * r.l3 < PP && 0 <= r.l4 * r.l4 < PP
  {
    RowProducts(r.l0, r); RowProducts(r.l1, r); RowProducts(r.l2, r); RowProducts(r.l3, r); RowProducts(r.l4, r);
  }

  /** A factor moved out of a product. */
  lemma Scaled(d: int, k: int, a: int, b: int)
    requires d == k * a
    ensures d * b == k * (a * b)
  {
  }

  /** The five columns of a square, from ten products. */
  method SquareColumns(r: Fe) returns (t0: int, t1: int, t2: int, t3: int, t4: int)
    requires r.Below(BIG)
    ensures 0 <= t0 < 77 * PP && 0 <= t1 < 77 * PP && 0 <= t2 < 77 * PP && 0 <= t3 < 77 * PP && 0 <= t4 < 5 * PP
    ensures Eqm(Radix51(t0, t1, t2, t3, t4), r.Val() * r.Val())
  {
    var d0: U64, d1: U64, d2: U64, d419: U64, r319: U64 := r.l0 * 2, r.l1 * 2, r.l2 * 2 * 19, r.l4 * 19, r.l3 * 19;
    var d4: U64 := d419 * 2;
    SquareProducts(r);
    Scaled(d4, 38, r.l4, r.l1); Scaled(d4, 38, r.l4, r.l2); Scaled(d4, 38, r.l4, r.l3);
    Scaled(d2, 38, r.l2, r.l3); Scaled(r319, 19, r.l3, r.l3); Scaled(d419, 19, r.l4, r.l4);
    Scaled(d0, 2, r.l0, r.l1); Scaled(d0, 2, r.l0, r.l2); Scaled(d0, 2, r.l0, r.l3); Scaled(d0, 2, r.l0, r.l4);
    Scaled(d1, 2, r.l1, r.l2); Scaled(d1, 2, r.l1, r.l3);
    var u0: U128 := r.l0 * r.l0 + d4 * r.l1 + d2 * r.l3;
    var u1: U128 := d0 * r.l1 + d4 * r.l2 + r.l3 * r319;
    var u2: U128 := d0 * r.l2 + r.l1 * r.l1 + d4 * r.l3;
    var u3: U128 := d0 * r.l3 + d1 * r.l2 + r.l4 * d419;
    var u4: U128 := d0 * r.l4 + d1 * r.l3 + r.l2 * r.l2;
    t0, t1, t2, t3, t4 := u0, u1, u2, u3, u4;
    FoldedProduct(r, r, t0, t1, t2, t3, t4);
  }

  /** `curve25519_square` */
  method Square(a: Fe) returns (out: Fe)
    requires a.Below(BIG)
    ensures out.Below(RED) && Eqm(out.Val(), a.Val() * a.Val())
  {
    var t0, t1, t2, t3, t4 := SquareColumns(a);
    out := CarryProduct(t0, t1, t2, t3, t4);
    EqmTrans(out.Val(), Radix51(t0, t1, t2, t3, t4), a.Val() * a.Val());
  }

  /** The shorter carry chain inside `curve25519_square_times`: every column is split first, and
      `shl128(c, t, 13)` is t >> 51 because t < 2^115. */
  method CarryParallel(t0: int, t1: int, t2: int, t3: int, t4: int) returns (out: Fe)
    requires 0 <= t0 < 77 * PP && 0 <= t1 < 77 * PP && 0 <= t2 < 77 * PP && 0 <= t3 < 77 * PP && 0 <= t4 < 5 * PP
    ensures out.Below(RED) && Eqm(out.Val(), Radix51(t0, t1, t2, t3, t4))
  {
    var a0, c0 := Split(t0);
    var a1, c1 := Split(t1);
    var a2, c2 := Split(t2);
    var a3, c3 := Split(t3);
    var a4, c4 := Split(t4);
    var b0: U64, b1: U64, b2: U64, b3: U64, b4: U64 := a0 + c4 * 19, a1 + c0, a2 + c1, a3 + c2, a4 + c3;
    var r0, d0 := Split(b0);
    var e1: U64 := b1 + d0;
    var r1, d1 := Split(e1);
    var e2: U64 := b2 + d1;
    var r2, d2 := Split(e2);
    var e3: U64 := b3 + d2;
    var r3, d3 := Split(e3);
    var e4: U64 := b4 + d3;
    var r4, d4 := Split(e4);
    out := Fe(r0 + d4 * 19, r1, r2, r3, r4);
    EqmBy(out.Val(), Radix51(t0, t1, t2, t3, t4), -(c4 + d4));
  }

  /** One round of `curve25519_square_times`. */
  method SquareRound(a: Fe) returns (out: Fe)
    requires a.Below(BIG)
    ensures out.Below(RED) && Eqm(out.Val(), a.Val() * a.Val())
  {
    var t0, t1, t2, t3, t4 := SquareColumns(a);
    out := CarryParallel(t0, t1, t2, t3, t4);
    EqmTrans(out.Val(), Radix51(t0, t1, t2, t3, t4), a.Val() * a.Val());
  }

  // ----- bytes

  /** `curve25519_expand`: the top bit of the last byte is ignored. */
  method Expand(inp: seq<U8>) returns (out: Fe)
    requires |inp| == 32
    ensures out.Below(LIMB) && out.Val() == LE(inp) % TWO255
  {
    LoadTop(inp, 0);
    assert inp[0..] == inp;
    out := ExpandWords(Load64(inp, 0), Load64(inp, 8), Load64(inp, 16), Load64(inp, 24));
  }

  method ExpandWords(x0: int, x1: int, x2: int, x3: int) returns (out: Fe)
    requires 0 <= x0 < W64 && 0 <= x1 < W64 && 0 <= x2 < W64 && 0 <= x3 < W64
    ensures out.Below(LIMB) && out.Val() == Radix64(x0, x1, x2, x3) % TWO255
  {
    var r1 := Funnel(x0, x1, LIMB, 0x2000, 0x40_0000_0000, 0x2000);
    var r2 := Funnel(x1, x2, 0x40_0000_0000, 0x400_0000, 0x200_0000, 0x2000);
    var r3 := Funnel(x2, x3, 0x200_0000, 0x80_0000_0000, 0x1000, 0x2000);
    out := Fe(x0 % LIMB, r1, r2, r3, x3 / 0x1000 % LIMB);
    CanonicalValue(out);
    QuoRem(Radix64(x0, x1, x2, x3), TWO255, x3 / 0x1000 / LIMB, out.Val());
  }

  lemma CanonicalValue(t: Fe)
    requires t.Below(LIMB)
    ensures 0 <= t.Val() < TWO255
  {
  }

  /** `curve25519_contract_carry`, and the two numbers its callers take from it. */
  method CarryUp(t: Fe) returns (r: Fe, top: int)
    requires t.Below(0x800000_00000000)
    ensures r.Below(LIMB) && r.Val() == t.Val() % TWO255 && top == t.Val() / TWO255
  {
    var r0, c0 := Split(t.l0);
    var r1, c1 := Split(t.l1 + c0);
    var r2, c2 := Split(t.l2 + c1);
    var r3, c3 := Split(t.l3 + c2);
    var r4, c4 := Split(t.l4 + c3);
    r, top := Fe(r0, r1, r2, r3, r4), c4;
    CanonicalValue(r);
    QuoRem(t.Val(), TWO255, top, r.Val());
  }

  /** `curve25519_contract_carry_full` */
  method CarryFull(t: Fe) returns (r: Fe)
    requires t.Below(0x800000_00000000)
    ensures 0 <= r.l0 && r.l1 < LIMB && r.l2 < LIMB && r.l3 < LIMB && r.l4 < LIMB
    ensures r.Val() == t.Val() % TWO255 + 19 * (t.Val() / TWO255)
    ensures t.Val() < TWO255 + 190 ==> r.Below(LIMB)
    ensures r.Below(LIMB + 19 * 17)
  {
    var u, top := CarryUp(t);
    r := Fe(u.l0 + 19 * top, u.l1, u.l2, u.l3, u.l4);
  }

  /** `curve25519_contract`: the 32 bytes of the least residue. */
  method Contract(a: Fe) returns (out: seq<U8>)
    requires a.Below(BIG)
    ensures |out| == 32 && LE(out) == a.Val() % P
  {
    var u := Settle(a);
    var w := LeastResidue(u);
    SameResidue(u.Val(), a.Val());
    out := Write51(w);
  }

  /** Two full carries leave a carried number below 2^255. */
  method Settle(a: Fe) returns (u: Fe)
    requires a.Below(BIG)
    ensures u.Below(LIMB) && Eqm(u.Val(), a.Val())
  {
    var t := CarryFull(a);
    NearlyReduced(a, t);
    u := CarryFull(t);
    FoldTop(a.Val(), t.Val());
    FoldTop(t.Val(), u.Val());
    EqmTrans(u.Val(), t.Val(), a.Val());
  }

  /** Adding 19 finds out whether the number is p or more; removing 19 leaves it reduced. */
  method LeastResidue(u: Fe) returns (w: Fe)
    requires u.Below(LIMB)
    ensures w.Below(LIMB) && w.Val() == u.Val() % P
  {
    var v := AddNineteen(u);
    w := AddModulus(v);
  }

  method AddNineteen(u: Fe) returns (v: Fe)
    requires u.Below(LIMB)
    ensures v.Below(LIMB) && v.Val() == u.Val() % P + 19
  {
    CanonicalValue(u);
    var t := Fe(u.l0 + 19, u.l1, u.l2, u.l3, u.l4);
    v := CarryFull(t);
    AtLeastP(u.Val(), t.Val(), v.Val());
  }

  /** u + 19 carries out of 255 bits exactly when u >= p. */
  lemma AtLeastP(u: int, t: int, v: int)
    requires 0 <= u < TWO255 && t == u + 19 && v == t % TWO255 + 19 * (t / TWO255)
    ensures v == u % P + 19
  {
    var k := if u < P then 0 else 1;
    QuoRem(t, TWO255, k, t - TWO255 * k);
    QuoRem(u, P, k, u - P * k);
  }

  method AddModulus(v: Fe) returns (w: Fe)
    requires v.Below(LIMB) && 19 <= v.Val()
    ensures w.Below(LIMB) && w.Val() == v.Val() - 19
  {
    CanonicalValue(v);
    var t := Fe(v.l0 + (LIMB - 19), v.l1 + (LIMB - 1), v.l2 + (LIMB - 1), v.l3 + (LIMB - 1), v.l4 + (LIMB - 1));
    assert t.Val() == v.Val() + TWO255 - 19;
    var top;
    w, top := CarryUp(t);
    QuoRem(t.Val(), TWO255, 1, v.Val() - 19);
  }

  /** One full carry leaves a number below 2^54 limbs at most 8 * 19 above 2^255. */
  lemma NearlyReduced(a: Fe, t: Fe)
    requires a.Below(BIG) && t.Val() == a.Val() % TWO255 + 19 * (a.Val() / TWO255)
    ensures 0 <= t.Val() < TWO255 + 171
  {
    assert 0 <= a.Val() < 9 * TWO255;
    var q, r := a.Val() / TWO255, a.Val() % TWO255;
    assert a.Val() == TWO255 * q + r;
  }

  lemma SameResidue(a: int, b: int)
    requires Eqm(a, b)
    ensures a % P == b % P
  {
    var k := EqmGap(a, b);
    QuoRem(a, P, b / P + k, b % P);
  }

  lemma FoldTop(a: int, t: int)
    requires t == a % TWO255 + 19 * (a / TWO255)
    ensures Eqm(t, a)
  {
    EqmBy(t, a, -(a / TWO255));
  }

  /** The `write51` sequence: five 51-bit limbs as four 64-bit words. */
  method Write51(t: Fe) returns (out: seq<U8>)
    requires t.Below(LIMB)
    ensures |out| == 32 && LE(out) == t.Val()
  {
    var w0 := Pack64(t.l0, t.l1, 0x2000, LIMB);
    var w1 := Pack64(t.l1 / 0x2000, t.l2, 0x400_0000, 0x40_0000_0000);
    var w2 := Pack64(t.l2 / 0x400_0000, t.l3, 0x80_0000_0000, 0x200_0000);
    var w3 := Pack64(t.l3 / 0x80_0000_0000, t.l4, 0x10_0000_0000_0000, 0x1000);
    FourWords(t, w0, w1, w2, w3);
    out := Store64(w0) + (Store64(w1) + (Store64(w2) + Store64(w3)));
    StoreWords(w0, w1, w2, w3);
  }

  lemma FourWords(t: Fe, w0: int, w1: int, w2: int, w3: int)
    requires t.Below(LIMB) && w0 == t.l0 + 0x8_0000_0000_0000 * (t.l1 % 0x2000)
    requires w1 == t.l1 / 0x2000 + 0x40_0000_0000 * (t.l2 % 0x400_0000)
    requires w2 == t.l2 / 0x400_0000 + 0x200_0000 * (t.l3 % 0x80_0000_0000)
    requires w3 == t.l3 / 0x80_0000_0000 + 0x1000 * (t.l4 % 0x10_0000_0000_0000)
    ensures t.Val() == Radix64(w0, w1, w2, w3)
  {
    QuoRem(t.l4, 0x10_0000_0000_0000, 0, t.l4);
    assert t.l1 == 0x2000 * (t.l1 / 0x2000) + t.l1 % 0x2000;
    assert t.l2 == 0x400_0000 * (t.l2 / 0x400_0000) + t.l2 % 0x400_0000;
    assert t.l3 == 0x80_0000_0000 * (t.l3 / 0x80_0000_0000) + t.l3 % 0x80_0000_0000;
  }

  /** What `Contract` promises of its output. */
  ghost predicate IsEncoding(b: seq<U8>, v: int) {
    |b| == 32 && LE(b) == v % P
  }

  /** Two encodings are the same bytes exactly when the numbers are equal in the field. */
  lemma EncodingsAgree(a: seq<U8>, v: int, b: seq<U8>, w: int)
    requires IsEncoding(a, v) && IsEncoding(b, w)
    ensures a == b <==> Eqm(v, w)
  {
    if a == b {
      EqmBy(v, w, v / P - w / P);
    } else if Eqm(v, w) {
      SameResidue(v, w);
      LEInjective(a, b);
      assert false;
    }
  }

  /** Contracting an expanded string gives back every canonical string, and only those. */
  method ExpandContract(b: seq<U8>) returns (out: seq<U8>)
    requires |b| == 32
    ensures out == b <==> LE(b) < P
  {
    var x := Expand(b);
    out := Contract(x);
    if LE(b) < P {
      QuoRem(LE(b), TWO255, 0, LE(b));
      QuoRem(LE(b), P, 0, LE(b));
      LEInjective(out, b);
    }
  }
}
