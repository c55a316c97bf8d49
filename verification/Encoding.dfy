/** Point encoding and decoding (`ge25519_pack` and `ge25519_unpack_negative_vartime`,
    ed25519-donna-impl-base.h, lines 179-239; sections 5.1.2 and 5.1.3 of RFC 8032). */
module Encoding {
  import opened Words
  import opened Pow2s
  import opened Primes
  import opened Field
  import opened FieldRing
  import opened FieldPow
  import opened FieldPrime
  import opened Edwards

  // ----- the last byte

  lemma {:induction false} LELast(s: seq<U8>)
    requires |s| > 0
    ensures LE(s) == LE(s[..|s| - 1]) + Pow256(|s| - 1) * s[|s| - 1]
  {
    if |s| > 1 {
      var t := s[1..];
      LELast(t);
      assert t[..|t| - 1] == s[..|s| - 1][1..] && t[|t| - 1] == s[|s| - 1];
      assert 0x100 * (Pow256(|t| - 1) * s[|s| - 1]) == Pow256(|s| - 1) * s[|s| - 1];
    } else {
      assert s[1..] == [] && s[..0] == [];
    }
  }

  /** A 32-byte number is its low 248 bits and its last byte. */
  lemma LastByte(s: seq<U8>)
    requires |s| == 32
    ensures LE(s) == LE(s[..31]) + TWO248 * s[31] && 0 <= LE(s[..31]) < TWO248
  {
    LELast(s);
    LEBound(s[..31], Pow256(31));
    Pow256Of32();
  }

  lemma TopBitIs(s: seq<U8>)
    requires |s| == 32
    ensures s[31] / 128 == LE(s) / TWO255 && (s[31] < 128 <==> LE(s) < TWO255)
  {
    LastByte(s);
    QuoRem(LE(s), TWO255, s[31] / 128, LE(s[..31]) + TWO248 * (s[31] % 128));
  }

  /** Flipping the top bit of a number below 2^255 adds 2^255. */
  lemma FlipTop(s: seq<U8>, t: seq<U8>)
    requires |s| == 32 && LE(s) < TWO255 && s[31] < 128 && t == s[31 := s[31] + 128]
    ensures LE(t) == LE(s) + TWO255
  {
    LastByte(s);
    LastByte(t);
    assert t[..31] == s[..31];
  }

  // ----- encoding

  /** y in 255 bits, the parity of x in the top bit. */
  ghost predicate Encoded(b: seq<U8>, u: Aff) {
    |b| == 32 && LE(b) == u.y % P + TWO255 * (u.x % P % 2)
  }

  /** Equal encodings are equal points up to the sign that parity decides. */
  lemma EncodedUnique(a: seq<U8>, b: seq<U8>, u: Aff, v: Aff)
    requires Encoded(a, u) && Encoded(b, v) && Eqm(u.x, v.x) && Eqm(u.y, v.y)
    ensures a == b
  {
    SameResidue(u.x, v.x);
    SameResidue(u.y, v.y);
    LEInjective(a, b);
  }

  /** x z divided by z. */
  lemma Divide(px: int, pz: int, zi: int, x: int)
    requires Eqm(px, x * pz) && Eqm(zi * pz, 1)
    ensures Eqm(px * zi, x)
  {
    EqmRefl(zi);
    EqmMul(px, x * pz, zi, zi);
    EqmScale(x, zi * pz, 1);
    assert x * pz * zi == x * (zi * pz);
    EqmTrans(px * zi, x * (zi * pz), x);
  }

  /** Affine coordinates from projective ones. */
  method Affine(p: Ext, ghost u: Aff) returns (tx: Fe, ty: Fe)
    requires Prime(P) && Partial(p, u)
    ensures tx.Below(RED) && ty.Below(RED) && Is(tx, u.x) && Is(ty, u.y)
  {
    ghost var z :| ProjZ(p, u, z);
    var zi := Recip(p.z);
    InverseOf(p.z, zi, z);
    ghost var w := zi.Val();
    EqmRefl(w);
    IsEqm(zi, w);
    tx := MulTo(p.x, zi, u.x * z, w);
    ty := MulTo(p.y, zi, u.y * z, w);
    EqmRefl(u.x * z);
    EqmRefl(u.y * z);
    Divide(u.x * z, z, w, u.x);
    Divide(u.y * z, z, w, u.y);
    IsTrans(tx, u.x * z * w, u.x);
    IsTrans(ty, u.y * z * w, u.y);
  }

  lemma InverseOf(pz: Fe, zi: Fe, z: int)
    requires Prime(P) && Unit(z) && Is(pz, z) && IsPow(zi, pz.Val(), Pow2(255) - 21)
    ensures Eqm(zi.Val() * z, 1)
  {
    IsEqm(pz, z);
    UnitEqm(z, pz.Val());
    RecipInverts(zi, pz.Val());
    EqmSym(pz.Val(), z);
    EqmScale(zi.Val(), z, pz.Val());
    EqmTrans(zi.Val() * z, zi.Val() * pz.Val(), 1);
  }

  /** `ge25519_pack`: the encoding does not depend on the projective coordinates. */
  method Pack(p: Ext, ghost u: Aff) returns (r: seq<U8>)
    requires Prime(P) && Partial(p, u)
    ensures Encoded(r, u)
  {
    var tx, ty := Affine(p, u);
    r := ContractTo(ty, u.y);
    var parity := ContractTo(tx, u.x);
    r := WithParity(r, parity[0], u);
  }

  /** `r[31] ^= ((parity[0] & 1) << 7)` on a number below 2^255. */
  method WithParity(y: seq<U8>, parity: U8, ghost u: Aff) returns (r: seq<U8>)
    requires |y| == 32 && LE(y) == u.y % P && parity % 2 == u.x % P % 2
    ensures Encoded(r, u)
  {
    r := y;
    TopBitIs(y);
    if parity % 2 == 1 {
      r := y[31 := (y[31] + 128) % 256];
      FlipTop(y, r);
    }
  }

  /** The least residue in bytes. */
  method ContractTo(a: Fe, ghost x: int) returns (out: seq<U8>)
    requires a.Below(RED) && Is(a, x)
    ensures |out| == 32 && LE(out) == x % P && out[0] % 2 == x % P % 2
  {
    IsEqm(a, x);
    out := Contract(a);
    SameResidue(a.Val(), x);
    FirstByte(out);
  }

  lemma FirstByte(s: seq<U8>)
    requires |s| > 0
    ensures s[0] % 2 == LE(s) % 2
  {
    var rest := LE(s[1..]);
    assert LE(s) == s[0] + 0x100 * rest;
  }

  // ----- decoding

  /** `ge25519_sqrtneg1` */
  const SQRTM1: Fe := Fe(0x61b274a0ea0b0, 0xd5a5fc8f189d, 0x7ef5e9cbd0c60, 0x78595a6804c9e, 0x2b8324804fc1d)

  const I: int := 0x2b832480_4fc1df0b_2b4d0099_3dfbd7a7_2f431806_ad2fe478_c4ee1b27_4a0ea0b0

  lemma MinusOneRoot()
    ensures Is(SQRTM1, I) && SQRTM1.Below(LIMB) && Eqm(I * I, -1)
  {
    EqmBy(SQRTM1.Val(), I, 0);
    IsEqm(SQRTM1, I);
    EqmBy(I * I, -1, 0xecaa2e2_f6a2302c_cedb31ac_05720688_238ced20_78f3eb0e_c9f22e8f_621972e5);
  }

  /** x^2 (d y^2 + 1) = y^2 - 1 is the curve equation. */
  lemma CurveForm(x: int, y: int)
    ensures Eqm(x * x * (y * y * D() + 1), y * y - 1) <==> OnCurve(Aff(x, y))
  {
    var u := Aff(x, y);
    var k, xx, n := K(u, u), x * x, y * y - 1;
    KValue(u, u);
    assert xx * (y * y * D() + 1) == k + xx by {
      assert xx * (y * y * D() + 1) == xx * (y * y * D()) + xx;
      assert xx * (y * y * D()) == D() * (xx * (y * y));
    }
    EqmRefl(1 - xx);
    EqmRefl(xx - 1);
    if Eqm(k + xx, n) {
      EqmAdd(k + xx, n, 1 - xx, 1 - xx);
      EqmSym(k + 1, n + 1 - xx);
    }
    if OnCurve(u) {
      EqmAdd(y * y - xx, 1 + k, xx - 1, xx - 1);
      EqmSym(n, k + xx);
    }
  }

  /** The candidate root: with w = n e^7 and g = w^((p-5)/8), c = g e^3 n. */
  lemma CandidateSquare(n: int, e: int, g: int)
    ensures var d3 := e * e * e; var w := d3 * d3 * e * n; var c := g * d3 * n;
            c * c * e == (g * g * w) * n
  {
    var d3 := e * e * e;
    var gd := g * d3;
    assert (gd * n) * (gd * n) == (gd * gd) * (n * n);
    assert gd * gd == (g * g) * (d3 * d3);
    var gg, dd := g * g, d3 * d3;
    assert (gg * dd) * (n * n) * e == gg * (dd * e * n) * n;
  }

  /** If n / e is a square then w^((p-1)/4) squares to 1. */
  lemma QuarterPower(w: int, h: int, g: int)
    requires Prime(P) && Unit(h) && Eqm(w, h * h) && PowEq(g, w, Pow2(252) - 3)
    ensures Eqm(g * g * w, 1) || Eqm(g * g * w, -1)
  {
    var e := Pow2(252) - 3;
    Pow2Add(252, 3);
    ExponentIs();
    assert Pow2(3) == 8;
    var s := g * g * w;
    PowOne(w);
    EqmRefl(g * g);
    EqmRefl(s);
    EqmRefl(s * s);
    PowProduct(g * g, g, g, w, e, e);
    PowProduct(s, g * g, w, w, 2 * e, 1);
    PowProduct(s * s, s, s, w, 2 * e + 1, 2 * e + 1);
    PowOne(h);
    PowProduct(w, h, h, h, 1, 1);
    PowPower(s * s, w, h, 2, 4 * e + 2);
    FermatField(h);
    PowUnique(s * s, 1, h, P - 1);
    SquareRoots(s, 1);
  }

  /** One of the two candidates is a root whenever there is one. */
  lemma RootExists(n: int, e: int, x: int, g: int)
    requires Prime(P) && Unit(e) && Eqm(x * x * e, n)
    requires var d3 := e * e * e; PowEq(g, d3 * d3 * e * n, Pow2(252) - 3)
    ensures var c := g * (e * e * e) * n; Eqm(c * c * e, n) || Eqm(c * c * e, -n)
  {
    var d3 := e * e * e;
    var w, s := d3 * d3 * e * n, g * g * (d3 * d3 * e * n);
    CandidateSquare(n, e, g);
    EqmRefl(n);
    if Eqm(n, 0) {
      EqmScale(s, n, 0);
      EqmSym(n, 0);
      EqmTrans(s * n, 0, n);
    } else {
      var h := d3 * x * e;
      RootUnit(n, e, x);
      UnitMul(e, e);
      UnitMul(e * e, e);
      UnitMul(d3, x);
      UnitMul(d3 * x, e);
      EqmSym(x * x * e, n);
      EqmScale(d3 * d3 * e, n, x * x * e);
      SquareForm(d3, e, x);
      QuarterPower(w, h, g);
      if Eqm(s, 1) { EqmMul(s, 1, n, n); } else { EqmMul(s, -1, n, n); }
    }
  }

  lemma SquareForm(d: int, e: int, x: int)
    ensures d * d * e * (x * x * e) == (d * x * e) * (d * x * e)
  {
    var dx, dd := d * x, d * d;
    assert (dx * e) * (dx * e) == (dx * dx) * (e * e);
    assert dx * dx == dd * (x * x);
    assert dd * e * (x * x * e) == (dd * (x * x)) * (e * e);
  }

  lemma RootUnit(n: int, e: int, x: int)
    requires Prime(P) && Eqm(x * x * e, n) && !Eqm(n, 0)
    ensures Unit(x)
  {
    ZeroOrUnit(x);
    if Eqm(x, 0) {
      EqmScale(x * e, x, 0);
      assert x * e * x == x * x * e;
      EqmSym(x * x * e, n);
      EqmTrans(n, x * x * e, 0);
      assert false;
    }
  }

  /** `!ed25519_verify(check, zero, 32)` on a contracted value. */
  method IsZero(a: Fe, ghost v: int) returns (zero: bool)
    requires a.Below(RED) && Is(a, v)
    ensures zero <==> Eqm(v, 0)
  {
    var check := ContractTo(a, v);
    var zeroes := Zeroes(32);
    zero := check == zeroes;
    ZeroBytes();
    if v % P == 0 {
      EqmBy(v, 0, v / P);
      LEInjective(check, zeroes);
    } else if Eqm(v, 0) {
      SameResidue(v, 0);
      assert false;
    }
  }

  lemma ZeroBytes()
    ensures LE(Zeroes(32)) == 0
  {
    LEZeroes([], 32);
    assert [] + Zeroes(32) == Zeroes(32);
  }

  /** Lines 207-217: the candidate root of num / den. */
  method Candidate(num: Fe, den: Fe, ghost n: int, ghost e: int) returns (x: Fe, ghost g: int)
    requires num.Below(RED) && den.Below(MID) && Is(num, n) && Is(den, e)
    ensures x.Below(RED) && Is(x, g * (e * e * e) * n)
    ensures var d3 := e * e * e; PowEq(g, d3 * d3 * e * n, Pow2(252) - 3)
  {
    var t := SquareTo(den, e);
    var d3 := MulTo(t, den, e * e, e);
    ghost var d := e * e * e;
    var w := SquareTo(d3, d);
    w := MulTo(w, den, d * d, e);
    w := MulTo(w, num, d * d * e, n);
    x := PowTwo252m3(w);
    g := x.Val();
    SamePower(g, w, d * d * e * n);
    EqmRefl(g);
    IsEqm(x, g);
    x := MulTo(x, d3, g, d);
    x := MulTo(x, num, g * d, n);
  }

  lemma SamePower(g: int, w: Fe, v: int)
    requires Is(w, v) && PowEq(g, w.Val(), Pow2(252) - 3)
    ensures PowEq(g, v, Pow2(252) - 3)
  {
    var e := Pow2(252) - 3;
    assert e >= 0 by { Pow2Grows(2, 252); }
    IsEqm(w, v);
    PowElim(g, w.Val(), e);
    EqmPow(w.Val(), v, e);
    EqmTrans(g, Pow(w.Val(), e), Pow(v, e));
    PowIntro(g, v, e);
  }

  /** Lines 219-230: keeps the candidate, or multiplies it by the root of -1, or fails. */
  method CheckRoot(x0: Fe, num: Fe, den: Fe, ghost c: int, ghost n: int, ghost e: int)
    returns (x: Fe, ok: bool, ghost r: int)
    requires x0.Below(RED) && num.Below(RED) && den.Below(MID) && Is(x0, c) && Is(num, n) && Is(den, e)
    ensures ok <==> Eqm(c * c * e, n) || Eqm(c * c * e, -n)
    ensures ok ==> x.Below(RED) && Is(x, r) && Eqm(r * r * e, n)
  {
    x, r := x0, c;
    var t := SquareTo(x, c);
    t := MulTo(t, den, c * c, e);
    var root := SubReduceTo(t, num, c * c * e, n);
    var zero := IsZero(root, c * c * e - n);
    ZeroDifference(c * c * e, n);
    if !zero {
      t := AddReduceTo(t, num, c * c * e, n);
      zero := IsZero(t, c * c * e + n);
      ZeroDifference(c * c * e, -n);
      if zero {
        MinusOneRoot();
        x := MulTo(x, SQRTM1, c, I);
        r := c * I;
        TimesI(c, e, n);
      }
    }
    ok := zero;
  }

  lemma ZeroDifference(a: int, b: int)
    ensures Eqm(a - b, 0) <==> Eqm(a, b)
  {
    EqmRefl(b);
    if Eqm(a - b, 0) { EqmAdd(a - b, 0, b, b); }
    if Eqm(a, b) { EqmAdd(a, b, b, b); }
  }

  lemma TimesI(c: int, e: int, n: int)
    requires Eqm(c * c * e, -n) && Eqm(I * I, -1)
    ensures Eqm((c * I) * (c * I) * e, n)
  {
    Quad(c, I, c, I);
    assert (I * I) * (c * c) * e == (I * I) * (c * c * e);
    EqmMul(I * I, -1, c * c * e, -n);
  }

  /** Lines 232-236: the root whose parity differs from the encoded bit, which negates the point. */
  method Negate(x0: Fe, parity: int, ghost r0: int) returns (x: Fe, ghost r: int)
    requires x0.Below(RED) && Is(x0, r0)
    ensures x.Below(RED) && Is(x, r) && r == if r0 % P % 2 == parity then -r0 else r0
  {
    x, r := x0, r0;
    var check := ContractTo(x0, r0);
    if check[0] % 2 == parity {
      x := NegTo(x0, r0);
      r := -r0;
    }
  }

  /** Of x and -x exactly one has a given parity, unless x = 0. */
  lemma OppositeParity(r0: int, r: int, x: int, parity: int)
    requires Eqm(r0, x) || Eqm(r0, -x)
    requires (x % P == 0 || x % P % 2 == parity) && r == if r0 % P % 2 == parity then -r0 else r0
    ensures Eqm(r, -x)
  {
    if x % P == 0 {
      NegResidue(x);
      if Eqm(r0, x) { SameResidue(r0, x); } else { SameResidue(r0, -x); }
      BothZero(r0, x);
    } else if Eqm(r0, x) {
      SameResidue(r0, x);
      EqmRefl(0);
      EqmAdd(0, 0, r0, x);
    } else {
      SameResidue(r0, -x);
      NegResidue(x);
    }
  }

  /** The residue of -x, and its parity. */
  lemma NegResidue(x: int)
    ensures (-x) % P == if x % P == 0 then 0 else P - x % P
    ensures x % P != 0 ==> (-x) % P % 2 != x % P % 2
  {
    if x % P == 0 {
      QuoRem(-x, P, -(x / P), 0);
    } else {
      QuoRem(-x, P, -(x / P) - 1, P - x % P);
    }
  }

  lemma BothZero(r0: int, x: int)
    requires r0 % P == 0 && x % P == 0
    ensures Eqm(r0, -x) && Eqm(-r0, -x)
  {
    EqmBy(r0, -x, r0 / P + x / P);
    EqmBy(-r0, -x, x / P - r0 / P);
  }

  /** The negative of the root found has the encoded parity. */
  lemma ParityOf(r0: int, r: int, parity: int)
    requires r == if r0 % P % 2 == parity then -r0 else r0
    requires parity == 0 || parity == 1
    ensures (-r) % P == 0 || (-r) % P % 2 == parity
  {
    NegResidue(r0);
  }

  /** A point on the curve satisfies the equation whose root is taken. */
  lemma EncodedRoot(u: Aff, y: int)
    requires OnCurve(u) && Eqm(u.y, y)
    ensures Eqm(u.x * u.x * (y * y * D() + 1), y * y - 1)
  {
    CurveForm(u.x, u.y);
    EqmMul(u.y, y, u.y, y);
    EqmRefl(D());
    EqmRefl(1);
    EqmMul(u.y * u.y, y * y, D(), D());
    EqmAdd(u.y * u.y * D(), y * y * D(), 1, 1);
    EqmAdd(u.y * u.y, y * y, 1, 1);
    EqmSym(u.y * u.y * D() + 1, y * y * D() + 1);
    EqmScale(u.x * u.x, y * y * D() + 1, u.y * u.y * D() + 1);
    EqmTrans(u.x * u.x * (y * y * D() + 1), u.x * u.x * (u.y * u.y * D() + 1), u.y * u.y - 1);
    EqmTrans(u.x * u.x * (y * y * D() + 1), u.y * u.y - 1, y * y - 1);
  }

  /** The denominator d y^2 + 1 is not 0 on the curve. */
  lemma DenominatorUnit(x: int, y: int)
    requires Prime(P) && Eqm(x * x * (y * y * D() + 1), y * y - 1)
    ensures Unit(y * y * D() + 1)
  {
    var e, n := y * y * D() + 1, y * y - 1;
    ZeroOrUnit(e);
    if Eqm(e, 0) {
      EqmScale(x * x, e, 0);
      EqmSym(x * x * e, n);
      EqmTrans(n, x * x * e, 0);
      EqmScale(D(), n, 0);
      EqmAdd(e, 0, D() * n, 0);
      assert e - D() * n == D() + 1 by { assert D() * (y * y - 1) == y * y * D() - D(); }
      DValue();
      var k := EqmGap(D() + 1, 0);
      SmallMultiple(P, k);
      assert false;
    }
  }

  lemma RootUnique(r: int, x: int, e: int, n: int)
    requires Prime(P) && Unit(e) && Eqm(r * r * e, n) && Eqm(x * x * e, n)
    ensures Eqm(r, x) || Eqm(r, -x)
  {
    EqmSym(x * x * e, n);
    EqmTrans(r * r * e, n, x * x * e);
    assert r * r * e == e * (r * r) && x * x * e == e * (x * x);
    UnitCancel(e, r * r, x * x);
    SquareRoots(r, x);
  }

  lemma EncodedParts(b: seq<U8>, u: Aff)
    requires Encoded(b, u)
    ensures Eqm(u.y, LE(b) % TWO255) && b[31] / 128 == u.x % P % 2
  {
    QuoRem(LE(b), TWO255, u.x % P % 2, u.y % P);
    EqmBy(u.y, u.y % P, u.y / P);
    TopBitIs(b);
  }

  predicate Encodes255(b: seq<U8>, v: int) {
    v == LE(b) % TWO255
  }

  /** What the search for a root leaves behind: g the power taken, r0 the root, r the signed root. */
  ghost predicate Search(b: seq<U8>, g: int, ok: bool, r0: int, r: int) {
    |b| == 32 && forall y {:trigger Encodes255(b, y)} :: Encodes255(b, y) ==> SearchAt(y, b[31] / 128, g, ok, r0, r)
  }

  ghost predicate SearchAt(y: int, parity: int, g: int, ok: bool, r0: int, r: int) {
    var n, e := y * y - 1, y * y * D() + 1;
    var d3 := e * e * e;
    var c := g * d3 * n;
    && PowEq(g, d3 * d3 * e * n, Pow2(252) - 3)
    && (ok <==> Eqm(c * c * e, n) || Eqm(c * c * e, -n))
    && (ok ==> Eqm(r0 * r0 * e, n) && r == if r0 % P % 2 == parity then -r0 else r0)
  }

  /** The point that decoding takes 32 bytes for: on the curve, with the lower 255 bits as y even when
      they exceed p, and with the top bit as the parity of x, or x = 0 and any top bit. */
  ghost predicate Decodes(b: seq<U8>, u: Aff) {
    |b| == 32 && OnCurve(u) && Eqm(u.y, LE(b) % TWO255) && (u.x % P == 0 || u.x % P % 2 == b[31] / 128)
  }

  /** Encodings of curve points decode, */
  lemma EncodedDecodes(b: seq<U8>, u: Aff)
    requires Encoded(b, u) && OnCurve(u)
    ensures Decodes(b, u)
  {
    EncodedParts(b, u);
  }

  /** to one point only. */
  lemma DecodesOnce(b: seq<U8>, u: Aff, v: Aff)
    requires Prime(P) && Decodes(b, u) && Decodes(b, v)
    ensures Eqm(u.x, v.x) && Eqm(u.y, v.y)
  {
    var y := LE(b) % TWO255;
    EncodedRoot(u, y);
    EncodedRoot(v, y);
    DenominatorUnit(u.x, y);
    RootUnique(u.x, v.x, y * y * D() + 1, y * y - 1);
    SameParity(u.x, v.x, b[31] / 128);
    EqmSym(v.y, y);
    EqmTrans(u.y, y, v.y);
  }

  /** and every y on the curve decodes, with either top bit. */
  lemma CurveDecodes(b: seq<U8>, x: int)
    requires |b| == 32 && OnCurve(Aff(x, LE(b) % TWO255))
    ensures Decodes(b, Aff(x, LE(b) % TWO255)) || Decodes(b, Aff(-x, LE(b) % TWO255))
  {
    var y := LE(b) % TWO255;
    CurveForm(x, y);
    SquareSign(x, -x, y * y * D() + 1, y * y - 1);
    CurveForm(-x, y);
    EqmRefl(y);
    NegResidue(x);
  }

  /** Decoding does not depend on the representatives. */
  lemma DecodesSame(b: seq<U8>, u: Aff, v: Aff)
    requires Decodes(b, u) && Same(u, v) && OnCurve(v)
    ensures Decodes(b, v)
  {
    SameResidue(u.x, v.x);
    EqmSym(u.y, v.y);
    EqmTrans(v.y, u.y, LE(b) % TWO255);
  }

  lemma SameParity(x: int, z: int, parity: int)
    requires (Eqm(x, z) || Eqm(x, -z)) && (x % P == 0 || x % P % 2 == parity) && (z % P == 0 || z % P % 2 == parity)
    ensures Eqm(x, z)
  {
    if !Eqm(x, z) {
      SameResidue(x, -z);
      NegResidue(z);
      BothZero(x, -z);
    }
  }

  /** Whatever b decodes to, its negative is what the code finds. */
  lemma DecodesTo(b: seq<U8>, u: Aff, g: int, ok: bool, r0: int, r: int)
    requires Prime(P) && Decodes(b, u) && Search(b, g, ok, r0, r)
    ensures ok && Eqm(r, -u.x) && Eqm(LE(b) % TWO255, u.y)
  {
    var y := LE(b) % TWO255;
    var n, e := y * y - 1, y * y * D() + 1;
    assert Encodes255(b, y);
    EncodedRoot(u, y);
    DenominatorUnit(u.x, y);
    RootExists(n, e, u.x, g);
    RootUnique(r0, u.x, e, n);
    OppositeParity(r0, r, u.x, b[31] / 128);
    EqmSym(u.y, y);
  }

  lemma DecodesAll(b: seq<U8>, g: int, ok: bool, r0: int, r: int)
    requires Search(b, g, ok, r0, r)
    ensures forall u {:trigger Decodes(b, u)} :: Prime(P) && Decodes(b, u) ==> ok && Eqm(r, -u.x) && Eqm(LE(b) % TWO255, u.y)
  {
    forall u {:trigger Decodes(b, u)} | Prime(P) && Decodes(b, u)
      ensures ok && Eqm(r, -u.x) && Eqm(LE(b) % TWO255, u.y)
    {
      DecodesTo(b, u, g, ok, r0, r);
    }
  }

  /** A root that passed the check gives a curve point. */
  lemma FoundPoint(b: seq<U8>, g: int, r0: int, r: int)
    requires Search(b, g, true, r0, r)
    ensures OnCurve(Aff(r, LE(b) % TWO255)) && Decodes(b, Aff(-r, LE(b) % TWO255))
  {
    var y := LE(b) % TWO255;
    assert Encodes255(b, y);
    SquareSign(r0, r, y * y * D() + 1, y * y - 1);
    CurveForm(r, y);
    SquareSign(r0, -r, y * y * D() + 1, y * y - 1);
    CurveForm(-r, y);
    EqmRefl(y);
    ParityOf(r0, r, b[31] / 128);
  }

  /** y, and n / e = (y^2 - 1) / (d y^2 + 1). */
  ghost predicate Parts(b: seq<U8>, y: int, n: int, e: int) {
    forall v {:trigger Encodes255(b, v)} :: Encodes255(b, v) ==> y == v && n == v * v - 1 && e == v * v * D() + 1
  }

  /** Lines 199-236. */
  method FindRoot(b: seq<U8>) returns (x: Fe, fy: Fe, ok: bool, ghost g: int, ghost r0: int, ghost r: int)
    requires |b| == 32
    ensures Search(b, g, ok, r0, r)
    ensures fy.Below(RED) && Is(fy, LE(b) % TWO255) && (ok ==> x.Below(RED) && Is(x, r))
  {
    var num, den; ghost var y, n, e;
    fy, num, den, y, n, e := Fraction(b);
    x, g := Candidate(num, den, n, e);
    ghost var c := g * (e * e * e) * n;
    x, ok, r0 := CheckRoot(x, num, den, c, n, e);
    r := r0;
    if ok { x, r := Negate(x, b[31] / 128, r0); }
    SearchBy(b, y, n, e, c, g, ok, r0, r);
  }

  lemma SearchBy(b: seq<U8>, y: int, n: int, e: int, c: int, g: int, ok: bool, r0: int, r: int)
    requires |b| == 32 && Parts(b, y, n, e) && c == g * (e * e * e) * n
    requires var d3 := e * e * e; PowEq(g, d3 * d3 * e * n, Pow2(252) - 3)
    requires ok <==> Eqm(c * c * e, n) || Eqm(c * c * e, -n)
    requires ok ==> Eqm(r0 * r0 * e, n) && r == if r0 % P % 2 == b[31] / 128 then -r0 else r0
    ensures Search(b, g, ok, r0, r) && y == LE(b) % TWO255
  {
    assert Encodes255(b, LE(b) % TWO255);
  }

  /** `ge25519_unpack_negative_vartime`: it succeeds exactly on the strings that decode to a curve
      point, and gives that point's negative. */
  method Unpack(b: seq<U8>) returns (r: Ext, ok: bool, ghost v: Aff)
    requires |b| == 32
    ensures ok ==> Full(r, v) && OnCurve(v) && Decodes(b, Minus(v))
    ensures forall u {:trigger Decodes(b, u)} :: Prime(P) && Decodes(b, u) ==> ok && Eqm(v.x, -u.x) && Eqm(v.y, u.y)
  {
    var x, fy; ghost var g, r0, r1;
    x, fy, ok, g, r0, r1 := FindRoot(b);
    v := Aff(r1, LE(b) % TWO255);
    DecodesAll(b, g, ok, r0, r1);
    if ok {
      r := Finished(x, fy, v);
      FoundPoint(b, g, r0, r1);
    } else {
      r := Ext(x, fy, Fe(1, 0, 0, 0, 0), x);
    }
  }

  lemma SquareSign(r0: int, r: int, e: int, n: int)
    requires (r == r0 || r == -r0) && Eqm(r0 * r0 * e, n)
    ensures Eqm(r * r * e, n)
  {
    assert (-r0) * (-r0) == r0 * r0;
  }

  /** Lines 199-204: y, y^2 - 1 and d y^2 + 1. */
  method Fraction(b: seq<U8>) returns (fy: Fe, num: Fe, den: Fe, ghost y: int, ghost n: int, ghost e: int)
    requires |b| == 32
    ensures fy.Below(RED) && num.Below(RED) && den.Below(MID) && Parts(b, y, n, e)
    ensures Is(fy, y) && Is(num, n) && Is(den, e)
  {
    y := LE(b) % TWO255;
    n, e := y * y - 1, y * y * D() + 1;
    fy := Expand(b);
    EqmRefl(y);
    IsEqm(fy, y);
    Constants();
    SmallIs(1);
    num := SquareTo(fy, y);
    den := MulTo(num, ECD, y * y, D());
    num := SubReduceTo(num, Fe(1, 0, 0, 0, 0), y * y, 1);
    den := AddTo(den, Fe(1, 0, 0, 0, 0), y * y * D(), 1);
  }

  method Finished(x: Fe, y: Fe, ghost v: Aff) returns (r: Ext)
    requires x.Below(RED) && y.Below(RED) && Is(x, v.x) && Is(y, v.y)
    ensures Full(r, v)
  {
    var t := MulTo(x, y, v.x, v.y);
    r := Ext(x, y, Fe(1, 0, 0, 0, 0), t);
    SmallIs(1);
    AffineFull(r, v);
  }

  // ----- the neutral element

  /** `ge25519_is_neutral_vartime` (ed25519-donna-batchverify.h, lines 193-202): x = 0 and y = z as
      bytes, which holds for the point (0, 1) and no other. */
  method IsNeutral(p: Ext, ghost u: Aff) returns (neutral: bool)
    requires Partial(p, u)
    ensures neutral <==> Eqm(u.x, 0) && Eqm(u.y, 1)
  {
    ghost var z :| ProjZ(p, u, z);
    var zero := IsZero(p.x, u.x * z);
    var yb := ContractTo(p.y, u.y * z);
    var zb := ContractTo(p.z, z);
    neutral := zero && yb == zb;
    EncodingsAgree(yb, u.y * z, zb, z);
    NeutralCoordinates(u.x, u.y, z);
  }

  lemma NeutralCoordinates(x: int, y: int, z: int)
    requires Unit(z)
    ensures Eqm(x * z, 0) <==> Eqm(x, 0)
    ensures Eqm(y * z, z) <==> Eqm(y, 1)
  {
    EqmRefl(z);
    assert x * z == z * x && y * z == z * y;
    if Eqm(x * z, 0) { UnitCancel(z, x, 0); }
    if Eqm(x, 0) { EqmScale(z, x, 0); }
    if Eqm(y * z, z) { UnitCancel(z, y, 1); }
    if Eqm(y, 1) { EqmScale(z, y, 1); }
  }
}
