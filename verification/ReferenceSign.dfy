/** Encoding, key generation and signing of the reference implementation bin/python/ed25519.py (lines
    29-31 and 49-78), bit by bit, and their agreement with the C code byte by byte. */
module ReferenceSign {
  import opened Words
  import opened Pow2s
  import opened Primes
  import opened Sha512
  import opened Field
  import opened FieldRing
  import opened FieldPrime
  import opened Edwards
  import opened EdwardsComplete
  import opened Groups
  import opened Encoding
  import opened Ed25519
  import opened Reference
  import Sha512Format
  import Modm

  // ----- bits

  /** `bit` */
  function PyBit(h: seq<U8>, i: nat): int
    requires i < 8 * |h|
  {
    h[i / 8] / Pow2(i % 8) % 2
  }

  /** `sum(2**i * bit(h,i) for i in range(lo,hi))` */
  function PySum(h: seq<U8>, lo: nat, hi: nat): int
    requires lo <= hi <= 8 * |h|
  {
    if hi == lo then 0 else PySum(h, lo, hi - 1) + Pow2(hi - 1) * PyBit(h, hi - 1)
  }

  /** The bits of a string are those of its little-endian number, */
  lemma {:induction false} BitOfBytes(h: seq<U8>, i: nat)
    requires i < 8 * |h|
    ensures PyBit(h, i) == Bit(LE(h), i)
    decreases |h|
  {
    Pow2Values();
    var t := LE(h[1..]);
    assert LE(h) == h[0] + t * Pow2(8);
    if i < 8 {
      BitAbove(h[0], t, i, 8);
    } else {
      BitOfBytes(h[1..], i - 8);
      LaterByte(h, i);
      Pow2Add(8, i - 8);
      QuoRem(LE(h), Pow2(8), t, h[0]);
      DivDiv(LE(h), Pow2(8), Pow2(i - 8));
    }
  }

  lemma LaterByte(h: seq<U8>, i: nat)
    requires 8 <= i < 8 * |h|
    ensures PyBit(h, i) == PyBit(h[1..], i - 8)
  {
    QuoRem(i - 8, 8, i / 8 - 1, i % 8);
  }

  /** n mod 2^(k+1) is n mod 2^k and bit k. */
  lemma NextLow(n: nat, k: nat)
    ensures n % Pow2(k + 1) == n % Pow2(k) + Pow2(k) * Bit(n, k)
  {
    var p, q := Pow2(k), n / Pow2(k);
    DivDiv(n, p, 2);
    assert n == p * (2 * (q / 2) + q % 2) + n % p;
    assert p * (2 * (q / 2) + q % 2) == (2 * p) * (q / 2) + p * (q % 2);
    QuoRem(n, 2 * p, q / 2, n % p + p * (q % 2));
  }

  /** so that sums of bits are remainders. */
  lemma {:induction false} SumOfBits(h: seq<U8>, lo: nat, hi: nat)
    requires lo <= hi <= 8 * |h|
    ensures PySum(h, lo, hi) == LE(h) % Pow2(hi) - LE(h) % Pow2(lo)
  {
    if lo < hi {
      SumOfBits(h, lo, hi - 1);
      BitOfBytes(h, hi - 1);
      NextLow(LE(h), hi - 1);
    }
  }

  lemma {:induction false} BytesAndBits(k: nat)
    ensures Pow256(k) == Pow2(8 * k)
  {
    if k > 0 {
      BytesAndBits(k - 1);
      Pow2Values();
      Pow2Add(8, 8 * (k - 1));
    }
  }

  /** `decodeint` and `Hint`: all bits of a string give its little-endian number. */
  lemma AllBits(h: seq<U8>)
    ensures PySum(h, 0, 8 * |h|) == LE(h)
  {
    SumOfBits(h, 0, 8 * |h|);
    BytesAndBits(|h|);
    LEBound(h, Pow256(|h|));
    QuoRem(LE(h), Pow2(8 * |h|), 0, LE(h));
  }

  // ----- the clamped secret

  /** `2**(b-2) + sum(2**i * bit(h,i) for i in range(3,b-2))` */
  function PySecret(h: seq<U8>): int
    requires |h| == 64
  {
    Pow2(254) + PySum(h, 3, 254)
  }

  lemma SecretIs(h: seq<U8>)
    requires |h| == 64
    ensures PySecret(h) == ClampedValue(LE(h[..32]))
  {
    SumOfBits(h, 3, 254);
    assert Pow2(3) == 8;
    HalfBits(h, 254);
    HalfBits(h, 3);
  }

  /** The low bits of a 64-byte string are those of its first half. */
  lemma HalfBits(h: seq<U8>, k: nat)
    requires |h| == 64 && k <= 256
    ensures LE(h) % Pow2(k) == LE(h[..32]) % Pow2(k)
  {
    var a, b := h[..32], h[32..];
    assert h == a + b;
    LEConcat(a, b);
    BytesAndBits(32);
    LowPart(LE(a), LE(b), 32 * 8, k, Pow256(32), LE(h));
  }

  lemma {:induction false} LEConcat(a: seq<U8>, b: seq<U8>)
    ensures LE(a + b) == LE(a) + Pow256(|a|) * LE(b)
  {
    if a == [] {
      assert a + b == b;
    } else {
      LEConcat(a[1..], b);
      assert (a + b)[1..] == a[1..] + b;
      assert 0x100 * (Pow256(|a| - 1) * LE(b)) == Pow256(|a|) * LE(b);
    }
  }

  lemma LowPart(x: nat, y: nat, n: nat, k: nat, w: nat, z: nat)
    requires k <= n && w == Pow2(n) && z == x + w * y
    ensures z % Pow2(k) == x % Pow2(k)
  {
    Pow2Add(k, n - k);
    Associate(Pow2(k), Pow2(n - k), y);
    MultipleAbove(x, Pow2(k), Pow2(n - k) * y);
  }

  lemma MultipleAbove(x: int, p: int, m: int)
    requires p > 0
    ensures (x + p * m) % p == x % p
  {
    assert p * (x / p + m) == p * (x / p) + p * m;
    QuoRem(x + p * m, p, x / p + m, x % p);
  }

  // ----- encoding

  predicate AreBits(bits: seq<int>) {
    forall i :: 0 <= i < |bits| ==> 0 <= bits[i] <= 1
  }

  /** `[(v >> i) & 1 for i in range(n)]` */
  function PyBits(v: int, n: nat): (s: seq<int>)
    ensures |s| == n && AreBits(s)
  {
    seq(n, i requires 0 <= i => Bit(v, i))
  }

  /** `sum([bits[i * 8 + j] << j for j in range(8)])` */
  function PyByte(bits: seq<int>, i: nat): (b: int)
    requires 8 * i + 8 <= |bits| && AreBits(bits)
    ensures 0 <= b < 0x100
  {
    bits[8 * i] + 2 * bits[8 * i + 1] + 4 * bits[8 * i + 2] + 8 * bits[8 * i + 3]
    + 16 * bits[8 * i + 4] + 32 * bits[8 * i + 5] + 64 * bits[8 * i + 6] + 128 * bits[8 * i + 7]
  }

  /** `''.join([chr(...) for i in range(b/8)])` */
  function PyPack(bits: seq<int>): (s: seq<U8>)
    requires |bits| == 256 && AreBits(bits)
    ensures |s| == 32
  {
    seq(32, i requires 0 <= i < 32 => PyByte(bits, i))
  }

  ghost predicate BitsOf(bits: seq<int>, v: int) {
    AreBits(bits) && forall i: nat :: i < |bits| ==> bits[i] == Bit(v, i)
  }

  /** Bit j of byte i. */
  lemma BitOfByte(v: nat, i: nat, j: nat)
    ensures Bit(v, 8 * i + j) == Bit(v / Pow2(8 * i), j)
  {
    Pow2Add(8 * i, j);
    DivDiv(v, Pow2(8 * i), Pow2(j));
  }

  /** Eight bits of v are a byte of v. */
  lemma ByteIs(bits: seq<int>, v: nat, i: nat)
    requires 8 * i + 8 <= |bits| && BitsOf(bits, v)
    ensures PyByte(bits, i) == v / Pow256(i) % 0x100
  {
    BytesAndBits(i);
    QuotientSign(v, Pow2(8 * i));
    BitOfByte(v, i, 0);
    BitOfByte(v, i, 1);
    BitOfByte(v, i, 2);
    BitOfByte(v, i, 3);
    BitOfByte(v, i, 4);
    BitOfByte(v, i, 5);
    BitOfByte(v, i, 6);
    BitOfByte(v, i, 7);
    EightBits(v / Pow2(8 * i));
  }

  lemma EightBits(w: nat)
    ensures w % 0x100 == Bit(w, 0) + 2 * Bit(w, 1) + 4 * Bit(w, 2) + 8 * Bit(w, 3)
                       + 16 * Bit(w, 4) + 32 * Bit(w, 5) + 64 * Bit(w, 6) + 128 * Bit(w, 7)
  {
    SmallPowers();
    NextLow(w, 0);
    NextLow(w, 1);
    NextLow(w, 2);
    NextLow(w, 3);
    NextLow(w, 4);
    NextLow(w, 5);
    NextLow(w, 6);
    NextLow(w, 7);
  }

  lemma SmallPowers()
    ensures Pow2(0) == 1 && Pow2(1) == 2 && Pow2(2) == 4 && Pow2(3) == 8 && Pow2(4) == 16
    ensures Pow2(5) == 32 && Pow2(6) == 64 && Pow2(7) == 128 && Pow2(8) == 256
  {
    assert Pow2(4) == 16;
    assert Pow2(8) == 2 * Pow2(7) && Pow2(7) == 2 * Pow2(6) && Pow2(6) == 2 * Pow2(5) && Pow2(5) == 2 * Pow2(4);
  }

  /** The bytes of v from byte i on. */
  ghost predicate BytesOf(s: seq<U8>, v: nat, i: nat) {
    forall k: nat :: k < |s| ==> s[k] == v / Pow256(i + k) % 0x100
  }

  lemma {:induction false} BytesValue(s: seq<U8>, v: nat, i: nat)
    requires BytesOf(s, v, i)
    ensures LE(s) == v / Pow256(i) % Pow256(|s|)
    decreases |s|
  {
    if s != [] {
      forall k: nat | k < |s| - 1 ensures s[1..][k] == v / Pow256(i + 1 + k) % 0x100 { assert s[1..][k] == s[k + 1]; }
      BytesValue(s[1..], v, i + 1);
      NextByte(v, Pow256(i), Pow256(|s| - 1), s[0], LE(s[1..]));
    }
  }

  lemma NextByte(v: nat, p: nat, w: nat, b: int, rest: int)
    requires p > 0 && w > 0 && b == v / p % 0x100 && rest == v / (0x100 * p) % w
    ensures b + 0x100 * rest == v / p % (0x100 * w)
  {
    DivDiv(v, p, 0x100);
    assert p * 0x100 == 0x100 * p;
    QuotientSign(v, p);
    Sha512Format.LowBytes(v / p, w);
  }

  lemma PackIs(bits: seq<int>, v: nat)
    requires |bits| == 256 && BitsOf(bits, v)
    ensures LE(PyPack(bits)) == v % Pow2(256)
  {
    var s := PyPack(bits);
    forall k: nat | k < 32 ensures s[k] == v / Pow256(0 + k) % 0x100 { ByteIs(bits, v, k); }
    BytesValue(s, v, 0);
    BytesAndBits(32);
    assert v / Pow256(0) == v;
  }

  /** `encodeint` */
  function PyEncodeInt(y: int): (s: seq<U8>)
    ensures |s| == 32
  {
    PyPack(PyBits(y, 256))
  }

  lemma EncodeIntIs(y: nat)
    ensures LE(PyEncodeInt(y)) == y % Pow2(256)
  {
    PackIs(PyBits(y, 256), y);
  }

  /** `encodepoint` */
  function PyEncodePoint(u: Aff): (s: seq<U8>)
    ensures |s| == 32
  {
    PyPack(PyBits(u.y, 255) + [u.x % 2])
  }

  /** For reduced coordinates it is the encoding that `ge25519_pack` produces. */
  lemma EncodePointIs(u: Aff)
    requires 0 <= u.x < P && 0 <= u.y < P
    ensures Encoded(PyEncodePoint(u), u)
  {
    var bits := PyBits(u.y, 255) + [u.x % 2];
    var v := u.y + Pow2(255) * (u.x % 2);
    PointBits(u, bits, v);
    PackIs(bits, v);
    PointNumber(u, v);
  }

  lemma PointBits(u: Aff, bits: seq<int>, v: nat)
    requires 0 <= u.x < P && 0 <= u.y < P && bits == PyBits(u.y, 255) + [u.x % 2] && v == u.y + Pow2(255) * (u.x % 2)
    ensures BitsOf(bits, v)
  {
    ExponentIs();
    forall i: nat | i < 256 ensures bits[i] == Bit(v, i) {
      assert v == u.y + u.x % 2 * Pow2(255);
      if i < 255 {
        BitAbove(u.y, u.x % 2, i, 255);
      } else {
        QuoRem(v, Pow2(255), u.x % 2, u.y);
      }
    }
  }

  lemma PointNumber(u: Aff, v: nat)
    requires 0 <= u.x < P && 0 <= u.y < P && v == u.y + Pow2(255) * (u.x % 2)
    ensures v % Pow2(256) == u.y % P + TWO255 * (u.x % P % 2)
  {
    ExponentIs();
    QuoRem(u.y, P, 0, u.y);
    QuoRem(u.x, P, 0, u.x);
    assert Pow2(256) == 2 * Pow2(255) && Pow2(255) == TWO255;
    QuoRem(v, Pow2(256), 0, v);
  }

  // ----- constants and base point

  /** `q` and `l` are the moduli of the C code. */
  lemma Moduli()
    ensures P == Pow2(255) - 19 && Modm.M == Pow2(252) + 27742317777372353535851937790883648493
  {
    ExponentIs();
    assert Pow2(255) == 2 * (2 * (2 * Pow2(252)));
  }

  /** `B` */
  function PyBase(): Aff {
    Aff(XRecover(4 * Inv(5)) % P, 4 * Inv(5) % P)
  }

  const BX: int := 0x216936d3_cd6e53fe_c0a4e231_fdd6dc5c_692cc760_9525a7b2_c9562d60_8f25d51a
  const BY: int := 0x66666666_66666666_66666666_66666666_66666666_66666666_66666666_66666658

  /** The base point lies on the curve, in five reductions. */
  lemma BaseOnCurve()
    ensures OnCurve(Aff(BX, BY))
  {
    var x2, y2, t, u := 0x39e5a76b_6f33fadb_c92a232f_db1c32f2_ebe39c55_5ccb6a7d_690b8a0f_82e81c67, 0x51eb851e_b851eb85_1eb851eb_851eb851_eb851eb8_51eb851e_b851eb85_1eb851e0, 0x65892a68_223ec808_95ae2905_39a3f064_6f6c5bba_9f02299c_0bddf847_c3755382,
      0x1805ddb3_491df0a9_558e2ebb_aa02855e_ffa18262_f5201aa1_4f466175_9bd03578;
    EqmBy(BX * BX, x2, 0x8b896c1_40e6001e_d198b5b7_b564c5e7_c4cea765_6ac92ed1_492ba585_53286991);
    EqmBy(BY * BY, y2, 0x51eb851e_b851eb85_1eb851eb_851eb851_eb851eb8_51eb851e_b851eb85_1eb851e0);
    DValue();
    EqmBy(D() * x2, t, 0x2518abe8_3fada800_911667c9_11b37e77_9c9ca101_00552133_1fa7c593_bddef1ff);
    EqmBy(t * y2, u, 0x40fba042_a546e66b_e4ea57b1_6c91e187_f56411bf_1e15dd30_ab6f5738_2b2c5e68);
    EqmBy(y2 - x2, 1 + u, 0);
    CurveInSteps(Aff(BX, BY), x2, y2, t, u);
  }

  lemma CurveInSteps(v: Aff, x2: int, y2: int, t: int, u: int)
    requires Eqm(v.x * v.x, x2) && Eqm(v.y * v.y, y2) && Eqm(D() * x2, t) && Eqm(t * y2, u) && Eqm(y2 - x2, 1 + u)
    ensures OnCurve(v)
  {
    KValue(v, v);
    EqmScale(D(), v.x * v.x, x2);
    EqmTrans(D() * (v.x * v.x), D() * x2, t);
    EqmMul(D() * (v.x * v.x), t, v.y * v.y, y2);
    EqmTrans(D() * (v.x * v.x) * (v.y * v.y), t * y2, u);
    Associate(D(), v.x * v.x, v.y * v.y);
    EqmSym(K(v, v), u);
    EqmRefl(1);
    EqmAdd(1, 1, u, K(v, v));
    EqmAdd(v.y * v.y, y2, v.x * v.x, x2);
    EqmTrans(v.y * v.y - v.x * v.x, y2 - x2, 1 + u);
    EqmTrans(v.y * v.y - v.x * v.x, 1 + u, 1 + K(v, v));
  }

  /** y = 4 / 5 */
  lemma BaseY()
    requires Prime(P)
    ensures Eqm(4 * Inv(5), BY) && 4 * Inv(5) % P == BY
  {
    EqmBy(5 * 0x19999999_99999999_99999999_99999999_99999999_99999999_99999999_99999996, 1, 1);
    UnitBy(5, 0x19999999_99999999_99999999_99999999_99999999_99999999_99999999_99999996);
    InvInverts(5);
    EqmScale(4, Inv(5) * 5, 1);
    EqmBy(4, 5 * BY, -4);
    assert 4 * (Inv(5) * 5) == 5 * (4 * Inv(5));
    EqmTrans(5 * (4 * Inv(5)), 4, 5 * BY);
    UnitCancel(5, 4 * Inv(5), BY);
    SameResidue(4 * Inv(5), BY);
    QuoRem(BY, P, 0, BY);
  }

  /** Membership depends on the residue of y only. */
  lemma OverY(x: int, y: int, z: int)
    requires OnCurve(Aff(x, y)) && Eqm(y, z)
    ensures OnCurve(Aff(x, z))
  {
    EncodedRoot(Aff(x, y), z);
    CurveForm(x, z);
  }

  /** The even one of two opposite roots. */
  lemma EvenOne(x: int, z: int)
    requires (Eqm(x, z) || Eqm(x, -z)) && 0 <= x < P && 0 < z < P && x % 2 == 0 && z % 2 == 0
    ensures x == z
  {
    QuoRem(x, P, 0, x);
    QuoRem(z, P, 0, z);
    if Eqm(x, z) {
      SameResidue(x, z);
    } else {
      SameResidue(x, -z);
      NegResidue(z);
    }
  }

  /** `B` is the base point of section 5.1 of RFC 8032. */
  lemma BaseIs()
    requires Prime(P)
    ensures PyBase() == Aff(BX, BY) && OnCurve(PyBase())
  {
    var y, r := 4 * Inv(5), XRecover(4 * Inv(5));
    BaseY();
    BaseOnCurve();
    EqmSym(y, BY);
    OverY(BX, BY, y);
    XRecovers(y, BX);
    CurveForm(BX, y);
    CurveForm(r, y);
    DenominatorUnit(BX, y);
    RootUnique(r, BX, y * y * D() + 1, y * y - 1);
    EvenOne(r, BX);
    QuoRem(r, P, 0, r);
  }

  // ----- keys and signatures

  ghost function PyHint(f: Compress, m: seq<U8>): int
    requires EightWords(f)
  {
    DigestLength(f, m);
    PySum(Digest(f, m), 0, 512)
  }

  lemma HintIs(f: Compress, m: seq<U8>)
    requires EightWords(f)
    ensures PyHint(f, m) == LE(Digest(f, m))
  {
    DigestLength(f, m);
    AllBits(Digest(f, m));
  }

  /** `publickey` */
  ghost function PyPublicKey(f: Compress, sk: seq<U8>): seq<U8>
    requires EightWords(f)
  {
    DigestLength(f, sk);
    SecretIs(Digest(f, sk));
    PyEncodePoint(PyMul(PyBase(), PySecret(Digest(f, sk))))
  }

  /** `signature` */
  ghost function PySignature(f: Compress, m: seq<U8>, sk: seq<U8>, pk: seq<U8>): seq<U8>
    requires EightWords(f)
  {
    DigestLength(f, sk);
    var h := Digest(f, sk);
    HintIs(f, h[32..] + m);
    var r := PyHint(f, h[32..] + m);
    var bigR := PyEncodePoint(PyMul(PyBase(), r));
    bigR + PyTail(r, PyHint(f, bigR + pk + m), PySecret(h))
  }

  /** `encodeint((r + Hint(...) * a) % l)` */
  function PyTail(r: int, x: int, a: int): (s: seq<U8>)
    ensures |s| == 32
  {
    PyEncodeInt((r + x * a) % Modm.M)
  }

  /** t is that string; the guard keeps the arithmetic out of the proofs that only pass it on. */
  ghost predicate IsTail(t: seq<U8>, r: int, x: int, a: int) {
    forall k {:trigger Opened(k)} :: Opened(k) ==> t == PyTail(r, x, a)
  }

  /** What the two implementations share: the curve, and the base point of the Python code. */
  ghost predicate Shared<T(!new)>(g: Group<T>, at: T -> Aff, b: T, table: seq<seq<U8>>, sliding: seq<Niels>) {
    Curve(g, at, b, table, sliding) && NonSquare(D()) && Same(PyBase(), at(b))
  }

  lemma PyMulReduced(u: Aff, e: nat)
    ensures 0 <= PyMul(u, e).x < P && 0 <= PyMul(u, e).y < P
  {
  }

  /** Reference multiples have the encoding of the group's multiples. */
  lemma MultipleBytes<T(!new)>(s: seq<U8>, e: nat, g: Group<T>, at: T -> Aff, b: T, table: seq<seq<U8>>, sliding: seq<Niels>)
    requires Shared(g, at, b, table, sliding) && Encoded(s, at(Mul(g, e, b)))
    ensures s == PyEncodePoint(PyMul(PyBase(), e))
  {
    var u := PyMul(PyBase(), e);
    BaseIs();
    PyMulIsMul(g, at, PyBase(), b, e);
    PyMulReduced(PyBase(), e);
    EncodePointIs(u);
    EqmSym(u.x, at(Mul(g, e, b)).x);
    EqmSym(u.y, at(Mul(g, e, b)).y);
    EncodedUnique(s, PyEncodePoint(u), at(Mul(g, e, b)), u);
  }

  /** `ed25519_publickey` computes the bytes of `publickey`. */
  lemma SamePublicKey<T(!new)>(f: Compress, sk: seq<U8>, pk: seq<U8>, g: Group<T>, at: T -> Aff, b: T, table: seq<seq<U8>>, sliding: seq<Niels>)
    requires EightWords(f) && Shared(g, at, b, table, sliding) && IsPublicKey(f, sk, pk, g, at, b)
    ensures pk == PyPublicKey(f, sk)
  {
    SecretMultiple(f, sk, g, b);
    SecretIs(Digest(f, sk));
    MultipleBytes(pk, ClampedValue(LE(Digest(f, sk)[..32])), g, at, b, table, sliding);
  }

  /** `ed25519_sign` computes the bytes of `signature`. */
  lemma SameSignature<T(!new)>(f: Compress, m: seq<U8>, sk: seq<U8>, pk: seq<U8>, rs: seq<U8>, nonce: nat,
                               g: Group<T>, at: T -> Aff, b: T, table: seq<seq<U8>>, sliding: seq<Niels>)
    requires EightWords(f) && Shared(g, at, b, table, sliding) && Ed25519.Signed(f, m, pk, rs, Secret(f, sk), nonce, g, at, b)
    requires |Digest(f, sk)| == 64 && nonce == LE(Digest(f, Digest(f, sk)[32..] + m)) % Modm.M
    ensures rs == PySignature(f, m, sk, pk)
  {
    SameNonce(f, m, sk, pk, rs, nonce, g, at, b, table, sliding);
    SameResponse(f, m, sk, pk, rs, nonce, g, at, b);
    Assemble(f, m, sk, pk, rs);
  }

  lemma Assemble(f: Compress, m: seq<U8>, sk: seq<U8>, pk: seq<U8>, rs: seq<U8>)
    requires EightWords(f) && |rs| == 64 && |Digest(f, sk)| == 64
    requires var r := PyHint(f, Digest(f, sk)[32..] + m); r >= 0 && rs[..32] == PyEncodePoint(PyMul(PyBase(), r))
    requires var h := Digest(f, sk);
             IsTail(rs[32..], PyHint(f, h[32..] + m), PyHint(f, rs[..32] + pk + m), PySecret(h))
    ensures rs == PySignature(f, m, sk, pk)
  {
    assert Opened(0);
    assert rs == rs[..32] + rs[32..];
  }

  lemma SameNonce<T(!new)>(f: Compress, m: seq<U8>, sk: seq<U8>, pk: seq<U8>, rs: seq<U8>, nonce: nat,
                           g: Group<T>, at: T -> Aff, b: T, table: seq<seq<U8>>, sliding: seq<Niels>)
    requires EightWords(f) && Shared(g, at, b, table, sliding) && Ed25519.Signed(f, m, pk, rs, Secret(f, sk), nonce, g, at, b)
    requires |Digest(f, sk)| == 64 && nonce == LE(Digest(f, Digest(f, sk)[32..] + m)) % Modm.M
    ensures var r := PyHint(f, Digest(f, sk)[32..] + m); r >= 0 && rs[..32] == PyEncodePoint(PyMul(PyBase(), r))
  {
    var r := LE(Digest(f, Digest(f, sk)[32..] + m));
    HintIs(f, Digest(f, sk)[32..] + m);
    MulReduced(g, b, Modm.M, r);
    MultipleBytes(rs[..32], r, g, at, b, table, sliding);
  }

  lemma SameResponse<T(!new)>(f: Compress, m: seq<U8>, sk: seq<U8>, pk: seq<U8>, rs: seq<U8>, nonce: nat, g: Group<T>, at: T -> Aff, b: T)
    requires EightWords(f) && Abelian(g) && g.mem(b) && Mul(g, Modm.M, b) == g.zero
    requires Ed25519.Signed(f, m, pk, rs, Secret(f, sk), nonce, g, at, b)
    requires |Digest(f, sk)| == 64 && nonce == LE(Digest(f, Digest(f, sk)[32..] + m)) % Modm.M
    ensures var h := Digest(f, sk);
            IsTail(rs[32..], PyHint(f, h[32..] + m), PyHint(f, rs[..32] + pk + m), PySecret(h))
  {
    var h := Digest(f, sk);
    HintIs(f, h[32..] + m);
    HintIs(f, rs[..32] + pk + m);
    SecretIs(h);
    SecretMultiple(f, sk, g, b);
    ResponseBytes(rs[32..], PyHint(f, rs[..32] + pk + m), PySecret(h), PyHint(f, h[32..] + m),
                  Challenge(f, rs[..32], pk, m), Secret(f, sk), nonce);
  }

  lemma ResponseBytes(t: seq<U8>, x: nat, a: nat, r: nat, h: nat, c: nat, d: nat)
    requires h == x % Modm.M && c == a % Modm.M && d == r % Modm.M && IsResponse(t, h, c, d)
    ensures IsTail(t, r, x, a)
  {
    SumModulo(h * c, d, LE(t));
    Unreduced(x, a, r);
    TailBytes(t, (r + x * a) % Modm.M);
  }

  /** Reducing the factors first does not change the result. */
  lemma Unreduced(x: nat, a: nat, r: nat)
    ensures (x % Modm.M * (a % Modm.M) + r % Modm.M) % Modm.M == (r + x * a) % Modm.M
  {
    var m := Modm.M;
    var i, j, k := x / m, a / m, r / m;
    var y, c, d := x % m, a % m, r % m;
    Product(m, i, j, y, c);
    assert x == m * i + y && a == m * j + c && r == m * k + d;
    SameRemainder(r + x * a, y * c + d, m, i * (m * j + c) + y * j + k);
  }

  lemma Product(m: int, i: int, j: int, y: int, c: int)
    ensures (m * i + y) * (m * j + c) == m * (i * (m * j + c) + y * j) + y * c
  {
    var z := m * j + c;
    assert (m * i + y) * z == m * (i * z) + y * z;
    assert y * z == m * (y * j) + y * c;
  }

  lemma SameRemainder(a: int, b: int, m: int, k: int)
    requires m > 0 && a == b + m * k
    ensures a % m == b % m
  {
    MultipleAbove(b, m, k);
  }

  lemma TailBytes(t: seq<U8>, s: nat)
    requires |t| == 32 && LE(t) == s && s < Modm.M
    ensures t == PyEncodeInt(s)
  {
    EncodeIntIs(s);
    Moduli();
    Pow2Grows(253, 256);
    QuoRem(s, Pow2(256), 0, s);
    LEInjective(t, PyEncodeInt(s));
  }
}
