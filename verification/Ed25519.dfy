/** Key generation, signing and verification (ed25519.c, lines 26-116; sections 5.1.5 to 5.1.7 of
    RFC 8032), from bytes to limbs and back. */
module Ed25519 {
  import opened Words
  import opened Pow2s
  import opened Primes
  import opened Sha512
  import Sha512Format
  import opened Field
  import opened FieldRing
  import opened FieldPrime
  import opened Edwards
  import opened Groups
  import opened Ladder
  import opened BaseLadder
  import opened Encoding
  import opened Elements
  import Modm

  // ----- the hash

  /** The compression function keeps eight 64-bit words. */
  ghost predicate EightWords(f: Compress) {
    forall h, b {:trigger f(h, b)} :: |f(h, b)| == 8
  }

  lemma {:induction false} FoldEight(f: Compress, h: seq<nat>, m: seq<U8>)
    requires EightWords(f) && |h| == 8
    ensures |Fold(f, h, m)| == 8
    decreases |m|
  {
    if |m| >= 128 { FoldEight(f, f(h, m[..128]), m[128..]); }
  }

  lemma DigestLength(f: Compress, m: seq<U8>)
    requires EightWords(f)
    ensures |Digest(f, m)| == 64
  {
    FoldEight(f, IV, Padded(m));
    Sha512Format.SerializeSize(Fold(f, IV, Padded(m)));
  }

  // ----- the curve and its tables

  /** The group of curve points, a base point of order m and the two precomputed tables. */
  ghost predicate Curve<T(!new)>(g: Group<T>, at: T -> Aff, b: T, table: seq<seq<U8>>, sliding: seq<Niels>) {
    && Prime(P) && Points(g, at) && Covers(g, at) && Faithful(g, at) && g.mem(b) && Mul(g, Modm.M, b) == g.zero
    && BaseTable(g, at, table, b) && NielsTable(g, at, sliding, 32, b)
  }

  // ----- keys

  /** `extsk[0] &= 248; extsk[31] &= 127; extsk[31] |= 64` */
  function Clamp(s: seq<U8>): (c: seq<U8>)
    requires |s| == 64
    ensures |c| == 64
  {
    s[0 := s[0] - s[0] % 8][31 := s[31] % 64 + 64]
  }

  /** Clamping: the low 256 bits lose their three low bits and the two high ones, and gain bit 254. */
  lemma ClampIs(s: seq<U8>)
    requires |s| == 64
    ensures LE(Clamp(s)[..32]) == ClampedValue(LE(s[..32])) && Clamp(s)[32..] == s[32..]
  {
    var a, c := s[..32], Clamp(s)[..32];
    assert c == a[0 := a[0] - a[0] % 8][31 := a[31] % 64 + 64];
    ClampBytes(a, c);
  }

  /** 2^254 + 8 j with 8 j the bits 3 to 253 of x. */
  ghost function ClampedValue(x: nat): (a: nat) {
    LowBitsBelow(x);
    Pow2(254) + x % Pow2(254) - x % 8
  }

  lemma LowBitsBelow(x: nat)
    ensures x % 8 == x % Pow2(254) % 8 && 0 <= x % 8 <= x % Pow2(254)
  {
    Pow2Add(3, 251);
    assert Pow2(3) == 8;
    var q, r := x / Pow2(254), x % Pow2(254);
    assert x == 8 * (Pow2(251) * q) + r by { assert Pow2(254) * q == 8 * (Pow2(251) * q); }
    QuoRem(x, 8, Pow2(251) * q + r / 8, r % 8);
  }

  /** The clamped scalar is 2^254 + 8 j with j < 2^251. */
  lemma ClampedForm(x: nat) returns (j: nat)
    ensures ClampedValue(x) == Pow2(254) + 8 * j && j < Pow2(251)
  {
    LowBitsBelow(x);
    assert Pow2(254) == 2 * (2 * (2 * Pow2(251)));
    j := x % Pow2(254) / 8;
  }

  lemma TopPowers()
    ensures TWO248 == Pow2(248) && 64 * TWO248 == Pow2(254)
  {
    ExponentIs();
    assert Pow2(255) == TWO255;
    assert Pow2(255) == 2 * Pow2(254) && Pow2(254) == 2 * Pow2(253) && Pow2(253) == 2 * Pow2(252);
    assert Pow2(252) == 2 * Pow2(251) && Pow2(251) == 2 * Pow2(250) && Pow2(250) == 2 * Pow2(249) && Pow2(249) == 2 * Pow2(248);
  }

  lemma ClampBytes(a: seq<U8>, c: seq<U8>)
    requires |a| == 32 && c == a[0 := a[0] - a[0] % 8][31 := a[31] % 64 + 64]
    ensures LE(c) == ClampedValue(LE(a))
  {
    TopPowers();
    LastByte(a);
    LastByte(c);
    FirstOfLow(a[..31]);
    FirstOfLow(c[..31]);
    assert c[..31][1..] == a[..31][1..];
    LowBitsBelow(LE(a));
    ClampArithmetic(LE(a), a[0], a[31], LE(a[..31]), LE(a[..31][1..]));
  }

  lemma FirstOfLow(s: seq<U8>)
    requires |s| == 31
    ensures LE(s) == s[0] + 0x100 * LE(s[1..])
  {
  }

  lemma ClampArithmetic(x: nat, b0: int, b31: int, low: int, rest: int)
    requires x == low + TWO248 * b31 && 0 <= low < TWO248 && low == b0 + 0x100 * rest && 0 <= b0 < 0x100 && 0 <= b31 < 0x100
    ensures x % (64 * TWO248) == low + TWO248 * (b31 % 64) && x % 8 == b0 % 8
  {
    QuoRem(x, 64 * TWO248, b31 / 64, low + TWO248 * (b31 % 64));
    QuoRem(x, 8, b0 / 8 + 32 * rest + 0x200000_00000000_00000000_00000000_00000000_00000000_00000000_00000000 * b31, b0 % 8);
  }

  ghost function Extended(f: Compress, sk: seq<U8>): (e: seq<U8>)
    requires EightWords(f)
    ensures |e| == 64
  {
    DigestLength(f, sk);
    Clamp(Digest(f, sk))
  }

  /** The secret scalar a of a secret key. */
  ghost function Secret(f: Compress, sk: seq<U8>): (a: nat)
    requires EightWords(f)
    ensures a < Modm.M
  {
    LE(Extended(f, sk)[..32]) % Modm.M
  }

  /** `ed25519_extsk` */
  method ExtSk(f: Compress, sk: seq<U8>) returns (extsk: seq<U8>)
    requires EightWords(f)
    ensures |extsk| == 64 && extsk == Extended(f, sk)
  {
    extsk := HashChunks(f, [sk]);
    DigestLength(f, sk);
    assert Concat([sk]) == Concat([]) + sk == sk;
    extsk := Clamp(extsk);
  }

  /** The public key of sk is [a]B. */
  ghost predicate IsPublicKey<T>(f: Compress, sk: seq<U8>, pk: seq<U8>, g: Group<T>, at: T -> Aff, b: T)
    requires EightWords(f)
  {
    Encoded(pk, at(Mul(g, Secret(f, sk), b)))
  }

  /** [s]B in bytes. */
  method BaseBytes<T(!new)>(s: Modm.Num, table: seq<seq<U8>>, ghost g: Group<T>, ghost at: T -> Aff, ghost b: T, ghost sliding: seq<Niels>)
    returns (r: seq<U8>)
    requires Curve(g, at, b, table, sliding) && s.Reduced()
    ensures Encoded(r, at(Mul(g, s.Val(), b)))
  {
    Below255(s);
    var p := ScalarmultBase(table, s, g, at, b);
    FullIsPartial(p, at(Mul(g, s.Val(), b)));
    r := Pack(p, at(Mul(g, s.Val(), b)));
  }

  /** A reduced scalar is within what the recoders take. */
  lemma Below255(s: Modm.Num)
    requires s.Reduced()
    ensures s.Limbs(0x1_00000000) && 0 <= s.Val() < TWO255
  {
  }

  /** `ed25519_publickey` */
  method PublicKey<T(!new)>(f: Compress, sk: seq<U8>, table: seq<seq<U8>>,
                            ghost g: Group<T>, ghost at: T -> Aff, ghost b: T, ghost sliding: seq<Niels>)
    returns (pk: seq<U8>)
    requires EightWords(f) && Curve(g, at, b, table, sliding)
    ensures IsPublicKey(f, sk, pk, g, at, b)
    ensures |Digest(f, sk)| == 64
    ensures var x := LE(Digest(f, sk)[..32]); Encoded(pk, at(Mul(g, Pow2(254) + x % Pow2(254) - x % 8, b)))
  {
    var extsk := ExtSk(f, sk);
    var a := Modm.Expand256(extsk[..32]);
    pk := BaseBytes(a, table, g, at, b, sliding);
    DigestLength(f, sk);
    SecretMultiple(f, sk, g, b);
  }

  /** The reduced secret scalar gives the same multiple of B as the clamped number. */
  lemma SecretMultiple<T(!new)>(f: Compress, sk: seq<U8>, g: Group<T>, b: T)
    requires EightWords(f) && Abelian(g) && g.mem(b) && Mul(g, Modm.M, b) == g.zero
    ensures |Digest(f, sk)| == 64 && Secret(f, sk) == ClampedValue(LE(Digest(f, sk)[..32])) % Modm.M
    ensures Mul(g, Secret(f, sk), b) == Mul(g, ClampedValue(LE(Digest(f, sk)[..32])), b)
  {
    DigestLength(f, sk);
    ClampIs(Digest(f, sk));
    MulReduced(g, b, Modm.M, ClampedValue(LE(Digest(f, sk)[..32])));
  }

  // ----- signatures

  /** H(R, A, m) as a scalar. */
  ghost function Challenge(f: Compress, r: seq<U8>, pk: seq<U8>, m: seq<U8>): (h: nat)
    ensures h < Modm.M
  {
    LE(Digest(f, r + pk + m)) % Modm.M
  }

  /** A 64-byte digest of the given chunks, as a scalar. */
  method HashScalar(f: Compress, chunks: seq<seq<U8>>) returns (s: Modm.Num)
    requires EightWords(f)
    ensures s.Reduced() && s.Val() == LE(Digest(f, Concat(chunks))) % Modm.M
  {
    var hash := HashChunks(f, chunks);
    DigestLength(f, Concat(chunks));
    s := Modm.Expand256(hash);
  }

  lemma ConcatThree(a: seq<U8>, b: seq<U8>, c: seq<U8>)
    ensures Concat([a, b, c]) == a + b + c
  {
    assert Concat([a]) == Concat([]) + a == a;
    assert [a, b][..1] == [a];
    assert Concat([a, b]) == a + b;
    assert [a, b, c][..2] == [a, b];
  }

  /** RS holds R = [r]B and S = r + H(R, A, m) a, for some r. */
  ghost predicate Signed<T>(f: Compress, m: seq<U8>, pk: seq<U8>, rs: seq<U8>, a: nat, r: nat, g: Group<T>, at: T -> Aff, b: T) {
    |rs| == 64 && Encoded(rs[..32], at(Mul(g, r, b))) && Answers(rs[32..], f, rs[..32], pk, m, a, r)
  }

  /** tail is S = H(R, A, m) a + r in bytes. */
  ghost predicate Answers(tail: seq<U8>, f: Compress, encoded: seq<U8>, pk: seq<U8>, m: seq<U8>, a: nat, r: nat) {
    IsResponse(tail, Challenge(f, encoded, pk, m), a, r)
  }

  predicate IsResponse(tail: seq<U8>, h: int, a: int, r: int) {
    |tail| == 32 && LE(tail) == (h * a % Modm.M + r) % Modm.M
  }

  /** `ed25519_sign` */
  method Sign<T(!new)>(f: Compress, m: seq<U8>, sk: seq<U8>, pk: seq<U8>, table: seq<seq<U8>>,
                       ghost g: Group<T>, ghost at: T -> Aff, ghost b: T, ghost sliding: seq<Niels>)
    returns (rs: seq<U8>, ghost nonce: nat)
    requires EightWords(f) && Curve(g, at, b, table, sliding)
    ensures Signed(f, m, pk, rs, Secret(f, sk), nonce, g, at, b)
    ensures |Digest(f, sk)| == 64 && nonce == LE(Digest(f, Digest(f, sk)[32..] + m)) % Modm.M
    ensures |rs| == 64 && Encoded(rs[..32], at(Mul(g, nonce, b)))
  {
    var a, r := SignScalars(f, m, sk);
    nonce := r.Val();
    var encoded := BaseBytes(r, table, g, at, b, sliding);
    var tail := Response(f, encoded, pk, m, a, r, Secret(f, sk), nonce);
    rs := encoded + tail;
    assert rs[..32] == encoded && rs[32..] == tail;
  }

  /** S is H(R, A, m) a + r modulo m. */
  lemma SignedResponse<T>(f: Compress, m: seq<U8>, pk: seq<U8>, rs: seq<U8>, a: nat, r: nat, g: Group<T>, at: T -> Aff, b: T)
    requires Signed(f, m, pk, rs, a, r, g, at, b)
    ensures LE(rs[32..]) == (LE(Digest(f, rs[..32] + pk + m)) % Modm.M * a + r) % Modm.M
  {
    SumModulo(Challenge(f, rs[..32], pk, m) * a, r, LE(rs[32..]));
  }

  lemma SumModulo(x: int, r: int, s: int)
    requires s == (x % Modm.M + r) % Modm.M
    ensures s == (x + r) % Modm.M
  {
    var t := x % Modm.M + r;
    QuoRem(x + r, Modm.M, x / Modm.M + t / Modm.M, t % Modm.M);
  }

  /** Lines 65-72 and 83: the secret scalar and the nonce. */
  method SignScalars(f: Compress, m: seq<U8>, sk: seq<U8>) returns (a: Modm.Num, r: Modm.Num)
    requires EightWords(f)
    ensures a.Reduced() && a.Val() == Secret(f, sk)
    ensures |Digest(f, sk)| == 64 && r.Reduced() && r.Val() == LE(Digest(f, Digest(f, sk)[32..] + m)) % Modm.M
  {
    DigestLength(f, sk);
    ClampIs(Digest(f, sk));
    var extsk := ExtSk(f, sk);
    r := HashScalar(f, [extsk[32..], m]);
    ConcatTwo(extsk[32..], m);
    a := Modm.Expand256(extsk[..32]);
  }

  lemma ConcatTwo(a: seq<U8>, b: seq<U8>)
    ensures Concat([a, b]) == a + b
  {
    assert Concat([a]) == Concat([]) + a == a;
    assert [a, b][..1] == [a];
  }

  /** Lines 79-90: S = H(R, A, m) a + r in bytes. */
  method Response(f: Compress, encoded: seq<U8>, pk: seq<U8>, m: seq<U8>, a: Modm.Num, r: Modm.Num, ghost x: nat, ghost y: nat)
    returns (tail: seq<U8>)
    requires EightWords(f) && a.Reduced() && r.Reduced() && a.Val() == x && r.Val() == y
    ensures Answers(tail, f, encoded, pk, m, x, y)
  {
    var s; ghost var h;
    s, h := ChallengeScalar(f, encoded, pk, m);
    Modm.MeansIff(s, h);
    Modm.MeansIff(a, x);
    Modm.MeansIff(r, y);
    tail := MulAddBytes(s, a, r, h, x, y);
  }

  /** `ed25519_hram`, reduced. */
  method ChallengeScalar(f: Compress, encoded: seq<U8>, pk: seq<U8>, m: seq<U8>) returns (s: Modm.Num, ghost h: nat)
    requires EightWords(f)
    ensures h == Challenge(f, encoded, pk, m) && s.Reduced() && s.Val() == h
  {
    h := Challenge(f, encoded, pk, m);
    s := HashScalar(f, [encoded, pk, m]);
    ConcatThree(encoded, pk, m);
  }

  method MulAddBytes(s: Modm.Num, a: Modm.Num, r: Modm.Num, ghost h: int, ghost x: int, ghost y: int) returns (tail: seq<U8>)
    requires Modm.Means(s, h) && Modm.Means(a, x) && Modm.Means(r, y)
    ensures IsResponse(tail, h, x, y)
  {
    var t := Modm.MulMeans(s, a, h, x);
    t := Modm.AddMeans(t, r, h * x % Modm.M, y);
    tail := ScalarBytes(t, (h * x % Modm.M + y) % Modm.M);
  }

  method ScalarBytes(s: Modm.Num, ghost v: int) returns (b: seq<U8>)
    requires Modm.Means(s, v)
    ensures |b| == 32 && LE(b) == v
  {
    Modm.MeansIff(s, v);
    b := Modm.Contract256(s);
  }

  // ----- verification

  /** [s]b - [h]p */
  function Difference<T>(g: Group<T>, s: int, b: T, h: int, p: T): T {
    g.add(Mul(g, s, b), Mul(g, -h, p))
  }

  /** [h](-p) + [s]b = [s]b - [h]p */
  lemma PairIsDifference<T(!new)>(g: Group<T>, h: nat, p: T, s: nat, b: T)
    requires Abelian(g) && g.mem(p) && g.mem(b)
    ensures g.mem(g.neg(p)) && Pair(g, h, g.neg(p), s, b) == Difference(g, s, b, h, p)
  {
    MulNeg(g, h, p);
    MulMem(g, s, b);
    MulMem(g, -(h as int), p);
    Law(g, Mul(g, s, b), Mul(g, -(h as int), p), b);
  }

  lemma DifferenceMem<T(!new)>(g: Group<T>, s: nat, b: T, h: nat, p: T)
    requires Abelian(g) && g.mem(b) && g.mem(p)
    ensures g.mem(Difference(g, s, b, h, p))
  {
    MulMem(g, s, b);
    MulMem(g, -(h as int), p);
    Law(g, Mul(g, s, b), Mul(g, -(h as int), p), b);
  }

  /** What verification compares R with, for a key that encodes p. */
  ghost function Expected<T>(f: Compress, m: seq<U8>, pk: seq<U8>, rs: seq<U8>, g: Group<T>, b: T, p: T): T
    requires |rs| == 64
  {
    Difference(g, LE(rs[32..]) % Modm.M, b, Challenge(f, rs[..32], pk, m), p)
  }

  /** The key decodes to the element p, S has 253 bits, and R is the encoding of [S]B - [h]A. */
  ghost predicate AcceptedFor<T>(f: Compress, m: seq<U8>, pk: seq<U8>, rs: seq<U8>, g: Group<T>, at: T -> Aff, b: T, p: T) {
    && |rs| == 64 && g.mem(p) && Decodes(pk, at(p))
    && rs[63] < 32 && Encoded(rs[..32], at(Expected(f, m, pk, rs, g, b, p)))
  }

  ghost predicate Accepted<T(!new)>(f: Compress, m: seq<U8>, pk: seq<U8>, rs: seq<U8>, g: Group<T>, at: T -> Aff, b: T) {
    exists p :: AcceptedFor(f, m, pk, rs, g, at, b, p)
  }

  /** Whatever the key decodes to has order m. */
  ghost predicate OrderedKey<T(!new)>(g: Group<T>, at: T -> Aff, pk: seq<U8>) {
    forall p :: g.mem(p) && Decodes(pk, at(p)) ==> Mul(g, Modm.M, p) == g.zero
  }

  /** A key decodes to one element only. */
  lemma DecodedOnce<T(!new)>(g: Group<T>, at: T -> Aff, bytes: seq<U8>, p: T, q: T)
    requires Prime(P) && Faithful(g, at) && g.mem(p) && g.mem(q) && Decodes(bytes, at(p)) && Decodes(bytes, at(q))
    ensures p == q
  {
    DecodesOnce(bytes, at(p), at(q));
    assert Same(at(p), at(q));
  }

  /** What `ge25519_unpack_negative_vartime` returns is the negative of an element. */
  method DecodeNegative<T(!new)>(bytes: seq<U8>, ghost g: Group<T>, ghost at: T -> Aff) returns (r: Ext, ok: bool, ghost p: T)
    requires Prime(P) && Points(g, at) && Covers(g, at) && Faithful(g, at) && |bytes| == 32
    ensures ok ==> g.mem(p) && Decodes(bytes, at(p)) && g.mem(g.neg(p)) && Full(r, at(g.neg(p)))
    ensures !ok ==> forall q :: g.mem(q) ==> !Decodes(bytes, at(q))
  {
    ghost var v;
    r, ok, v := Unpack(bytes);
    if ok {
      ghost var t :| Located(g, at, v, t);
      p := g.neg(t);
      NegatedElement(g, at, bytes, v, t);
      FullEqm(r, v, at(t));
    } else {
      p := g.zero;
    }
  }

  lemma NegatedElement<T(!new)>(g: Group<T>, at: T -> Aff, bytes: seq<U8>, v: Aff, t: T)
    requires Points(g, at) && Faithful(g, at) && Located(g, at, v, t) && Decodes(bytes, Minus(v))
    ensures g.mem(g.neg(t)) && Decodes(bytes, at(g.neg(t))) && t == g.neg(g.neg(t)) && Same(v, at(t))
  {
    var p := g.neg(t);
    PointsLaw(g, at, t, t);
    Law(g, t, t, t);
    PointsLaw(g, at, p, p);
    SameSym(at(t), v);
    EqmScale(-1, at(t).x, v.x);
    SameTrans(at(p), Minus(at(t)), Minus(v));
    SameSym(at(p), Minus(v));
    DecodesSame(bytes, Minus(v), at(p));
    NegTwice(g, t);
  }

  lemma NegTwice<T(!new)>(g: Group<T>, t: T)
    requires Abelian(g) && g.mem(t)
    ensures g.mem(g.neg(t)) && g.neg(g.neg(t)) == t
  {
    var p := g.neg(t);
    Law(g, t, t, t);
    Law(g, t, p, t);
    Law(g, p, p, p);
    Law(g, g.neg(p), p, p);
    Cancel(g, t, g.neg(p), p);
  }

  /** `ed25519_sign_open`; true stands for the return value 0. */
  method SignOpen<T(!new)>(f: Compress, m: seq<U8>, pk: seq<U8>, rs: seq<U8>, sliding: seq<Niels>,
                           ghost g: Group<T>, ghost at: T -> Aff, ghost b: T, ghost table: seq<seq<U8>>)
    returns (ok: bool)
    requires EightWords(f) && Curve(g, at, b, table, sliding) && |pk| == 32 && |rs| == 64
    ensures ok <==> Accepted(f, m, pk, rs, g, at, b)
  {
    if rs[63] >= 32 { return false; } // `RS[63] & 224`
    var a, good; ghost var p;
    a, good, p := DecodeNegative(pk, g, at);
    if !good { return false; }
    var check; ghost var h, s;
    check, h, s := CheckBytes(f, m, pk, rs, a, sliding, g, at, b, table, g.neg(p));
    ok := rs[..32] == check;
    PairIsDifference(g, h, p, s, b);
    SameBytes(rs[..32], check, at(Expected(f, m, pk, rs, g, b, p)));
    OneElement(f, m, pk, rs, g, at, b, p);
  }

  /** Acceptance is decided by the element the key decodes to. */
  lemma OneElement<T(!new)>(f: Compress, m: seq<U8>, pk: seq<U8>, rs: seq<U8>, g: Group<T>, at: T -> Aff, b: T, p: T)
    requires Prime(P) && Faithful(g, at) && g.mem(p) && Decodes(pk, at(p))
    ensures Accepted(f, m, pk, rs, g, at, b) <==> AcceptedFor(f, m, pk, rs, g, at, b, p)
  {
    forall q | AcceptedFor(f, m, pk, rs, g, at, b, q) ensures q == p { DecodedOnce(g, at, pk, q, p); }
  }

  lemma SameBytes(a: seq<U8>, b: seq<U8>, u: Aff)
    requires Encoded(b, u)
    ensures a == b <==> Encoded(a, u)
  {
    if Encoded(a, u) {
      EqmRefl(u.x);
      EqmRefl(u.y);
      EncodedUnique(a, b, u, u);
    }
  }

  /** Lines 103-112. */
  method CheckBytes<T(!new)>(f: Compress, m: seq<U8>, pk: seq<U8>, rs: seq<U8>, a: Ext, sliding: seq<Niels>,
                             ghost g: Group<T>, ghost at: T -> Aff, ghost b: T, ghost table: seq<seq<U8>>, ghost t: T)
    returns (check: seq<U8>, ghost h: nat, ghost s: nat)
    requires EightWords(f) && Curve(g, at, b, table, sliding) && |rs| == 64 && g.mem(t) && Full(a, at(t))
    ensures h == Challenge(f, rs[..32], pk, m) && s == LE(rs[32..]) % Modm.M
    ensures Encoded(check, at(Pair(g, h, t, s, b)))
  {
    var hram;
    hram, h := ChallengeScalar(f, rs[..32], pk, m);
    var sc := Modm.Expand256(rs[32..]);
    s := LE(rs[32..]) % Modm.M;
    Below255(hram);
    Below255(sc);
    ExponentIs();
    var r := DoubleScalarmult(a, hram, sc, sliding, g, at, t, b);
    check := Pack(r, at(Pair(g, h, t, s, b)));
  }

  // ----- every signature verifies

  /** [h]([a]b) subtracted from [h a + r]b leaves [r]b. */
  lemma VerifyEquation<T(!new)>(g: Group<T>, b: T, h: nat, a: nat, x: int, r: int)
    requires Abelian(g) && g.mem(b) && x == h * a
    ensures Difference(g, x + r, b, h, Mul(g, a, b)) == Mul(g, r, b)
  {
    MinusProduct(g, b, h, a, x);
    MulAdd(g, x + r, -x, b);
  }

  lemma MinusProduct<T(!new)>(g: Group<T>, b: T, h: nat, a: nat, x: int)
    requires Abelian(g) && g.mem(b) && x == h * a
    ensures Mul(g, -(h as int), Mul(g, a, b)) == Mul(g, -x, b)
  {
    MulMem(g, a, b);
    MulMul(g, h, a, b);
    MulMinus(g, h, Mul(g, a, b));
    MulMinus(g, x, b);
  }

  lemma ScalarQuotient(h: nat, a: nat, r: nat, s: int, order: nat) returns (k: nat)
    requires order > 0 && s == (h * a % order + r) % order
    ensures h * a + r == s + k * order
  {
    var x := h * a;
    var i, j := x / order, (x % order + r) / order;
    assert x == order * i + x % order && x % order + r == order * j + s;
    assert i >= 0 && j >= 0;
    k := i + j;
    assert (i + j) * order == order * i + order * j;
  }

  /** The sign/verify equation: R = [S]B - [H(R, A, m)]A, and S fits in 253 bits. */
  lemma SignedVerifies<T(!new)>(f: Compress, m: seq<U8>, pk: seq<U8>, rs: seq<U8>, a: nat, r: nat, g: Group<T>, at: T -> Aff, b: T)
    requires Abelian(g) && g.mem(b) && Mul(g, Modm.M, b) == g.zero && Signed(f, m, pk, rs, a, r, g, at, b)
    ensures rs[63] < 32 && Expected(f, m, pk, rs, g, b, Mul(g, a, b)) == Mul(g, r, b)
  {
    var h, s := Challenge(f, rs[..32], pk, m), LE(rs[32..]);
    var k := ScalarQuotient(h, a, r, s, Modm.M);
    QuoRem(s, Modm.M, 0, s);
    MulModOrder(g, b, Modm.M, s, k);
    VerifyEquation(g, b, h, a, h * a, r);
    LastByte(rs[32..]);
  }

  /** Keys, signature and verification in a row: every signature made with its own key is accepted. */
  method SignThenOpen<T(!new)>(f: Compress, m: seq<U8>, sk: seq<U8>, table: seq<seq<U8>>, sliding: seq<Niels>,
                               ghost g: Group<T>, ghost at: T -> Aff, ghost b: T)
    returns (ok: bool)
    requires EightWords(f) && Curve(g, at, b, table, sliding)
    ensures ok
  {
    var pk := PublicKey(f, sk, table, g, at, b, sliding);
    var rs; ghost var r;
    rs, r := Sign(f, m, sk, pk, table, g, at, b, sliding);
    ok := SignOpen(f, m, pk, rs, sliding, g, at, b, table);
    ghost var a := Secret(f, sk);
    MulMem(g, a, b);
    SignedVerifies(f, m, pk, rs, a, r, g, at, b);
    PointsLaw(g, at, Mul(g, a, b), b);
    EncodedDecodes(pk, at(Mul(g, a, b)));
    assert AcceptedFor(f, m, pk, rs, g, at, b, Mul(g, a, b));
  }
}
