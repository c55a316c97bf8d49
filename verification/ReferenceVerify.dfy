/** Decoding and verification of the reference implementation bin/python/ed25519.py (lines 80-104), and
    how its verdict relates to that of the C code. */
module ReferenceVerify {
  import opened Words
  import opened Pow2s
  import opened Primes
  import opened Sha512
  import opened Field
  import opened FieldRing
  import opened FieldPrime
  import opened Edwards
  import opened Groups
  import opened Ladder
  import opened Encoding
  import opened Elements
  import opened Ed25519
  import opened Reference
  import opened ReferenceSign
  import Modm

  // ----- decoding

  /** `sum(2**i * bit(s,i) for i in range(0,b-1))` */
  function PyY(s: seq<U8>): int
    requires |s| == 32
  {
    PySum(s, 0, 255)
  }

  lemma YIs(s: seq<U8>)
    requires |s| == 32
    ensures PyY(s) == LE(s) % TWO255 && PyBit(s, 255) == s[31] / 128
  {
    SumOfBits(s, 0, 255);
    ExponentIs();
    assert Pow2(0) == 1 && LE(s) % 1 == 0;
    SmallPowers();
    QuoRem(s[31] / 128, 2, 0, s[31] / 128);
  }

  /** The point of `decodepoint` before its test. */
  function PyPoint(s: seq<U8>): Aff
    requires |s| == 32
  {
    var x := XRecover(PyY(s));
    Aff(if x % 2 != PyBit(s, 255) then P - x else x, PyY(s))
  }

  /** The value that `isoncurve` tests. */
  ghost predicate IsDefect(u: Aff, e: int) {
    forall t {:trigger Opened(t)} :: Opened(t) ==> e == -u.x * u.x + u.y * u.y - 1 - PyD() * u.x * u.x * u.y * u.y
  }

  ghost function Defect(u: Aff): (e: int)
    ensures IsDefect(u, e)
  {
    assert IsDefect(u, -u.x * u.x + u.y * u.y - 1 - PyD() * u.x * u.x * u.y * u.y);
    var e :| IsDefect(u, e);
    e
  }

  /** `isoncurve` */
  ghost predicate PyOnCurve(u: Aff) {
    Defect(u) % P == 0
  }

  lemma OnCurveIs(u: Aff)
    requires Prime(P)
    ensures PyOnCurve(u) <==> OnCurve(u)
  {
    var k := PyD() * u.x * u.x * u.y * u.y;
    var e := Defect(u);
    assert e == -u.x * u.x + u.y * u.y - 1 - k by { assert IsDefect(u, e) && Opened(0); }
    PyDIs();
    PyK(u, u, PyD(), k);
    EqmRefl(u.y * u.y - u.x * u.x);
    EqmAdd(u.y * u.y - u.x * u.x, u.y * u.y - u.x * u.x, 1 + k, 1 + K(u, u));
    assert -u.x * u.x == -(u.x * u.x);
    ZeroDifference(u.y * u.y - u.x * u.x, 1 + K(u, u));
    ZeroResidue(e);
    EqmSym(e, u.y * u.y - u.x * u.x - (1 + K(u, u)));
    if Eqm(e, 0) { EqmTrans(u.y * u.y - u.x * u.x - (1 + K(u, u)), e, 0); }
    if OnCurve(u) { EqmTrans(e, u.y * u.y - u.x * u.x - (1 + K(u, u)), 0); }
  }

  lemma ZeroResidue(e: int)
    ensures e % P == 0 <==> Eqm(e, 0)
  {
    if e % P == 0 { EqmBy(e, 0, e / P); }
    if Eqm(e, 0) { SameResidue(e, 0); }
  }

  lemma PointParity(s: seq<U8>)
    requires |s| == 32
    ensures 0 <= PyPoint(s).x <= P && PyPoint(s).x % 2 == s[31] / 128 && (PyPoint(s).x == P ==> s[31] / 128 == 1)
    ensures PyPoint(s).x % P == 0 || PyPoint(s).x % P % 2 == s[31] / 128
  {
    YIs(s);
    XRecoverEven(PyY(s));
    ParityChoice(XRecover(PyY(s)), s[31] / 128, PyPoint(s).x);
  }

  /** Of an even x and p - x, the one with the given parity. */
  lemma ParityChoice(x: int, bit: int, r: int)
    requires 0 <= x < P && x % 2 == 0 && 0 <= bit <= 1 && r == if x % 2 != bit then P - x else x
    ensures 0 <= r <= P && r % 2 == bit && (r == P ==> bit == 1) && (r % P == 0 || r % P % 2 == bit)
  {
    if r < P { QuoRem(r, P, 0, r); } else { QuoRem(r, P, 1, 0); }
  }

  /** `decodepoint` succeeds exactly on the strings that `ge25519_unpack_negative_vartime` takes, and
      gives the point. */
  lemma DecodePointIs(s: seq<U8>, u: Aff)
    requires Prime(P) && |s| == 32
    ensures PyOnCurve(PyPoint(s)) ==> Decodes(s, PyPoint(s))
    ensures Decodes(s, u) ==> PyOnCurve(PyPoint(s)) && Same(PyPoint(s), u)
  {
    var v := PyPoint(s);
    YIs(s);
    PointParity(s);
    OnCurveIs(v);
    EqmRefl(v.y);
    if Decodes(s, u) {
      OverY(u.x, u.y, v.y);
      XRecovers(v.y, u.x);
      OppositeRoot(XRecover(v.y), v.y);
      DecodesOnce(s, v, u);
    }
  }

  /** With x, its opposite P - x lies on the curve. */
  lemma OppositeRoot(x: int, y: int)
    requires OnCurve(Aff(x, y))
    ensures OnCurve(Aff(P - x, y))
  {
    EqmBy(P - x, -x, 1);
    EqmMul(P - x, -x, P - x, -x);
    assert (-x) * (-x) == x * x;
    var e := y * y * D() + 1;
    CurveForm(x, y);
    EqmScale(e, (P - x) * (P - x), x * x);
    assert e * ((P - x) * (P - x)) == (P - x) * (P - x) * e && e * (x * x) == x * x * e;
    EqmTrans((P - x) * (P - x) * e, x * x * e, y * y - 1);
    CurveForm(P - x, y);
  }

  /** Encoding the decoded point gives back the string, canonical or not. */
  lemma EncodeDecoded(s: seq<U8>)
    requires |s| == 32
    ensures PyEncodePoint(PyPoint(s)) == s
  {
    var u := PyPoint(s);
    var bits := PyBits(u.y, 255) + [u.x % 2];
    YIs(s);
    PointParity(s);
    Encoding.TopBitIs(s);
    ExponentIs();
    QuoRem(LE(s), TWO255, s[31] / 128, u.y);
    StringBits(s, bits, u.y, u.x % 2);
    PackIs(bits, LE(s));
    BytesAndBits(32);
    LEBound(s, Pow256(32));
    QuoRem(LE(s), Pow2(256), 0, LE(s));
    LEInjective(PyEncodePoint(u), s);
  }

  lemma StringBits(s: seq<U8>, bits: seq<int>, y: int, top: int)
    requires |s| == 32 && bits == PyBits(y, 255) + [top] && 0 <= top <= 1 && LE(s) == y + TWO255 * top && 0 <= y < TWO255
    ensures BitsOf(bits, LE(s))
  {
    ExponentIs();
    forall i: nat | i < 256 ensures bits[i] == Bit(LE(s), i) {
      assert LE(s) == y + top * Pow2(255);
      if i < 255 { BitAbove(y, top, i, 255); } else { QuoRem(LE(s), Pow2(255), top, y); }
    }
  }

  // ----- verification

  /** `checkvalid`: both points decode, and [S]B = R + [h]A in coordinates. */
  ghost predicate PyValid(f: Compress, m: seq<U8>, pk: seq<U8>, rs: seq<U8>)
    requires EightWords(f) && |pk| == 32 && |rs| == 64
  {
    HintIs(f, PyEncodePoint(PyPoint(rs[..32])) + pk + m);
    AllBits(rs[32..]);
    var bigR, bigA := PyPoint(rs[..32]), PyPoint(pk);
    && PyOnCurve(bigR) && PyOnCurve(bigA)
    && PyMul(PyBase(), PySum(rs[32..], 0, 256)) == PyAdd(bigR, PyMul(bigA, PyHint(f, PyEncodePoint(bigR) + pk + m)))
  }

  /** A decoded point as an element of the group. */
  lemma DecodedElement<T(!new)>(g: Group<T>, at: T -> Aff, s: seq<U8>) returns (t: T)
    requires Prime(P) && Points(g, at) && Covers(g, at) && |s| == 32 && PyOnCurve(PyPoint(s))
    ensures g.mem(t) && Same(PyPoint(s), at(t)) && Decodes(s, at(t)) && OnCurve(PyPoint(s))
  {
    var u := PyPoint(s);
    DecodePointIs(s, u);
    t :| Located(g, at, u, t);
    SameSym(at(t), u);
    PointsLaw(g, at, t, t);
    DecodesSame(s, u, at(t));
  }

  /** Reduced coordinates of the same element are equal. */
  lemma SameReduced(u: Aff, v: Aff)
    requires Same(u, v) && 0 <= u.x < P && 0 <= u.y < P && 0 <= v.x < P && 0 <= v.y < P
    ensures u == v
  {
    SameResidue(u.x, v.x);
    SameResidue(u.y, v.y);
    QuoRem(u.x, P, 0, u.x);
    QuoRem(u.y, P, 0, u.y);
    QuoRem(v.x, P, 0, v.x);
    QuoRem(v.y, P, 0, v.y);
  }

  /** The comparison of coordinates is a comparison of elements. */
  lemma Compared<T(!new)>(s: nat, h: nat, u: Aff, v: Aff, r: T, a: T, g: Group<T>, at: T -> Aff, b: T, table: seq<seq<U8>>, sliding: seq<Niels>)
    requires Shared(g, at, b, table, sliding) && g.mem(r) && g.mem(a)
    requires Same(u, at(r)) && OnCurve(u) && Same(v, at(a)) && OnCurve(v)
    ensures PyMul(PyBase(), s) == PyAdd(u, PyMul(v, h)) <==> Mul(g, s, b) == g.add(r, Mul(g, h, a))
  {
    var left, right := PyMul(PyBase(), s), PyAdd(u, PyMul(v, h));
    BaseIs();
    PyMulIsMul(g, at, PyBase(), b, s);
    PyMulIsMul(g, at, v, a, h);
    PyAddElements(g, at, u, PyMul(v, h), r, Mul(g, h, a));
    PyMulReduced(PyBase(), s);
    var x, y := Mul(g, s, b), g.add(r, Mul(g, h, a));
    if left == right {
      SameSym(left, at(x));
      SameTrans(at(x), left, at(y));
    }
    if x == y {
      SameSym(right, at(y));
      SameTrans(left, at(x), right);
      SameReduced(left, right);
    }
  }

  /** [S]B = R + [h]A exactly when R = [S]B - [h]A, with both scalars reduced, for a key of order m. */
  lemma Rearranged<T(!new)>(g: Group<T>, b: T, r: T, a: T, s: nat, h: nat, order: nat)
    requires Abelian(g) && g.mem(b) && g.mem(r) && g.mem(a) && order > 0 && Mul(g, order, b) == g.zero && Mul(g, order, a) == g.zero
    ensures Mul(g, s, b) == g.add(r, Mul(g, h, a)) <==> r == Difference(g, s % order, b, h % order, a)
  {
    MulReduced(g, b, order, s);
    MulReduced(g, a, order, h);
    var x, y := Mul(g, s, b), Mul(g, h, a);
    MulMem(g, s, b);
    MulMem(g, h, a);
    MulMinus(g, h % order, a);
    AddSub(g, r, y);
    AddSub(g, x, y);
  }

  /** Both implementations agree on keys of order m, up to what only the C code tests: the top bits of S,
      and that R is in canonical form. */
  lemma SameVerdict<T(!new)>(f: Compress, m: seq<U8>, pk: seq<U8>, rs: seq<U8>, g: Group<T>, at: T -> Aff, b: T, table: seq<seq<U8>>, sliding: seq<Niels>)
    requires EightWords(f) && Shared(g, at, b, table, sliding) && |pk| == 32 && |rs| == 64
    requires OrderedKey(g, at, pk)
    ensures Accepted(f, m, pk, rs, g, at, b)
       <==> PyValid(f, m, pk, rs) && rs[63] < 32 && Encoded(rs[..32], PyPoint(rs[..32]))
  {
    if PyValid(f, m, pk, rs) { ValidAccepted(f, m, pk, rs, g, at, b, table, sliding); }
    if Accepted(f, m, pk, rs, g, at, b) { AcceptedValid(f, m, pk, rs, g, at, b, table, sliding); }
  }

  /** The elements behind a key and an R that both decode. */
  lemma Elementwise<T(!new)>(f: Compress, m: seq<U8>, pk: seq<U8>, rs: seq<U8>, g: Group<T>, at: T -> Aff, b: T, table: seq<seq<U8>>, sliding: seq<Niels>)
    returns (r: T, a: T)
    requires EightWords(f) && Shared(g, at, b, table, sliding) && |pk| == 32 && |rs| == 64
    requires OrderedKey(g, at, pk)
    requires PyOnCurve(PyPoint(rs[..32])) && PyOnCurve(PyPoint(pk))
    ensures g.mem(r) && Same(PyPoint(rs[..32]), at(r)) && g.mem(a) && Decodes(pk, at(a))
    ensures PyValid(f, m, pk, rs) <==> r == Expected(f, m, pk, rs, g, b, a)
  {
    r := DecodedElement(g, at, rs[..32]);
    a := DecodedElement(g, at, pk);
    EncodeDecoded(rs[..32]);
    HintIs(f, rs[..32] + pk + m);
    AllBits(rs[32..]);
    var s, h := LE(rs[32..]), LE(Digest(f, rs[..32] + pk + m));
    Compared(s, h, PyPoint(rs[..32]), PyPoint(pk), r, a, g, at, b, table, sliding);
    Rearranged(g, b, r, a, s, h, Modm.M);
  }

  lemma ValidAccepted<T(!new)>(f: Compress, m: seq<U8>, pk: seq<U8>, rs: seq<U8>, g: Group<T>, at: T -> Aff, b: T, table: seq<seq<U8>>, sliding: seq<Niels>)
    requires EightWords(f) && Shared(g, at, b, table, sliding) && |pk| == 32 && |rs| == 64
    requires OrderedKey(g, at, pk)
    requires PyValid(f, m, pk, rs)
    ensures rs[63] < 32 && Encoded(rs[..32], PyPoint(rs[..32])) ==> Accepted(f, m, pk, rs, g, at, b)
  {
    var r, a := Elementwise(f, m, pk, rs, g, at, b, table, sliding);
    if rs[63] < 32 && Encoded(rs[..32], PyPoint(rs[..32])) {
      EncodedSame(rs[..32], PyPoint(rs[..32]), at(r));
      assert AcceptedFor(f, m, pk, rs, g, at, b, a);
    }
  }

  lemma AcceptedValid<T(!new)>(f: Compress, m: seq<U8>, pk: seq<U8>, rs: seq<U8>, g: Group<T>, at: T -> Aff, b: T, table: seq<seq<U8>>, sliding: seq<Niels>)
    requires EightWords(f) && Shared(g, at, b, table, sliding) && |pk| == 32 && |rs| == 64
    requires OrderedKey(g, at, pk)
    requires Accepted(f, m, pk, rs, g, at, b)
    ensures PyValid(f, m, pk, rs) && rs[63] < 32 && Encoded(rs[..32], PyPoint(rs[..32]))
  {
    var p :| AcceptedFor(f, m, pk, rs, g, at, b, p);
    var q := Expected(f, m, pk, rs, g, b, p);
    DifferenceMem(g, LE(rs[32..]) % Modm.M, b, Challenge(f, rs[..32], pk, m), p);
    PointsLaw(g, at, q, q);
    EncodedDecodes(rs[..32], at(q));
    DecodePointIs(rs[..32], at(q));
    DecodePointIs(pk, at(p));
    var r, a := Elementwise(f, m, pk, rs, g, at, b, table, sliding);
    DecodedOnce(g, at, pk, a, p);
    SameSym(PyPoint(rs[..32]), at(r));
    SameTrans(at(r), PyPoint(rs[..32]), at(q));
    SameSym(PyPoint(rs[..32]), at(q));
    EncodedSame(rs[..32], at(q), PyPoint(rs[..32]));
  }

  /** The encoding depends on the residues only. */
  lemma EncodedSame(s: seq<U8>, u: Aff, v: Aff)
    requires Encoded(s, u) && Same(u, v)
    ensures Encoded(s, v)
  {
    SameResidue(u.x, v.x);
    SameResidue(u.y, v.y);
  }
}
