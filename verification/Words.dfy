/** Machine words and byte strings.

    A C `uint64_t` or `uint128_t` is an `int`; a local variable of type `U64` or `U128` holds a
    value the source keeps in 64 or 128 bits, so that every assignment to it is an obligation
    that the value fits and no such step can overflow. Where the source relies on wrap-around,
    the wrap is written out as `% W64`. A mask `& (2^k - 1)` is `% 2^k`, `>> k` is `/ 2^k`, and
    `|` of two numbers without a common bit is `+`. */
module Words {

  type U8 = x: int | 0 <= x < 0x100
  type U64 = x: int | 0 <= x < 0x1_0000_0000_0000_0000
  type U128 = x: int | 0 <= x < 0x1_0000_0000_0000_0000_0000_0000_0000_0000

  const W64: int := 0x1_0000_0000_0000_0000

  /** Quotient and remainder are determined by x = d * q + r with 0 <= r < d. */
  lemma QuoRem(x: int, d: int, q: int, r: int)
    requires 0 <= r < d && x == d * q + r
    ensures x / d == q && x % d == r
  {
    assert d * (q - x / d) == x % d - r;
    SmallMultiple(d, q - x / d);
  }

  lemma SmallMultiple(d: int, k: int)
    requires -d < d * k < d
    ensures k == 0
  {
  }

  lemma MulMono(c: int, a: int, b: int)
    requires c >= 0 && a <= b
    ensures c * a <= c * b
  {
    var d := b - a;
    assert c * d >= 0;
    assert c * (a + d) == c * a + c * d;
  }

  lemma ProductBelow(a: int, b: int, m: int, n: int)
    requires 0 <= a < m && 0 <= b < n
    ensures 0 <= a * b < m * n
  {
    MulMono(a, 0, b);
    MulMono(a, b, n);
    MulMono(n, a, m - 1);
    assert n * (m - 1) == m * n - n && a * n == n * a;
  }

  lemma ShiftedRemainder(b: int, d: int, e: int)
    requires d > 0 && e > 0
    ensures d * e > 0 && b * e % (d * e) == e * (b % d)
  {
    var q, l := b / d, b % d;
    assert b * e == (d * q + l) * e == (d * e) * q + e * l;
    assert e * l < d * e;
    QuoRem(b * e, d * e, q, e * l);
  }

  lemma SumRemainder(h: int, l: int, e: int, t: int)
    requires 0 <= h < e && t > 0
    ensures e * t > 0 && (h + e * l) % (e * t) == h + e * (l % t)
  {
    var q, r := l / t, l % t;
    MulMono(e, 1, t);
    MulMono(e, 0, r);
    MulMono(e, r, t - 1);
    assert e * (t - 1) == e * t - e;
    assert e * l == (e * t) * q + e * r by {
      assert e * (t * q + r) == e * (t * q) + e * r && e * (t * q) == (e * t) * q;
    }
    QuoRem(h + e * l, e * t, q, h + e * r);
  }

  lemma NestedRemainder(b: int, t: int, u: int)
    requires t > 0 && u > 0
    ensures t * u > 0 && b % (t * u) % t == b % t
  {
    var q, l := b / (t * u), b % (t * u);
    assert b == (t * u) * q + l == t * (u * q) + l;
    assert b == t * (u * q + l / t) + l % t;
    QuoRem(b, t, u * q + l / t, l % t);
  }

  lemma QuotientBelow(a: int, d: int, e: int)
    requires d > 0 && 0 <= a < d * e
    ensures 0 <= a / d < e
  {
    var q := a / d;
    if q >= e { MulMono(d, e, q); }
  }

  /** `((a >> s) | (b << (64 - s))) & mask`, with d = 2^s, e = 2^(64 - s) and mask + 1 = e * t. */
  method Funnel(a: int, b: int, d: int, e: int, t: int, ghost u: int) returns (r: int)
    requires 0 <= a < W64 && 0 <= b && d > 0 && e > 0 && t > 0 && u > 0
    requires W64 == d * e && d == t * u
    ensures r == a / d + e * (b % t) && 0 <= a / d < e
  {
    QuotientBelow(a, d, e);
    ShiftedRemainder(b, d, e);
    SumRemainder(a / d, b % d, e, t);
    NestedRemainder(b, t, u);
    r := (a / d + b * e % W64) % (e * t);
  }

  /** The number a little-endian byte string denotes. */
  function LE(s: seq<U8>): (n: nat) {
    if s == [] then 0 else s[0] as int + 0x100 * LE(s[1..])
  }

  function Half(s: seq<U8>, at: nat): (w: int)
    requires at + 4 <= |s|
    ensures 0 <= w < 0x1_0000_0000
  {
    s[at] as int + 0x100 * (s[at + 1] as int) + 0x1_0000 * (s[at + 2] as int) + 0x100_0000 * (s[at + 3] as int)
  }

  /** `U8TO64_LE(s + at)` */
  function Load64(s: seq<U8>, at: nat): (w: int)
    requires at + 8 <= |s|
    ensures 0 <= w < W64
  {
    Half(s, at) + 0x1_0000_0000 * Half(s, at + 4)
  }

  function StoreHalf(w: int): (s: seq<U8>)
    requires 0 <= w < 0x1_0000_0000
    ensures |s| == 4 && Half(s, 0) == w
  {
    assert w / 0x1_0000 == w / 0x1_0000 % 0x100 + 0x100 * (w / 0x100_0000);
    [w % 0x100, w / 0x100 % 0x100, w / 0x1_0000 % 0x100, w / 0x100_0000]
  }

  /** The eight bytes `U64TO8_LE` writes. */
  function Store64(w: int): (s: seq<U8>)
    requires 0 <= w < W64
    ensures |s| == 8 && Load64(s, 0) == w
  {
    StoreHalf(w % 0x1_0000_0000) + StoreHalf(w / 0x1_0000_0000)
  }

  lemma HalfIsLE(s: seq<U8>)
    requires |s| >= 4
    ensures LE(s) == Half(s, 0) + 0x1_0000_0000 * LE(s[4..])
  {
    assert s[1..][1..] == s[2..] && s[2..][1..] == s[3..] && s[3..][1..] == s[4..];
    assert LE(s) == s[0] + 0x100 * LE(s[1..]) && LE(s[1..]) == s[1] + 0x100 * LE(s[2..]);
    assert LE(s[2..]) == s[2] + 0x100 * LE(s[3..]) && LE(s[3..]) == s[3] + 0x100 * LE(s[4..]);
  }

  /** A 64-bit load is eight steps of `LE`. */
  lemma LoadIsLE(s: seq<U8>, at: nat)
    requires at + 8 <= |s|
    ensures LE(s[at..]) == Load64(s, at) + W64 * LE(s[at + 8..])
  {
    HalfIsLE(s[at..]);
    HalfIsLE(s[at + 4..]);
    assert s[at..][4..] == s[at + 4..] && s[at + 4..][4..] == s[at + 8..];
  }

  /** A store followed by a load is the identity. */
  lemma StoreLE(w: int, rest: seq<U8>)
    requires 0 <= w < W64
    ensures LE(Store64(w) + rest) == w + W64 * LE(rest)
  {
    LoadIsLE(Store64(w) + rest, 0);
    assert (Store64(w) + rest)[0..] == Store64(w) + rest;
    assert (Store64(w) + rest)[8..] == rest;
    assert Load64(Store64(w) + rest, 0) == Load64(Store64(w), 0);
  }

  lemma {:induction false} LEBound(s: seq<U8>, bound: nat)
    requires bound == Pow256(|s|)
    ensures LE(s) < bound
  {
    if s != [] { LEBound(s[1..], Pow256(|s| - 1)); }
  }

  function Pow256(n: nat): (p: nat)
    ensures p > 0
  {
    if n == 0 then 1 else 0x100 * Pow256(n - 1)
  }

  lemma Pow256Step(n: nat)
    ensures Pow256(n + 8) == W64 * Pow256(n)
  {
    assert Pow256(n + 2) == 0x1_0000 * Pow256(n);
    assert Pow256(n + 4) == 0x1_0000 * Pow256(n + 2);
    assert Pow256(n + 6) == 0x1_0000 * Pow256(n + 4);
    assert Pow256(n + 8) == 0x1_0000 * Pow256(n + 6);
  }

  lemma {:induction false} Pow256Grows(m: nat, n: nat)
    requires m <= n
    ensures Pow256(m) <= Pow256(n)
  {
    if m < n { Pow256Grows(m, n - 1); }
  }

  lemma Pow256Of32()
    ensures Pow256(32) == TWO256 && Pow256(31) == 0x1000000_00000000_00000000_00000000_00000000_00000000_00000000_00000000
  {
    Pow256Step(24);
    Pow256Step(16);
    Pow256Step(8);
    Pow256Step(0);
  }

  function Zeroes(n: nat): seq<U8> {
    seq(n, i => 0)
  }

  /** Trailing zero bytes do not change the value: `memcpy` into a zeroed buffer. */
  lemma {:induction false} LEZeroes(s: seq<U8>, n: nat)
    ensures LE(s + Zeroes(n)) == LE(s)
    decreases |s|, n
  {
    var z := Zeroes(n);
    if s != [] {
      assert (s + z)[1..] == s[1..] + z;
      LEZeroes(s[1..], n);
    } else if n > 0 {
      assert (s + z)[1..] == s + Zeroes(n - 1);
      LEZeroes(s, n - 1);
    }
  }

  /** Little-endian strings of one length are determined by their value. */
  lemma {:induction false} LEInjective(s: seq<U8>, t: seq<U8>)
    requires |s| == |t| && LE(s) == LE(t)
    ensures s == t
  {
    if s != [] {
      assert LE(s) % 0x100 == s[0] && LE(t) % 0x100 == t[0];
      LEInjective(s[1..], t[1..]);
      assert s == [s[0]] + s[1..] && t == [t[0]] + t[1..];
    }
  }

  function Radix64(x0: int, x1: int, x2: int, x3: int): int {
    x0 + 0x1_00000000_00000000 * x1 + 0x1_00000000_00000000_00000000_00000000 * x2
    + 0x1_00000000_00000000_00000000_00000000_00000000_00000000 * x3
  }

  const TWO248: int := 0x1000000_00000000_00000000_00000000_00000000_00000000_00000000_00000000
  const TWO255: int := 0x80000000_00000000_00000000_00000000_00000000_00000000_00000000_00000000
  const TWO256: int := 0x1_00000000_00000000_00000000_00000000_00000000_00000000_00000000_00000000

  /** Four 64-bit loads. */
  lemma LoadWords(s: seq<U8>, at: nat)
    requires at + 32 <= |s|
    ensures LE(s[at..]) == Radix64(Load64(s, at), Load64(s, at + 8), Load64(s, at + 16), Load64(s, at + 24))
                           + TWO256 * LE(s[at + 32..])
  {
    LoadIsLE(s, at);
    LoadIsLE(s, at + 8);
    LoadIsLE(s, at + 16);
    LoadIsLE(s, at + 24);
    Horner64(LE(s[at..]), LE(s[at + 8..]), LE(s[at + 16..]), LE(s[at + 24..]), LE(s[at + 32..]),
             Load64(s, at), Load64(s, at + 8), Load64(s, at + 16), Load64(s, at + 24));
  }

  lemma Horner64(n0: int, n1: int, n2: int, n3: int, n4: int, x0: int, x1: int, x2: int, x3: int)
    requires n0 == x0 + W64 * n1 && n1 == x1 + W64 * n2 && n2 == x2 + W64 * n3 && n3 == x3 + W64 * n4
    ensures n0 == Radix64(x0, x1, x2, x3) + TWO256 * n4
  {
  }

  lemma LoadWords8(s: seq<U8>)
    requires |s| == 64
    ensures LE(s) == Radix64(Load64(s, 0), Load64(s, 8), Load64(s, 16), Load64(s, 24))
                     + TWO256 * Radix64(Load64(s, 32), Load64(s, 40), Load64(s, 48), Load64(s, 56))
  {
    assert s[0..] == s;
    LoadWords(s, 0);
    LoadTop(s, 32);
  }

  /** Four loads that reach the end of the string. */
  lemma LoadTop(s: seq<U8>, at: nat)
    requires at + 32 == |s|
    ensures LE(s[at..]) == Radix64(Load64(s, at), Load64(s, at + 8), Load64(s, at + 16), Load64(s, at + 24))
  {
    LoadWords(s, at);
    assert s[at + 32..] == [];
  }

  lemma ShortLE(s: seq<U8>)
    requires |s| < 32
    ensures LE(s) < TWO256 / 0x100
  {
    LEBound(s, Pow256(|s|));
    Pow256Grows(|s|, 31);
    Pow256Of32();
  }

  /** `(a >> k) | (b << (64 - k))` with d = 2^(64 - k) and e = 2^k: the low part of b above a. */
  method Pack64(a: int, b: int, d: int, e: int) returns (w: int)
    requires 0 <= a < e && 0 <= b && d > 0 && d * e == W64
    ensures w == a + e * (b % d) && 0 <= w < W64
  {
    ShiftedRemainder(b, d, e);
    w := a + b * e % W64;
    assert e * (b % d) <= e * (d - 1) == e * d - e;
  }

  lemma StoreWords(w0: int, w1: int, w2: int, w3: int)
    requires 0 <= w0 < W64 && 0 <= w1 < W64 && 0 <= w2 < W64 && 0 <= w3 < W64
    ensures LE(Store64(w0) + (Store64(w1) + (Store64(w2) + Store64(w3)))) == Radix64(w0, w1, w2, w3)
  {
    var s3 := Store64(w3);
    var s2 := Store64(w2) + s3;
    var s1 := Store64(w1) + s2;
    StoreLE(w3, []);
    assert s3 + [] == s3;
    StoreLE(w2, s3);
    StoreLE(w1, s2);
    StoreLE(w0, s1);
    Horner64(LE(Store64(w0) + s1), LE(s1), LE(s2), LE(s3), 0, w0, w1, w2, w3);
  }

  // ----- big-endian strings

  /** The number that a string denotes, most significant byte first: `int(binascii.hexlify(s), 16)`. */
  function Number(s: seq<U8>): (n: nat) {
    if s == [] then 0 else Number(s[..|s| - 1]) * 0x100 + s[|s| - 1]
  }

  lemma {:induction false} NumberConcat(a: seq<U8>, b: seq<U8>)
    ensures Number(a + b) == Number(a) * Pow256(|b|) + Number(b)
  {
    if b == [] {
      assert a + b == a;
    } else {
      var t := b[..|b| - 1];
      NumberConcat(a, t);
      assert (a + b)[..|a + b| - 1] == a + t;
      assert (Number(a) * Pow256(|t|)) * 0x100 == Number(a) * Pow256(|b|);
    }
  }

  lemma {:induction false} NumberBound(s: seq<U8>)
    ensures Number(s) < Pow256(|s|)
  {
    if s != [] { NumberBound(s[..|s| - 1]); }
  }
}
