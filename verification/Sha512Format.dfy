/** The bytes that the one-shot hash of module Sha512 works on, as FIPS 180-4 describes them: padding
    (section 5.1.2), initial value (section 5.3.5) and the order of the digest's bytes (section 6.4.2). */
module Sha512Format {
  import opened Words
  import opened Pow2s
  import opened Sha512

  /** The k low bytes of n denote n modulo 256^k, */
  lemma {:induction false} BENumber(n: nat, k: nat)
    ensures Number(BE(n, k)) == n % Pow256(k)
  {
    if k > 0 {
      BENumber(n / 0x100, k - 1);
      var s := BE(n / 0x100, k - 1);
      assert BE(n, k)[..k - 1] == s;
      LowBytes(n, Pow256(k - 1));
    }
  }

  lemma LowBytes(n: int, w: int)
    requires n >= 0 && w > 0
    ensures n % (0x100 * w) == n / 0x100 % w * 0x100 + n % 0x100
  {
    var q := n / 0x100;
    assert n == 0x100 * (w * (q / w) + q % w) + n % 0x100;
    assert 0x100 * (w * (q / w)) == (0x100 * w) * (q / w);
    QuoRem(n, 0x100 * w, q / w, q % w * 0x100 + n % 0x100);
  }

  /** and byte j is n shifted right by 8 (k - 1 - j). */
  lemma {:induction false} BEByte(n: nat, k: nat, j: nat)
    requires j < k
    ensures BE(n, k)[j] == n / Pow256(k - 1 - j) % 0x100
  {
    if j < k - 1 {
      BEByte(n / 0x100, k - 1, j);
      DivDiv(n, 0x100, Pow256(k - 2 - j));
    }
  }

  /** The padded message: the message, one bit, the fewest zeroes that leave 16 bytes up to a multiple of
      128, and in these the length in bits. This determines every byte. */
  lemma PaddedIs(m: seq<U8>)
    ensures var p := Padded(m);
            && |p| % 128 == 0 && |m| + 17 <= |p| < |m| + 17 + 128
            && p[..|m|] == m && p[|m|] == 0x80 && (forall i :: |m| < i < |p| - 16 ==> p[i] == 0)
            && Number(p[|p| - 16..]) == 8 * |m| % Pow2(128)
  {
    var p := Padded(m);
    PaddedLength(m);
    assert p[|p| - 16..] == LengthField(|m|);
    LengthNumber(|m|);
  }

  lemma LengthNumber(n: nat)
    ensures Number(LengthField(n)) == 8 * n % Pow2(128)
  {
    Pow256Step(8);
    Pow256Step(0);
    Pow2Values();
    Pow2Add(32, 32);
    Pow2Add(64, 64);
    var bits := 8 * n % 0x1_00000000_00000000_00000000_00000000;
    BENumber(bits, 16);
    QuoRem(bits, 0x1_00000000_00000000_00000000_00000000, 0, bits);
  }

  lemma PaddedLength(m: seq<U8>)
    ensures |Padded(m)| == |m| + 17 + (111 - |m|) % 128 && |Padded(m)| % 128 == 0
  {
    var left, q := |m| % 128, |m| / 128;
    if left <= 111 {
      QuoRem(111 - |m|, 128, -q, 111 - left);
      QuoRem(|Padded(m)|, 128, q + 1, 0);
    } else {
      QuoRem(111 - |m|, 128, -q - 1, 239 - left);
      QuoRem(|Padded(m)|, 128, q + 2, 0);
    }
  }

  /** Word i takes bytes 8i to 8i + 7 of the digest, most significant first. */
  lemma {:induction false} SerializeByte(h: seq<nat>, i: nat, j: nat)
    requires i < |h| && j < 8
    ensures |Serialize(h)| == 8 * |h| && Serialize(h)[8 * i + j] == h[i] / Pow256(7 - j) % 0x100
  {
    if i == 0 {
      SerializeSize(h[1..]);
      BEByte(h[0], 8, j);
    } else {
      SerializeByte(h[1..], i - 1, j);
    }
  }

  lemma {:induction false} SerializeSize(h: seq<nat>)
    ensures |Serialize(h)| == 8 * |h|
  {
    if h != [] { SerializeSize(h[1..]); }
  }

  /** w is the first 64 bits of the fraction of the square root of q, whose integer part is k. */
  ghost predicate RootFraction(q: int, k: int, w: int) {
    var x := k * 0x1_0000_0000_0000_0000 + w;
    && 0 <= w < 0x1_0000_0000_0000_0000 && k * k <= q < (k + 1) * (k + 1)
    && x * x <= q * 0x1_0000_0000_0000_0000_0000_0000_0000_0000 < (x + 1) * (x + 1)
  }

  /** The initial value comes from the first eight primes. */
  lemma InitialValue()
    ensures |IV| == 8
    ensures RootFraction(2, 1, IV[0])
    ensures RootFraction(3, 1, IV[1])
    ensures RootFraction(5, 2, IV[2])
    ensures RootFraction(7, 2, IV[3])
    ensures RootFraction(11, 3, IV[4])
    ensures RootFraction(13, 3, IV[5])
    ensures RootFraction(17, 4, IV[6])
    ensures RootFraction(19, 4, IV[7])
  {
  }
}
