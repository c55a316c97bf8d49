/** The branch-free forms that the arithmetic modules write as conditionals. */
module BitTricks {

  /** `r ^= mask & (r ^ t)` with mask = b - 1 keeps r for b = 1 and takes t for b = 0
      (modm-donna-64bit.h, lines 56-62). */
  lemma MaskedMove(r: bv64, t: bv64, b: bv64)
    requires b == 0 || b == 1
    ensures r ^ ((b - 1) & (r ^ t)) == if b == 1 then r else t
  {
    if b == 0 { assert b - 1 == 0xffff_ffff_ffff_ffff; }
  }

  /** `(x & nb) | (y & b)` with nb = flag - 1 and b = ~nb (`curve25519_move_conditional_bytes`). */
  lemma ConditionalMove(x: bv64, y: bv64, flag: bv64)
    requires flag == 0 || flag == 1
    ensures var nb := flag - 1; (x & nb) | (y & !nb) == if flag == 1 then y else x
  {
    if flag == 0 { assert flag - 1 == 0xffff_ffff_ffff_ffff; }
  }

  /** `x = swap & (a ^ b); a ^= x; b ^= x` with swap = -iswap (`curve25519_swap_conditional`). */
  lemma ConditionalSwap(a: bv64, b: bv64, iswap: bv64)
    requires iswap == 0 || iswap == 1
    ensures a ^ ((0 - iswap) & (a ^ b)) == if iswap == 1 then b else a
    ensures b ^ ((0 - iswap) & (a ^ b)) == if iswap == 1 then a else b
  {
    if iswap == 1 {
      Swapped(a, b);
      Swapped(b, a);
    }
  }

  lemma Swapped(a: bv64, b: bv64)
    ensures a ^ (0xffff_ffff_ffff_ffff & (a ^ b)) == b && b ^ (0xffff_ffff_ffff_ffff & (a ^ b)) == a
  {
  }

  /** `((b ^ c) - 1) >> 31` tests equality of small numbers (`ge25519_windowb_equal`). */
  lemma WindowEqual(b: bv32, c: bv32)
    requires b < 0x8000_0000 && c < 0x8000_0000
    ensures ((b ^ c) - 1) >> 31 == if b == c then 1 else 0
  {
  }

  /** `(b + mask) ^ mask` with mask = ~(sign - 1): the absolute value of a digit d, where b is d or,
      for a negative digit, its two's complement. */
  lemma AbsoluteValue(d: bv32, negative: bool)
    requires d <= 8
    ensures var b, sign: bv32 := if negative then 0 - d else d, if negative then 1 else 0;
            var mask := !(sign - 1);
            (b + mask) ^ mask == d
  {
  }

  /** Bits that differ in some position survive in the union. */
  lemma SomeDifference(d: bv32, x: bv8, y: bv8)
    requires d < 0x100
    ensures var e := d | ((x ^ y) as bv32); e < 0x100 && (e == 0 <==> d == 0 && x == y)
  {
  }

  /** `ed25519_verify`: 1 exactly for equal strings, without an early exit. */
  method Verify(x: seq<bv8>, y: seq<bv8>) returns (r: bv32)
    requires |x| == |y|
    ensures r == if x == y then 1 else 0
  {
    var differentbits: bv32 := 0;
    for i := 0 to |x|
      invariant differentbits < 0x100 && (differentbits == 0 <==> x[..i] == y[..i])
    {
      SomeDifference(differentbits, x[i], y[i]);
      assert x[..i + 1] == x[..i] + [x[i]] && y[..i + 1] == y[..i] + [y[i]];
      differentbits := differentbits | ((x[i] ^ y[i]) as bv32);
    }
    assert x[..|x|] == x && y[..|y|] == y;
    r := 1 & ((differentbits - 1) >> 8);
    LowByte(differentbits);
  }

  lemma LowByte(d: bv32)
    requires d < 0x100
    ensures 1 & ((d - 1) >> 8) == if d == 0 then 1 else 0
  {
  }
}
