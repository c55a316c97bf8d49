/** Powers of two and the bits of a number. */
module Pow2s {
  import opened Words

  function Pow2(n: nat): (p: int)
    ensures p > 0
  {
    if n == 0 then 1 else 2 * Pow2(n - 1)
  }

  function Pow(b: int, n: nat): int {
    if n == 0 then 1 else b * Pow(b, n - 1)
  }

  lemma {:induction false} PowIsPow2(n: nat)
    ensures Pow(2, n) == Pow2(n)
  {
    if n > 0 { PowIsPow2(n - 1); }
  }

  lemma Associate(a: int, b: int, c: int)
    ensures a * b * c == a * (b * c)
  {
  }

  lemma {:induction false} PowAdd(b: int, m: nat, n: nat)
    ensures Pow(b, m + n) == Pow(b, m) * Pow(b, n)
  {
    if m > 0 {
      PowAdd(b, m - 1, n);
      Associate(b, Pow(b, m - 1), Pow(b, n));
    }
  }

  lemma {:induction false} PowPositive(b: int, n: nat)
    requires b > 0
    ensures Pow(b, n) > 0
  {
    if n > 0 { PowPositive(b, n - 1); }
  }

  lemma {:induction false} Pow2Add(m: nat, n: nat)
    ensures Pow2(m + n) == Pow2(m) * Pow2(n)
  {
    if m > 0 {
      Pow2Add(m - 1, n);
      Associate(2, Pow2(m - 1), Pow2(n));
    }
  }

  lemma {:induction false} Pow2Grows(m: nat, n: nat)
    requires m <= n
    ensures Pow2(m) <= Pow2(n)
  {
    if m < n { Pow2Grows(m, n - 1); }
  }

  lemma Pow2Less(m: nat, n: nat)
    requires m < n
    ensures Pow2(m) < Pow2(n)
  {
    Pow2Grows(m + 1, n);
  }

  lemma Pow2Values()
    ensures Pow2(8) == 0x100 && Pow2(16) == 0x1_0000 && Pow2(32) == 0x1_0000_0000 && Pow2(56) == 0x1_00000000_000000
  {
    assert Pow2(4) == 16;
    Pow2Add(4, 4);
    Pow2Add(8, 8);
    Pow2Add(16, 8);
    Pow2Add(16, 16);
    Pow2Add(32, 24);
  }

  lemma PowWeights()
    ensures Pow(2, 56) == 0x1_00000000_000000 && Pow(2, 32) == 0x1_00000000
    ensures Pow(2, 112) == 0x1_00000000_00000000_00000000_0000
    ensures Pow(2, 168) == 0x1_00000000_00000000_00000000_00000000_00000000_00
    ensures Pow(2, 224) == 0x1_00000000_00000000_00000000_00000000_00000000_00000000_00000000
  {
    Pow2Values();
    PowIsPow2(56);
    PowIsPow2(32);
    PowAdd(2, 56, 56);
    PowAdd(2, 112, 56);
    PowAdd(2, 168, 56);
  }

  lemma PowWeights16()
    ensures Pow(16, 14) == 0x1_00000000_000000 && Pow(16, 8) == 0x1_00000000
    ensures Pow(16, 28) == 0x1_00000000_00000000_00000000_0000
    ensures Pow(16, 42) == 0x1_00000000_00000000_00000000_00000000_00000000_00
    ensures Pow(16, 56) == 0x1_00000000_00000000_00000000_00000000_00000000_00000000_00000000
  {
    assert Pow(16, 2) == 0x100;
    PowAdd(16, 2, 2);
    PowAdd(16, 4, 4);
    PowAdd(16, 4, 2);
    PowAdd(16, 8, 6);
    PowAdd(16, 14, 14);
    PowAdd(16, 28, 14);
    PowAdd(16, 42, 14);
  }

  /** The largest power of two that is at most n. */
  function TopBit(n: nat): (t: nat)
    requires n > 0
  {
    if n == 1 then 1 else 2 * TopBit(n / 2)
  }

  lemma {:induction false} TopBitIs(n: nat, t: nat)
    requires Pow2(t) <= n < Pow2(t + 1)
    ensures TopBit(n) == Pow2(t)
  {
    if t > 0 { TopBitIs(n / 2, t - 1); }
  }

  /** n >> b */
  function High(n: nat, b: nat): (h: nat) {
    QuotientSign(n, Pow2(b));
    n / Pow2(b)
  }

  lemma QuotientSign(n: int, p: int)
    requires 0 <= n && 0 < p
    ensures 0 <= n / p
  {
  }

  /** Doubling and adding the next bit. */
  lemma NextBit(n: nat, b: nat)
    ensures High(n, b) == 2 * High(n, b + 1) + Bit(n, b) && 0 <= Bit(n, b) <= 1
  {
    DivDiv(n, Pow2(b), 2);
    assert Pow2(b) * 2 == Pow2(b + 1);
  }

  /** Bit b of n. */
  function Bit(n: int, b: nat): int {
    n / Pow2(b) % 2
  }

  lemma NestedQuotient(n: int, a: int, b: int, q: int, r: int, q': int, r': int)
    requires n == a * q + r && q == b * q' + r' && 0 <= r < a && 0 <= r' < b
    ensures n == (a * b) * q' + (a * r' + r) && 0 <= a * r' + r < a * b
  {
    assert a * q == a * (b * q') + a * r';
    assert a * (b * q') == (a * b) * q';
    MulMono(a, 0, r');
    MulMono(a, r', b - 1);
    assert a * (b - 1) == a * b - a;
  }

  lemma DivDiv(n: int, a: int, b: int)
    requires a > 0 && b > 0
    ensures a * b > 0 && n / a / b == n / (a * b)
  {
    var q, r := n / a, n % a;
    NestedQuotient(n, a, b, q, r, q / b, q % b);
    QuoRem(n, a * b, q / b, a * (q % b) + r);
  }

  lemma AddMultiple(n: int, p: int, m: int)
    requires p > 0
    ensures (n + p * m) / p == n / p + m
  {
    assert n + p * m == p * (n / p + m) + n % p;
    QuoRem(n + p * m, p, n / p + m, n % p);
  }

  lemma ShiftAbove(n: int, m: int, p: int, d: int, w: int)
    requires p > 0 && w == p * d
    ensures (n + m * w) / p == n / p + m * d
  {
    assert m * w == p * (m * d) by { assert m * (p * d) == p * (m * d); }
    AddMultiple(n, p, m * d);
  }

  lemma EvenShift(x: int, m: int, d: int, h: int)
    requires d == 2 * h
    ensures (x + m * d) % 2 == x % 2
  {
    assert m * d == 2 * (m * h);
  }

  /** Adding a multiple of a higher power of two leaves bit b alone. */
  lemma BitAbove(n: int, m: int, b: nat, c: nat)
    requires b < c
    ensures (n + m * Pow2(c)) / Pow2(b) == n / Pow2(b) + m * Pow2(c - b)
    ensures Bit(n + m * Pow2(c), b) == Bit(n, b)
  {
    Pow2Add(b, c - b);
    ShiftAbove(n, m, Pow2(b), Pow2(c - b), Pow2(c));
    EvenShift(n / Pow2(b), m, Pow2(c - b), Pow2(c - b - 1));
  }
}
