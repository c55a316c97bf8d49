/** Recoding of scalars into signed digits (modm-donna-64bit.h, lines 213-280), in place on the
    digit array. */
module Recode {
  import opened Words
  import opened Pow2s
  import opened Modm
  import opened BatchModm

  // ----- sums of digits

  /** r[j] * 2^j + r[j+1] * 2^(j+1) + ... */
  function Tail(r: seq<int>, j: nat): int
    decreases |r| - j
  {
    if j >= |r| then 0 else r[j] * Pow2(j) + Tail(r, j + 1)
  }

  /** The number an array of signed binary digits denotes. */
  function Value(r: seq<int>): int {
    Tail(r, 0)
  }

  lemma {:induction false} TailUpdate(r: seq<int>, j: nat, i: nat, x: int)
    requires i < |r|
    ensures Tail(r[i := x], j) == Tail(r, j) + if j <= i then (x - r[i]) * Pow2(i) else 0
    decreases |r| - j
  {
    if j < |r| {
      TailUpdate(r, j + 1, i, x);
      if i == j { assert x * Pow2(i) == r[i] * Pow2(i) + (x - r[i]) * Pow2(i); }
    }
  }

  lemma {:induction false} TailSame(r: seq<int>, t: seq<int>, j: nat)
    requires |r| == |t| && forall i :: j <= i < |r| ==> r[i] == t[i]
    ensures Tail(r, j) == Tail(t, j)
    decreases |r| - j
  {
    if j < |r| { TailSame(r, t, j + 1); }
  }

  predicate Bits(r: seq<int>, j: nat) {
    forall i :: j <= i < |r| ==> 0 <= r[i] <= 1
  }

  /** The tail of a bit array lies between 0 and the all-ones value. */
  lemma {:induction false} TailBits(r: seq<int>, j: nat)
    requires Bits(r, j) && j <= |r|
    ensures 0 <= Tail(r, j) <= Pow2(|r|) - Pow2(j)
    decreases |r| - j
  {
    if j < |r| {
      TailBits(r, j + 1);
      assert r[j] * Pow2(j) == if r[j] == 1 then Pow2(j) else 0;
    }
  }

  /** It is a multiple of its lowest weight. */
  function TailQuotient(r: seq<int>, j: nat): (q: int)
    requires j <= |r|
    ensures Tail(r, j) == Pow2(j) * q
    decreases |r| - j
  {
    if j == |r| then 0 else
      var q := TailQuotient(r, j + 1);
      assert r[j] * Pow2(j) + Pow2(j + 1) * q == Pow2(j) * (r[j] + 2 * q) by {
        assert Pow2(j + 1) * q == Pow2(j) * (2 * q);
      }
      r[j] + 2 * q
  }

  // ----- carrying

  /** After the carry loop passed positions k to c - 1, which were all ones. */
  predicate Carrying(r: seq<int>, r0: seq<int>, k: nat, c: nat) {
    && |r| == |r0| && k <= c <= |r| && r[..k] == r0[..k]
    && (forall i :: k <= i < c ==> r[i] == 0 && r0[i] == 1)
    && (forall i :: c <= i < |r| ==> r[i] == r0[i])
    && Tail(r, k) + Pow2(c) == Tail(r0, k) + Pow2(k)
  }

  lemma CarryOn(r: seq<int>, r0: seq<int>, k: nat, c: nat)
    requires Carrying(r, r0, k, c) && c < |r| && r[c] == 1
    ensures Carrying(r[c := 0], r0, k, c + 1)
  {
    TailUpdate(r, k, c, 0);
  }

  lemma CarryEnds(r: seq<int>, r0: seq<int>, k: nat, c: nat)
    requires Carrying(r, r0, k, c) && c < |r| && r[c] == 0 && Bits(r0, k)
    ensures Tail(r[c := 1], k) == Tail(r0, k) + Pow2(k) && Bits(r[c := 1], k) && r[c := 1][..k] == r0[..k]
  {
    TailUpdate(r, k, c, 1);
  }

  /** The carry cannot run off the end of the array. */
  lemma CarryFits(r: seq<int>, r0: seq<int>, k: nat, c: nat, limit: nat)
    requires Carrying(r, r0, k, c) && Bits(r0, k) && limit < |r0| && Tail(r0, k) + Pow2(k) <= Pow2(limit)
    ensures c < |r|
  {
    if c == |r| {
      Pow2Less(limit, |r|);
      assert Tail(r, k) >= 0 by { TailBits(r, k); }
    }
  }

  /** The carry loop (lines 268-274): adds 2^k to the bits from k on. */
  method Carry(r: array<int>, k: nat, ghost limit: nat)
    requires k < r.Length == 256 && Bits(r[..], k) && limit < 256
    requires Tail(r[..], k) + Pow2(k) <= Pow2(limit)
    modifies r
    ensures r[..k] == old(r[..k]) && Bits(r[..], k)
    ensures Tail(r[..], k) == old(Tail(r[..], k)) + Pow2(k)
    ensures old(r[k]) == 1 ==> r[k] == 0
  {
    ghost var r0, now := r[..], r[..];
    var c := k;
    while c < 256 && r[c] != 0
      invariant k <= c <= 256 && now == r[..] && Carrying(now, r0, k, c)
    {
      CarryOn(now, r0, k, c);
      r[c] := 0;
      now := now[c := 0];
      assert r[..] == now;
      c := c + 1;
    }
    CarryFits(now, r0, k, c, limit);
    CarryEnds(now, r0, k, c);
    r[c] := 1;
    assert r[..] == now[c := 1];
  }

  // ----- sliding windows

  /** Digit j has taken in the bits up to position j + b - 1, and w - 1 bits at most; what is still
      to come are bits. While the digit is positive, the rest of the number leaves room for a carry. */
  predicate Sliding(r: seq<int>, j: nat, b: nat, w: nat, limit: nat) {
    && |r| == 256 && j < 256 && 1 <= b && 2 <= w <= 7 && limit < 256
    && Bits(r, j + 1)
    && (forall k :: j < k < 256 && k < j + b && k < j + w ==> r[k] == 0)
    && r[j] % 2 == 1 && -Pow2(w - 1) < r[j] < Pow2(w - 1)
    && (b < w ==> 1 <= r[j] < Pow2(b) && Tail(r, j) <= Pow2(limit))
    && Tail(r, j + 1) <= Pow2(limit)
  }

  /** Which branch of lines 263-277 is taken. */
  lemma Branches(d: int, b: nat, w: nat)
    requires 1 <= b && 2 <= w && -Pow2(w - 1) < d < Pow2(w - 1) && (b < w ==> 1 <= d < Pow2(b))
    ensures d + Pow2(b) <= Pow2(w - 1) - 1 <==> b + 1 < w
    ensures b + 1 >= w ==> (d - Pow2(b) >= -(Pow2(w - 1) - 1) <==> b + 1 == w)
  {
    if b + 1 < w { Pow2Grows(b + 1, w - 1); }
    if b >= w { Pow2Grows(w, b); }
  }

  lemma SlideZero(r: seq<int>, j: nat, b: nat, w: nat, limit: nat)
    requires Sliding(r, j, b, w, limit) && j + b < 256 && r[j + b] == 0
    ensures Sliding(r, j, b + 1, w, limit)
  {
    assert Pow2(b + 1) == 2 * Pow2(b);
  }

  /** Merging a one bit into the digit. */
  lemma SlideMerge(r: seq<int>, r': seq<int>, j: nat, b: nat, w: nat, limit: nat)
    requires Sliding(r, j, b, w, limit) && j + b < 256 && r[j + b] == 1 && b + 1 < w
    requires r' == r[j := r[j] + Pow2(b)][j + b := 0]
    ensures Value(r') == Value(r) && Sliding(r', j, b + 1, w, limit)
  {
    MergeTails(r, r', j, b, 0);
    MergeTails(r, r', j, b, j);
    MergeTails(r, r', j, b, j + 1);
    Pow2Grows(b + 1, w - 1);
    OddDigit(r[j], b);
    Pow2Grows(0, j + b);
  }

  /** Adding or subtracting 2^b keeps a positive b-bit digit odd. */
  lemma OddDigit(d: int, b: nat)
    requires 1 <= b && d % 2 == 1 && 1 <= d < Pow2(b)
    ensures (d + Pow2(b)) % 2 == 1 && 1 <= d + Pow2(b) < Pow2(b + 1)
    ensures (d - Pow2(b)) % 2 == 1 && -Pow2(b) < d - Pow2(b) < 0
  {
    assert Pow2(b) == 2 * Pow2(b - 1);
  }

  lemma MergeTails(r: seq<int>, r': seq<int>, j: nat, b: nat, i: nat)
    requires 1 <= b && j + b < |r| && r[j + b] == 1 && i <= j + 1
    requires r' == r[j := r[j] + Pow2(b)][j + b := 0]
    ensures Tail(r', i) == Tail(r, i) - if i <= j then 0 else Pow2(j + b)
  {
    var t := r[j := r[j] + Pow2(b)];
    TailUpdate(r, i, j, r[j] + Pow2(b));
    TailUpdate(t, i, j + b, 0);
    Pow2Add(b, j);
  }

  /** Before a digit turns negative there is room for the carry. */
  lemma RoomForCarry(r: seq<int>, j: nat, b: nat, w: nat, limit: nat)
    requires Sliding(r, j, b, w, limit) && j + b < 256 && r[j + b] == 1 && b + 1 == w
    ensures Tail(r, j + b) + Pow2(j + b) <= Pow2(limit)
  {
    TailZeroes(r, j + 1, j + b);
    assert r[j] * Pow2(j) >= Pow2(j);
    NextTail(r, j + b, limit);
  }

  lemma NextTail(r: seq<int>, k: nat, limit: nat)
    requires k < |r| && Bits(r, k) && r[k] == 1 && Tail(r, k) < Pow2(limit)
    ensures Tail(r, k) + Pow2(k) <= Pow2(limit)
  {
    assert k < limit by {
      TailBits(r, k + 1);
      if limit <= k { Pow2Grows(limit, k); }
    }
    Pow2Add(k, limit - k);
    NextMultiple(Tail(r, k), Pow2(k), TailQuotient(r, k), Pow2(limit - k), Pow2(limit));
  }

  lemma NextMultiple(t: int, p: int, q: int, n: int, l: int)
    requires p > 0 && t == p * q && l == p * n && t < l
    ensures t + p <= l
  {
    PositiveMultiple(p, n - q);
    assert p * (n - q) == l - t;
  }

  lemma PositiveMultiple(p: int, k: int)
    requires p > 0
    ensures p * k > 0 ==> p * k >= p
  {
  }

  lemma {:induction false} TailZeroes(r: seq<int>, i: nat, k: nat)
    requires i <= k <= |r| && forall l :: i <= l < k ==> r[l] == 0
    ensures Tail(r, i) == Tail(r, k)
    decreases k - i
  {
    if i < k { TailZeroes(r, i + 1, k); }
  }

  /** Turning the digit negative and carrying into the bits above. */
  lemma SlideCarry(r: seq<int>, r': seq<int>, j: nat, b: nat, w: nat, limit: nat)
    requires Sliding(r, j, b, w, limit) && j + b < 256 && r[j + b] == 1 && b + 1 == w && |r'| == 256
    requires r'[..j] == r[..j] && r'[j] == r[j] - Pow2(b) && (forall k :: j < k < j + b ==> r'[k] == 0)
    requires Bits(r', j + b) && r'[j + b] == 0 && Tail(r', j + b) == Tail(r, j + b) + Pow2(j + b)
    ensures Value(r') == Value(r) && Sliding(r', j, b + 1, w, limit)
  {
    CarryTails(r, r', j, b);
    HeadSame(r, r', 0, j);
    RoomForCarry(r, j, b, w, limit);
    OddDigit(r[j], b);
  }

  lemma CarryTails(r: seq<int>, r': seq<int>, j: nat, b: nat)
    requires |r| == |r'| && 1 <= b && j + b < |r| && r'[j] == r[j] - Pow2(b)
    requires forall k :: j < k < j + b ==> r'[k] == 0 && r[k] == 0
    requires Tail(r', j + b) == Tail(r, j + b) + Pow2(j + b)
    ensures Tail(r', j) == Tail(r, j) && Tail(r', j + 1) == Tail(r, j + b) + Pow2(j + b)
  {
    TailZeroes(r, j + 1, j + b);
    TailZeroes(r', j + 1, j + b);
    Pow2Add(b, j);
    assert (r[j] - Pow2(b)) * Pow2(j) == r[j] * Pow2(j) - Pow2(b) * Pow2(j);
  }

  lemma {:induction false} HeadSame(r: seq<int>, r': seq<int>, i: nat, j: nat)
    requires i <= j <= |r| == |r'| && r'[..j] == r[..j] && Tail(r', j) == Tail(r, j)
    ensures Tail(r', i) == Tail(r, i)
    decreases j - i
  {
    if i < j {
      HeadSame(r, r', i + 1, j);
      assert r[i] == r[..j][i] && r'[i] == r'[..j][i];
    }
  }

  /** `r[j] += r[j + b] << b; r[j + b] = 0` */
  method MergeBit(r: array<int>, j: nat, b: nat, w: nat, ghost limit: nat)
    requires r.Length == 256 && Sliding(r[..], j, b, w, limit) && j + b < 256 && (r[j + b] == 0 || b + 1 < w)
    modifies r
    ensures r[..j] == old(r[..j]) && Value(r[..]) == old(Value(r[..]))
    ensures Sliding(r[..], j, b + 1, w, limit)
  {
    ghost var r0 := r[..];
    if r[j + b] == 0 {
      SlideZero(r0, j, b, w, limit);
    } else {
      SlideMerge(r0, r0[j := r0[j] + Pow2(b)][j + b := 0], j, b, w, limit);
    }
    r[j] := r[j] + r[j + b] * Pow2(b);
    r[j + b] := 0;
    assert r[..] == if r0[j + b] == 0 then r0 else r0[j := r0[j] + Pow2(b)][j + b := 0];
  }

  /** `r[j] -= r[j + b] << b`, and the carry into the bits above. */
  method BorrowBit(r: array<int>, j: nat, b: nat, w: nat, ghost limit: nat)
    requires r.Length == 256 && Sliding(r[..], j, b, w, limit) && j + b < 256 && r[j + b] == 1 && b + 1 == w
    modifies r
    ensures r[..j] == old(r[..j]) && Value(r[..]) == old(Value(r[..]))
    ensures Sliding(r[..], j, b + 1, w, limit)
  {
    ghost var r0 := r[..];
    RoomForCarry(r0, j, b, w, limit);
    r[j] := r[j] - r[j + b] * Pow2(b);
    ghost var r1 := r[..];
    TailSame(r0, r1, j + b);
    Carry(r, j + b, limit);
    assert r[..j + b] == r1[..j + b];
    assert forall k :: 0 <= k < j + b ==> r[k] == r[..j + b][k];
    SlideCarry(r0, r[..], j, b, w, limit);
  }

  /** One bit of the inner loop (lines 263-277). */
  method SlideBit(r: array<int>, j: nat, b: nat, w: nat, ghost limit: nat) returns (stop: bool)
    requires r.Length == 256 && Sliding(r[..], j, b, w, limit) && j + b < 256
    modifies r
    ensures r[..j] == old(r[..j]) && Value(r[..]) == old(Value(r[..]))
    ensures Sliding(r[..], j, if stop then b else b + 1, w, limit) && (stop ==> b >= w)
  {
    var m := Pow2(w - 1) - 1;
    Branches(r[j], b, w);
    stop := false;
    if r[j] + r[j + b] * Pow2(b) <= m {
      MergeBit(r, j, b, w, limit);
    } else if r[j] - r[j + b] * Pow2(b) >= -m {
      BorrowBit(r, j, b, w, limit);
    } else if r[j + b] != 0 {
      stop := true;
    }
  }

  // ----- digits of the limbs

  /** r[0] + r[1] * b + ... + r[n-1] * b^(n-1) */
  function Part(r: seq<int>, b: int, n: nat): int
    requires n <= |r|
  {
    if n == 0 then 0 else Part(r, b, n - 1) + r[n - 1] * Pow(b, n - 1)
  }

  lemma {:induction false} PartSame(r: seq<int>, t: seq<int>, b: int, n: nat)
    requires n <= |r| && n <= |t| && r[..n] == t[..n]
    ensures Part(r, b, n) == Part(t, b, n)
  {
    if n > 0 {
      assert r[..n - 1] == r[..n][..n - 1] && t[..n - 1] == t[..n][..n - 1] && r[..n][n - 1] == t[..n][n - 1];
      PartSame(r, t, b, n - 1);
    }
  }

  lemma {:induction false} PartTail(r: seq<int>, n: nat)
    requires n <= |r|
    ensures Part(r, 2, n) + Tail(r, n) == Value(r)
  {
    if n > 0 {
      PartTail(r, n - 1);
      PowIsPow2(n - 1);
    }
  }

  /** The loop `*digits++ = v & (b - 1); v >>= e` with b = 2^e, `count` times. */
  method PutDigits(r: array<int>, at: nat, limb: int, count: nat, b: int)
    requires at + count <= r.Length && b > 1 && 0 <= limb < Pow(b, count)
    modifies r
    ensures r[..at] == old(r[..at])
    ensures forall i :: at <= i < at + count ==> 0 <= r[i] < b
    ensures Part(r[..], b, at + count) == old(Part(r[..], b, at)) + limb * Pow(b, at)
  {
    ghost var r0 := r[..];
    var v := limb;
    for k := 0 to count
      invariant 0 <= v < Pow(b, count - k)
      invariant r[..at] == r0[..at]
      invariant forall i :: at <= i < at + k ==> 0 <= r[i] < b
      invariant Part(r[..], b, at + k) + v * Pow(b, at + k) == Part(r0, b, at) + limb * Pow(b, at)
    {
      ghost var r1 := r[..];
      ShiftOut(v, b, Pow(b, count - k - 1), Pow(b, at + k));
      r[at + k] := v % b;
      PartSame(r1, r[..], b, at + k);
      v := v / b;
    }
    PartSame(r0, r[..], b, at);
  }

  /** Splitting off the lowest digit of v. */
  lemma ShiftOut(v: int, b: int, n: int, w: int)
    requires b > 1 && 0 <= v < b * n
    ensures 0 <= v / b < n && v % b * w + v / b * (b * w) == v * w
  {
    assert b * (v / b) <= v;
    CancelLess(b, v / b, n);
    var q, d := v / b, v % b;
    assert (b * q + d) * w == (b * q) * w + d * w;
    assert (b * q) * w == q * (b * w);
  }

  lemma CancelLess(p: int, a: int, b: int)
    requires p > 0 && p * a < p * b
    ensures a < b
  {
  }

  /** The number limbs 0 to i - 1 denote. */
  function Below(s: Num, i: nat): int {
    if i == 0 then 0 else Low(s, i - 1)
  }

  /** The binary expansion of the scalar (lines 247-255). */
  method PutBits(r: array<int>, s: Num)
    requires r.Length == 256 && s.Limbs(0x1_00000000)
    modifies r
    ensures Bits(r[..], 0) && Value(r[..]) == s.Val()
  {
    PowWeights();
    for i := 0 to 4
      invariant forall k :: 0 <= k < 56 * i ==> 0 <= r[k] <= 1
      invariant Part(r[..], 2, 56 * i) == Below(s, i)
    {
      ghost var r0 := r[..];
      PutDigits(r, 56 * i, Limb(s, i), 56, 2);
      assert forall k :: 0 <= k < 56 * i ==> r[k] == r[..56 * i][k] == r0[k];
    }
    ghost var r0 := r[..];
    PutDigits(r, 224, s.l4, 32, 2);
    assert forall k :: 0 <= k < 224 ==> r[k] == r[..224][k] == r0[k];
    PartTail(r[..], 256);
  }

  /** The hexadecimal digits of the scalar (lines 219-226). */
  method PutNibbles(r: array<int>, s: Num)
    requires r.Length == 64 && s.Limbs(0x1_00000000)
    modifies r
    ensures (forall k :: 0 <= k < 64 ==> 0 <= r[k] < 16) && Part(r[..], 16, 64) == s.Val()
  {
    PowWeights16();
    for i := 0 to 5
      invariant forall k :: 0 <= k < 64 && k < 14 * i ==> 0 <= r[k] < 16
      invariant Part(r[..], 16, if i == 5 then 64 else 14 * i) == Below(s, i)
    {
      ghost var r0 := r[..];
      var m := if i == 4 then 8 else 14;
      PutDigits(r, 14 * i, Limb(s, i), m, 16);
      assert forall k :: 0 <= k < 14 * i ==> r[k] == r[..14 * i][k] == r0[k];
    }
  }

  // ----- width-w non-adjacent form

  /** Digit i, if not zero, is odd, below 2^(w-1) in size, and followed by w - 1 zeroes. */
  predicate NafDigit(r: seq<int>, w: nat, i: nat) {
    i < |r| && w >= 1
    && (r[i] != 0 ==> r[i] % 2 == 1 && -Pow2(w - 1) < r[i] < Pow2(w - 1)
                      && forall k :: i < k < |r| && k < i + w ==> r[k] == 0)
  }

  predicate Naf(r: seq<int>, w: nat, n: nat) {
    forall i :: 0 <= i < n ==> NafDigit(r, w, i)
  }

  /** Any w consecutive positions of a width-w NAF hold at most one nonzero digit. */
  lemma NafSparse(r: seq<int>, w: nat, a: nat, i: nat, k: nat)
    requires Naf(r, w, |r|) && a <= i < k < a + w && k < |r|
    ensures r[i] == 0 || r[k] == 0
  {
    assert NafDigit(r, w, i);
  }

  /** A new nonzero digit lies beyond the zeroes of all earlier ones, so rewriting from it on is safe. */
  lemma NafKept(r: seq<int>, r': seq<int>, w: nat, j: nat)
    requires Naf(r, w, j) && j < |r| == |r'| && r[j] != 0 && r'[..j] == r[..j]
    ensures Naf(r', w, j)
  {
    forall i | 0 <= i < j
      ensures NafDigit(r', w, i)
    {
      assert NafDigit(r, w, i);
      assert r'[i] == r'[..j][i] && r[i] == r[..j][i];
      if r[i] != 0 {
        forall k | i < k < |r| && k < i + w
          ensures r'[k] == 0
        {
          assert j >= i + w;
          assert r'[k] == r'[..j][k] && r[k] == r[..j][k];
        }
      }
    }
  }

  lemma SlideDone(r: seq<int>, j: nat, b: nat, w: nat, limit: nat)
    requires Sliding(r, j, b, w, limit) && (b >= w || j + b >= 256)
    ensures NafDigit(r, w, j) && Bits(r, j + 1) && Tail(r, j + 1) <= Pow2(limit)
  {
  }

  lemma SlideStart(r: seq<int>, j: nat, w: nat, limit: nat)
    requires |r| == 256 && j < 256 && 2 <= w <= 7 && limit < 256 && Bits(r, j) && r[j] == 1 && Tail(r, j) <= Pow2(limit)
    ensures Sliding(r, j, 1, w, limit)
  {
    Pow2Grows(1, w - 1);
  }

  /** The inner loop (lines 262-278) for digit j. */
  method SlideDigit(r: array<int>, j: nat, w: nat, ghost limit: nat)
    requires r.Length == 256 && j < 256 && 2 <= w <= 7 && limit < 256
    requires Bits(r[..], j) && r[j] == 1 && Tail(r[..], j) <= Pow2(limit)
    modifies r
    ensures r[..j] == old(r[..j]) && Value(r[..]) == old(Value(r[..]))
    ensures NafDigit(r[..], w, j) && Bits(r[..], j + 1) && Tail(r[..], j + 1) <= Pow2(limit)
  {
    SlideStart(r[..], j, w, limit);
    var b, stop := 1, false;
    while !stop && b < 256 - j && b <= 6
      invariant r[..j] == old(r[..j]) && Value(r[..]) == old(Value(r[..]))
      invariant 1 <= b <= 7 && j + b <= 256 && Sliding(r[..], j, b, w, limit) && (stop ==> b >= w)
      decreases !stop, 7 - b
    {
      stop := SlideBit(r, j, b, w, limit);
      if !stop {
        b := b + 1;
      }
    }
    SlideDone(r[..], j, b, w, limit);
  }

  /** `contract256_slidingwindow_modm`: the width-w NAF of every scalar below 2^255. */
  method SlidingWindow(r: array<int>, s: Num, w: nat)
    requires r.Length == 256 && s.Limbs(0x1_00000000) && 2 <= w <= 7
    requires s.Val() < Pow2(255)
    modifies r
    ensures Value(r[..]) == s.Val() && Naf(r[..], w, 256)
  {
    PutBits(r, s);
    for j := 0 to 256
      invariant Value(r[..]) == s.Val() && Bits(r[..], j) && Naf(r[..], w, j) && Tail(r[..], j) <= Pow2(255)
    {
      ghost var r0 := r[..];
      if r[j] != 0 {
        SlideDigit(r, j, w, 255);
        NafKept(r0, r[..], w, j);
      }
    }
  }

  // ----- signed radix 16

  lemma {:induction false} PartUpdate(r: seq<int>, b: int, n: nat, i: nat, x: int)
    requires i < n <= |r|
    ensures Part(r[i := x], b, n) == Part(r, b, n) + (x - r[i]) * Pow(b, i)
  {
    if i < n - 1 {
      PartUpdate(r, b, n - 1, i, x);
    } else {
      PartSame(r, r[i := x], b, n - 1);
      assert x * Pow(b, i) == r[i] * Pow(b, i) + (x - r[i]) * Pow(b, i);
    }
  }

  /** The top limit of digit i before it is made signed. */
  function Cap(i: nat): int {
    if i == 63 then 7 else 15
  }

  /** Digits below i are signed, and `carry` is still to be added to digit i. */
  predicate Signing(r: seq<int>, i: nat, carry: int) {
    && |r| == 64 && i < 64 && 0 <= carry <= 1
    && (forall k :: 0 <= k < i ==> -8 <= r[k] <= 7)
    && 0 <= r[i] && r[i] + carry <= Cap(i) + 1
    && (forall k :: i < k < 64 ==> 0 <= r[k] <= Cap(k))
  }

  /** One step of lines 230-236. */
  lemma SignStep(r: seq<int>, r': seq<int>, i: nat, carry: int, carry': int)
    requires Signing(r, i, carry) && i < 63
    requires var x := r[i] + carry;
      carry' == x % 16 / 8 && r' == r[i := x % 16 - 16 * carry'][i + 1 := r[i + 1] + x / 16]
    ensures Signing(r', i + 1, carry')
    ensures Part(r', 16, 64) + carry' * Pow(16, i + 1) == Part(r, 16, 64) + carry * Pow(16, i)
  {
    var x := r[i] + carry;
    var t := r[i := x % 16 - 16 * carry'];
    PartUpdate(r, 16, 64, i, x % 16 - 16 * carry');
    PartUpdate(t, 16, 64, i + 1, r[i + 1] + x / 16);
    SignAlgebra(x, carry, carry', r[i], Pow(16, i));
  }

  lemma SignAlgebra(x: int, carry: int, carry': int, d: int, w: int)
    requires x == d + carry
    ensures (x % 16 - 16 * carry' - d) * w + x / 16 * (16 * w) + carry' * (16 * w) == carry * w
  {
    var q, y := x / 16, x % 16;
    assert (y - 16 * carry' - d) * w == y * w - 16 * (carry' * w) - d * w;
    assert x * w == (16 * q + y) * w == 16 * (q * w) + y * w;
    assert x * w == d * w + carry * w;
  }

  /** `contract256_window4_modm`: signed radix-16 digits of every scalar below 2^255. */
  method Window4(r: array<int>, s: Num)
    requires r.Length == 64 && s.Limbs(0x1_00000000) && s.Val() < TWO255
    modifies r
    ensures Part(r[..], 16, 64) == s.Val()
    ensures (forall i :: 0 <= i < 63 ==> -8 <= r[i] <= 7) && 0 <= r[63] <= 8
  {
    PutNibbles(r, s);
    TopNibble(r[..]);
    var carry := 0;
    for i := 0 to 63
      invariant Signing(r[..], i, carry)
      invariant Part(r[..], 16, 64) + carry * Pow(16, i) == s.Val()
    {
      ghost var r0, carry0 := r[..], carry;
      r[i] := r[i] + carry;
      r[i + 1] := r[i + 1] + r[i] / 16;
      r[i] := r[i] % 16;
      carry := r[i] / 8;
      r[i] := r[i] - carry * 16;
      assert r[..] == r0[i := (r0[i] + carry0) % 16 - 16 * carry][i + 1 := r0[i + 1] + (r0[i] + carry0) / 16];
      SignStep(r0, r[..], i, carry0, carry);
    }
    ghost var r0 := r[..];
    PartUpdate(r0, 16, 64, 63, r0[63] + carry);
    r[63] := r[63] + carry;
    assert r[..] == r0[63 := r0[63] + carry];
  }

  /** The top nibble of a number below 2^255 is at most 7. */
  lemma TopNibble(r: seq<int>)
    requires |r| == 64 && (forall k :: 0 <= k < 64 ==> 0 <= r[k] < 16) && Part(r, 16, 64) < TWO255
    ensures r[63] <= 7
  {
    PartSign(r, 63);
    PowWeights16();
    assert Pow(16, 4) == 0x10000;
    PowAdd(16, 4, 3);
    PowAdd(16, 56, 7);
  }

  lemma {:induction false} PartSign(r: seq<int>, n: nat)
    requires n <= |r| && forall k :: 0 <= k < n ==> 0 <= r[k]
    ensures Part(r, 16, n) >= 0
  {
    if n > 0 {
      PartSign(r, n - 1);
      PowPositive(16, n - 1);
    }
  }
}
