/** Fixed-base scalar multiplication (ed25519-donna-impl-base.h, lines 303-363): signed radix-16
    digits, odd positions first, times 16, then even positions. */
module BaseLadder {
  import opened Words
  import opened Pow2s
  import opened Field
  import opened FieldRing
  import opened Edwards
  import opened Groups
  import opened Ladder
  import opened Recode
  import Modm

  // ----- table entries

  /** y - x, y + x and f x y; with f = 2d this is `IsNiels`. */
  ghost predicate Scaled(q: Niels, u: Aff, f: int) {
    && q.ysubx.Below(RED) && q.xaddy.Below(RED) && q.t2d.Below(RED)
    && Is(q.ysubx, u.y - u.x) && Is(q.xaddy, u.y + u.x) && Is(q.t2d, u.x * u.y * f)
  }

  /** The rows for position 0 hold 2xy, all others 2dxy. */
  ghost function Factor(pos: nat): int {
    if pos == 0 then 2 else 2 * D()
  }

  /** The field element in 32 bytes, top bit ignored. */
  ghost predicate Bytes(b: seq<U8>, x: int) {
    |b| == 32 && Eqm(LE(b) % TWO255, x)
  }

  ghost predicate Packed(b: seq<U8>, u: Aff, f: int) {
    |b| == 96 && Bytes(b[..32], u.y - u.x) && Bytes(b[32..64], u.y + u.x) && Bytes(b[64..], u.x * u.y * f)
  }

  /** Row 8 pos + k - 1 holds the multiple k 256^pos of the base point. */
  ghost predicate Row<T>(g: Group<T>, at: T -> Aff, table: seq<seq<U8>>, pos: nat, k: nat, b: T) {
    1 <= k && 8 * pos + k - 1 < |table| && Packed(table[8 * pos + k - 1], at(Mul(g, k * Pow(256, pos), b)), Factor(pos))
  }

  ghost predicate BaseTable<T>(g: Group<T>, at: T -> Aff, table: seq<seq<U8>>, b: T) {
    |table| == 256
    && forall pos: nat, k: nat {:trigger Row(g, at, table, pos, k, b)} ::
         pos < 32 && 1 <= k <= 8 ==> Row(g, at, table, pos, k, b)
  }

  /** The starting value of `packed`. */
  function OnePacked(): seq<U8> {
    [1] + Zeroes(31) + ([1] + Zeroes(31)) + Zeroes(32)
  }

  method ExpandTo(b: seq<U8>, ghost x: int) returns (o: Fe)
    requires Bytes(b, x)
    ensures o.Below(RED) && Is(o, x)
  {
    o := Expand(b);
    IsEqm(o, x);
  }

  /** Lines 320-322. */
  method ExpandRow(packed: seq<U8>, ghost u: Aff, ghost f: int) returns (t: Niels)
    requires Packed(packed, u, f)
    ensures Scaled(t, u, f)
  {
    var ysubx := ExpandTo(packed[..32], u.y - u.x);
    var xaddy := ExpandTo(packed[32..64], u.y + u.x);
    var t2d := ExpandTo(packed[64..], u.x * u.y * f);
    t := Niels(ysubx, xaddy, t2d);
  }

  /** Lines 325-327: swap and negate for a negative digit. */
  method Flip(t0: Niels, sign: bool, ghost u: Aff, ghost f: int) returns (t: Niels)
    requires Scaled(t0, u, f)
    ensures Scaled(t, Signed(u, sign), f)
  {
    var neg := NegTo(t0.t2d, u.x * u.y * f);
    t := if sign then Niels(t0.xaddy, t0.ysubx, neg) else t0;
    NegFactor(u.x, u.y, f);
  }

  lemma NegFactor(x: int, y: int, f: int)
    ensures -(x * y * f) == (-x) * y * f
  {
    assert (-x) * y == -(x * y);
  }

  /** Lines 311-317: the row for |b|, or the neutral element. */
  method Select(table: seq<seq<U8>>, pos: nat, u: nat) returns (packed: seq<U8>)
    requires |table| == 256 && pos < 32 && u <= 8
    ensures packed == if u == 0 then OnePacked() else table[8 * pos + u - 1]
  {
    packed := OnePacked();
    for i := 0 to 8
      invariant packed == if 1 <= u <= i then table[8 * pos + u - 1] else OnePacked()
    {
      if u == i + 1 { packed := table[pos * 8 + i]; }
    }
  }

  /** The neutral row stands for every point equal to (0, 1). */
  lemma OnePackedIs(u: Aff, f: int)
    requires Same(u, Aff(0, 1))
    ensures Packed(OnePacked(), u, f)
  {
    var b := OnePacked();
    var one, zero: seq<U8> := [1] + Zeroes(31), Zeroes(32);
    assert b[..32] == one && b[32..64] == one && b[64..] == zero;
    OneBytes();
    NeutralSums(u, f);
  }

  lemma OneBytes()
    ensures LE([1] + Zeroes(31)) == 1 && LE(Zeroes(32)) == 0
  {
    LEZeroes([1], 31);
    assert LE([1]) == 1;
    assert Zeroes(32) == [] + Zeroes(32);
    LEZeroes([], 32);
  }

  lemma NeutralSums(u: Aff, f: int)
    requires Same(u, Aff(0, 1))
    ensures Eqm(1, u.y - u.x) && Eqm(1, u.y + u.x) && Eqm(0, u.x * u.y * f)
  {
    EqmSym(u.x, 0);
    EqmSym(u.y, 1);
    EqmAdd(1, u.y, 0, u.x);
    EqmRefl(u.y * f);
    EqmMul(0, u.x, u.y * f, u.y * f);
    assert u.x * (u.y * f) == u.x * u.y * f;
  }

  lemma ScaledEqm(q: Niels, u: Aff, v: Aff, f: int)
    requires Scaled(q, u, f) && Same(u, v)
    ensures Scaled(q, v, f)
  {
    EqmAdd(u.y, v.y, u.x, v.x);
    EqmMul(u.x, v.x, u.y, v.y);
    EqmRefl(f);
    EqmMul(u.x * u.y, v.x * v.y, f, f);
    IsTrans(q.ysubx, u.y - u.x, v.y - v.x);
    IsTrans(q.xaddy, u.y + u.x, v.y + v.x);
    IsTrans(q.t2d, u.x * u.y * f, v.x * v.y * f);
  }

  /** `ge25519_scalarmult_base_choose_niels`: the multiple b 256^pos of the base point. */
  method Choose<T(!new)>(table: seq<seq<U8>>, pos: nat, d: int, ghost g: Group<T>, ghost at: T -> Aff, ghost b: T)
    returns (t: Niels)
    requires Points(g, at) && g.mem(b) && BaseTable(g, at, table, b) && pos < 32 && -8 <= d <= 8
    ensures Scaled(t, at(Mul(g, d * Pow(256, pos), b)), Factor(pos))
  {
    var u := Magnitude(d);
    var packed := Select(table, pos, u);
    RowIs(table, pos, u, packed, g, at, b);
    ghost var n := u * Pow(256, pos);
    ghost var p := at(Mul(g, n, b));
    t := ExpandRow(packed, p, Factor(pos));
    t := Flip(t, d < 0, p, Factor(pos));
    DigitMultiple(d, u, Pow(256, pos), n);
    if d < 0 { NegativeRow(t, n, Factor(pos), g, at, b); }
  }

  lemma DigitMultiple(d: int, u: int, w: int, n: int)
    requires u == Magnitude(d) && n == u * w
    ensures d * w == if d < 0 then -n else n
  {
    if d < 0 { assert -(u * w) == (-u) * w; }
  }

  lemma NegativeRow<T(!new)>(t: Niels, n: int, f: int, g: Group<T>, at: T -> Aff, b: T)
    requires Points(g, at) && g.mem(b) && Scaled(t, Minus(at(Mul(g, n, b))), f)
    ensures Scaled(t, at(Mul(g, -n, b)), f)
  {
    MulMinus(g, n, b);
    MulMem(g, n, b);
    PointsLaw(g, at, Mul(g, n, b), Mul(g, n, b));
    SameSym(at(Mul(g, -n, b)), Minus(at(Mul(g, n, b))));
    ScaledEqm(t, Minus(at(Mul(g, n, b))), at(Mul(g, -n, b)), f);
  }

  lemma RowIs<T(!new)>(table: seq<seq<U8>>, pos: nat, u: nat, packed: seq<U8>, g: Group<T>, at: T -> Aff, b: T)
    requires Points(g, at) && g.mem(b) && BaseTable(g, at, table, b) && pos < 32 && u <= 8
    requires packed == if u == 0 then OnePacked() else table[8 * pos + u - 1]
    ensures Packed(packed, at(Mul(g, u * Pow(256, pos), b)), Factor(pos))
  {
    if u == 0 {
      PointsLaw(g, at, b, b);
      OnePackedIs(at(g.zero), Factor(pos));
    } else {
      assert Row(g, at, table, pos, u, b);
    }
  }

  // ----- the schedule

  /** Digits at odd positions, with weights 256^0, 256^1, ... */
  function Odd(r: seq<int>, n: nat): int
    requires 2 * n <= |r|
  {
    if n == 0 then 0 else Odd(r, n - 1) + r[2 * n - 1] * Pow(256, n - 1)
  }

  function Even(r: seq<int>, n: nat): int
    requires 2 * n <= |r|
  {
    if n == 0 then 0 else Even(r, n - 1) + r[2 * n - 2] * Pow(256, n - 1)
  }

  lemma {:induction false} PowSixteen(n: nat)
    ensures Pow(16, 2 * n) == Pow(256, n) && Pow(16, 2 * n + 1) == 16 * Pow(256, n)
  {
    if n > 0 {
      PowSixteen(n - 1);
      assert Pow(16, 2 * n) == 16 * Pow(16, 2 * n - 1);
    }
  }

  /** The schedule's sum is the number the digits denote. */
  lemma {:induction false} OddEven(r: seq<int>, n: nat)
    requires 2 * n <= |r|
    ensures Part(r, 16, 2 * n) == 16 * Odd(r, n) + Even(r, n)
  {
    if n > 0 {
      OddEven(r, n - 1);
      PowSixteen(n - 1);
      var w := Pow(256, n - 1);
      assert Part(r, 16, 2 * n) == Part(r, 16, 2 * n - 2) + r[2 * n - 2] * w + r[2 * n - 1] * (16 * w);
    }
  }

  /** [m]b + [d 256^pos]b */
  method AddRow<T(!new)>(r0: Ext, table: seq<seq<U8>>, pos: nat, d: int, ghost m: int, ghost g: Group<T>, ghost at: T -> Aff, ghost b: T)
    returns (r: Ext)
    requires Points(g, at) && g.mem(b) && BaseTable(g, at, table, b) && 0 < pos < 32 && -8 <= d <= 8
    requires Full(r0, at(Mul(g, m, b)))
    ensures Full(r, at(Mul(g, m + d * Pow(256, pos), b)))
  {
    var t := Choose(table, pos, d, g, at, b);
    r := AddChosen(r0, t, m, d * Pow(256, pos), g, at, b);
  }

  method AddChosen<T(!new)>(r0: Ext, t: Niels, ghost m: int, ghost n: int, ghost g: Group<T>, ghost at: T -> Aff, ghost b: T)
    returns (r: Ext)
    requires Points(g, at) && g.mem(b) && Full(r0, at(Mul(g, m, b))) && Scaled(t, at(Mul(g, n, b)), 2 * D())
    ensures Full(r, at(Mul(g, m + n, b)))
  {
    MulMem(g, m, b);
    MulMem(g, n, b);
    MulAdd(g, m, n, b);
    PointsLaw(g, at, Mul(g, m, b), Mul(g, n, b));
    r := NielsAdd(r0, t, at(Mul(g, m, b)), at(Mul(g, n, b)), at(Mul(g, m + n, b)));
  }

  /** Lines 342-347: the digit at position 1, with z = 2. */
  method Begin<T(!new)>(table: seq<seq<U8>>, d: int, ghost g: Group<T>, ghost at: T -> Aff, ghost b: T)
    returns (r: Ext)
    requires Points(g, at) && g.mem(b) && BaseTable(g, at, table, b) && -8 <= d <= 8
    ensures Full(r, at(Mul(g, d, b)))
  {
    var t := Choose(table, 0, d, g, at, b);
    r := FromNiels(t, at(Mul(g, d, b)));
  }

  method FromNiels(t: Niels, ghost u: Aff) returns (r: Ext)
    requires Scaled(t, u, 2)
    ensures Full(r, u)
  {
    var x := SubReduceTo(t.xaddy, t.ysubx, u.y + u.x, u.y - u.x);
    var y := AddReduceTo(t.xaddy, t.ysubx, u.y + u.x, u.y - u.x);
    r := Ext(x, y, Fe(2, 0, 0, 0, 0), t.t2d);
    SmallIs(2);
    UnitTwo();
    assert FullZ(r, u, 2);
  }

  /** Lines 352-355: four doublings. */
  method Sixteen<T(!new)>(r0: Ext, ghost m: int, ghost g: Group<T>, ghost at: T -> Aff, ghost b: T) returns (r: Ext)
    requires Points(g, at) && g.mem(b) && Full(r0, at(Mul(g, m, b)))
    ensures Full(r, at(Mul(g, 16 * m, b)))
  {
    ghost var p, q, s, t, u := Doublings(m, g, at, b);
    FullIsPartial(r0, at(p));
    r := DoublePartial(r0, at(p), at(q));
    r := DoublePartial(r, at(q), at(s));
    r := DoublePartial(r, at(s), at(t));
    r := Double(r, at(t), at(u));
  }

  lemma Doublings<T(!new)>(m: int, g: Group<T>, at: T -> Aff, b: T) returns (p: T, q: T, s: T, t: T, u: T)
    requires Points(g, at) && g.mem(b)
    ensures p == Mul(g, m, b) && u == Mul(g, 16 * m, b)
    ensures OnCurve(at(p)) && OnCurve(at(q)) && OnCurve(at(s)) && OnCurve(at(t))
    ensures Adds(at(p), at(p), at(q)) && Adds(at(q), at(q), at(s)) && Adds(at(s), at(s), at(t)) && Adds(at(t), at(t), at(u))
  {
    p, q, s, t, u := Mul(g, m, b), Mul(g, 2 * m, b), Mul(g, 4 * m, b), Mul(g, 8 * m, b), Mul(g, 16 * m, b);
    Doubling(m, g, at, b);
    Doubling(2 * m, g, at, b);
    Doubling(4 * m, g, at, b);
    Doubling(8 * m, g, at, b);
  }

  lemma Doubling<T(!new)>(m: int, g: Group<T>, at: T -> Aff, b: T)
    requires Points(g, at) && g.mem(b)
    ensures OnCurve(at(Mul(g, m, b))) && Adds(at(Mul(g, m, b)), at(Mul(g, m, b)), at(Mul(g, 2 * m, b)))
  {
    MulMem(g, m, b);
    MulAdd(g, m, m, b);
    PointsLaw(g, at, Mul(g, m, b), Mul(g, m, b));
  }

  /** Lines 356-358: the row of position 0 lacks the factor d, which is multiplied in here. */
  method AddZeroth<T(!new)>(r0: Ext, table: seq<seq<U8>>, d: int, ghost m: int, ghost g: Group<T>, ghost at: T -> Aff, ghost b: T)
    returns (r: Ext)
    requires Points(g, at) && g.mem(b) && BaseTable(g, at, table, b) && -8 <= d <= 8
    requires Full(r0, at(Mul(g, m, b)))
    ensures Full(r, at(Mul(g, m + d, b)))
  {
    var t := Choose(table, 0, d, g, at, b);
    t := TimesD(t, at(Mul(g, d, b)));
    r := AddChosen(r0, t, m, d, g, at, b);
  }

  method TimesD(t0: Niels, ghost u: Aff) returns (t: Niels)
    requires Scaled(t0, u, 2)
    ensures Scaled(t, u, 2 * D())
  {
    Constants();
    var t2d := MulTo(t0.t2d, ECD, u.x * u.y * 2, D());
    t := Niels(t0.ysubx, t0.xaddy, t2d);
    assert u.x * u.y * 2 * D() == u.x * u.y * (2 * D());
  }

  /** `ge25519_scalarmult_base_niels`: exactly [s]b for every s below 2^255. */
  method ScalarmultBase<T(!new)>(table: seq<seq<U8>>, s: Modm.Num, ghost g: Group<T>, ghost at: T -> Aff, ghost b: T)
    returns (r: Ext)
    requires Points(g, at) && g.mem(b) && BaseTable(g, at, table, b)
    requires s.Limbs(0x1_00000000) && s.Val() < TWO255
    ensures Full(r, at(Mul(g, s.Val(), b)))
  {
    var digits := new int[64];
    Window4(digits, s);
    r := Schedule(table, digits[..], g, at, b);
  }

  /** Lines 342-362. */
  method Schedule<T(!new)>(table: seq<seq<U8>>, r16: seq<int>, ghost g: Group<T>, ghost at: T -> Aff, ghost b: T)
    returns (r: Ext)
    requires Points(g, at) && g.mem(b) && BaseTable(g, at, table, b)
    requires |r16| == 64 && forall i :: 0 <= i < 64 ==> -8 <= r16[i] <= 8
    ensures Full(r, at(Mul(g, Part(r16, 16, 64), b)))
  {
    r := OddHalf(table, r16, g, at, b);
    r := Sixteen(r, Odd(r16, 32), g, at, b);
    r := AddZeroth(r, table, r16[0], 16 * Odd(r16, 32), g, at, b);
    r := EvenHalf(r, table, r16, 16 * Odd(r16, 32), g, at, b);
    OddEven(r16, 32);
  }

  /** Lines 342-351. */
  method OddHalf<T(!new)>(table: seq<seq<U8>>, r16: seq<int>, ghost g: Group<T>, ghost at: T -> Aff, ghost b: T)
    returns (r: Ext)
    requires Points(g, at) && g.mem(b) && BaseTable(g, at, table, b)
    requires |r16| == 64 && forall i :: 0 <= i < 64 ==> -8 <= r16[i] <= 8
    ensures Full(r, at(Mul(g, Odd(r16, 32), b)))
  {
    r := Begin(table, r16[1], g, at, b);
    OddFirst(r16);
    var i := 3;
    while i < 64
      invariant 3 <= i <= 65 && i % 2 == 1 && Full(r, at(Mul(g, Odd(r16, i / 2), b)))
    {
      var pos := i / 2;
      OddNext(r16, pos);
      r := AddRow(r, table, pos, r16[i], Odd(r16, pos), g, at, b);
      i := i + 2;
      assert i / 2 == pos + 1;
    }
  }

  lemma OddFirst(r: seq<int>)
    requires |r| == 64
    ensures Odd(r, 1) == r[1] && Even(r, 1) == r[0]
  {
    assert Odd(r, 1) == Odd(r, 0) + r[1] * Pow(256, 0);
    assert Even(r, 1) == Even(r, 0) + r[0] * Pow(256, 0);
  }

  lemma OddNext(r: seq<int>, n: nat)
    requires |r| == 64 && n < 32
    ensures Odd(r, n + 1) == Odd(r, n) + r[2 * n + 1] * Pow(256, n)
    ensures Even(r, n + 1) == Even(r, n) + r[2 * n] * Pow(256, n)
  {
    assert 2 * (n + 1) - 1 == 2 * n + 1 && 2 * (n + 1) - 2 == 2 * n;
  }

  /** Lines 359-362. */
  method EvenHalf<T(!new)>(r0: Ext, table: seq<seq<U8>>, r16: seq<int>, ghost m: int, ghost g: Group<T>, ghost at: T -> Aff, ghost b: T)
    returns (r: Ext)
    requires Points(g, at) && g.mem(b) && BaseTable(g, at, table, b)
    requires |r16| == 64 && forall i :: 0 <= i < 64 ==> -8 <= r16[i] <= 8
    requires Full(r0, at(Mul(g, m + r16[0], b)))
    ensures Full(r, at(Mul(g, m + Even(r16, 32), b)))
  {
    r := r0;
    OddFirst(r16);
    var i := 2;
    while i < 64
      invariant 2 <= i <= 64 && i % 2 == 0 && Full(r, at(Mul(g, m + Even(r16, i / 2), b)))
    {
      var pos := i / 2;
      OddNext(r16, pos);
      r := AddRow(r, table, pos, r16[i], m + Even(r16, pos), g, at, b);
      i := i + 2;
      assert i / 2 == pos + 1;
    }
  }
}
