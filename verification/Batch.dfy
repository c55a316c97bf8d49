/** The batch driver (`ed25519_sign_open_batch`, ed25519-donna-batchverify.h, lines 204-274), from bytes
    to `valid[]`. */
module Batch {
  import opened Words
  import opened Sha512
  import opened Edwards
  import opened Groups
  import opened Elements
  import opened Ed25519
  import opened BosCoster
  import opened BatchBlock

  // ----- what valid[] and the return value say

  /** The block that starts at s: at most 64 entries. */
  function Block<E>(e: seq<E>, s: nat): (b: seq<E>)
    requires s <= |e|
    ensures |b| == (if |e| - s < 64 then |e| - s else 64) && b == e[s..s + |b|]
  {
    e[s..if s + 64 < |e| then s + 64 else |e|]
  }

  /** The number of blocks: the last one must have more than three entries. */
  function Blocks(n: nat): nat {
    n / 64 + (if n % 64 > 3 then 1 else 0)
  }

  /** Entry i is accepted on its own, or its block was neutral. */
  predicate Passes(acc: seq<bool>, o: seq<Outcome>, i: nat) {
    i < |acc| && (acc[i] || (i / 64 < |o| && o[i / 64] == Neutral))
  }

  ghost predicate AnyFails(acc: seq<bool>, o: seq<Outcome>, n: nat) {
    exists i: nat :: i < n && !Passes(acc, o, i)
  }

  ghost predicate AnyOther(o: seq<Outcome>) {
    exists j: nat :: j < |o| && o[j] == Other
  }

  /** Bit 0: some entry fails; bit 1: some block was not neutral. */
  ghost function Bits(fails: bool, other: bool): (r: int) {
    (if fails then 1 else 0) + (if other then 2 else 0)
  }

  /** `ret |= bit` for a single bit. */
  function SetBit(ret: int, bit: int): (r: int)
    requires bit == 1 || bit == 2
  {
    if ret / bit % 2 == 1 then ret else ret + bit
  }

  lemma BitsSet(fails: bool, other: bool)
    ensures SetBit(Bits(fails, other), 1) == Bits(true, other) && SetBit(Bits(fails, other), 2) == Bits(fails, true)
  {
  }

  ghost predicate Written(valid: seq<int>, acc: seq<bool>, o: seq<Outcome>, n: nat) {
    && |valid| == |acc| && n <= |acc|
    && (forall i: nat :: i < n ==> valid[i] == if Passes(acc, o, i) then 1 else 0)
    && (forall i: nat :: n <= i < |acc| ==> valid[i] == 1)
  }

  /** What the driver leaves behind. It stops being defined at the first block whose check is not; with
      no such block, all blocks were checked and all entries written. */
  ghost predicate Reported(ret: Option<int>, valid: seq<int>, acc: seq<bool>, o: seq<Outcome>) {
    if ret == None then
      0 < |o| <= Blocks(|acc|) && o[|o| - 1] == Undefined && Undefined !in o[..|o| - 1]
    else
      && |o| == Blocks(|acc|) && Undefined !in o
      && Written(valid, acc, o, |acc|) && ret.value == Bits(AnyFails(acc, o, |acc|), AnyOther(o))
  }

  /** What a caller learns. An entry is cleared exactly when it was rejected on its own and its block of
      64 was not neutral; blocks go on until at most three entries are left, which are checked one by
      one. The return value has two bits: bit 0 says whether an entry was cleared, bit 1 whether a
      block ended in another point. */
  ghost predicate Promised(ret: int, valid: seq<int>, acc: seq<bool>, o: seq<Outcome>) {
    && |valid| == |acc| && (forall i: nat :: i < |acc| ==> valid[i] == 0 || valid[i] == 1)
    && 64 * |o| - 60 <= |acc| <= 64 * |o| + 3
    && (forall i: nat :: i < |acc| ==> (valid[i] == 0 <==> !acc[i] && !(i / 64 < |o| && o[i / 64] == Neutral)))
    && (|acc| % 64 <= 3 ==> forall i: nat :: |acc| - |acc| % 64 <= i < |acc| ==> (valid[i] == 1 <==> acc[i]))
    && 0 <= ret < 4 && (ret % 2 == 1 <==> exists i: nat :: i < |acc| && valid[i] == 0)
    && (ret / 2 == 1 <==> exists j: nat :: j < |o| && o[j] == Other)
  }

  lemma BatchPromises(acc: seq<bool>, o: seq<Outcome>, valid: seq<int>, ret: int)
    requires Written(valid, acc, o, |acc|) && |o| == Blocks(|acc|) && ret == Bits(AnyFails(acc, o, |acc|), AnyOther(o))
    ensures Promised(ret, valid, acc, o)
  {
    if |acc| % 64 <= 3 {
      forall i: nat | |acc| - |acc| % 64 <= i < |acc| ensures valid[i] == 1 <==> acc[i] { LastBlock(|acc|, i); }
    }
    if ret % 2 == 1 {
      var i: nat :| i < |acc| && !Passes(acc, o, i);
      assert valid[i] == 0;
    }
    if exists i: nat :: i < |acc| && valid[i] == 0 {
      var i: nat :| i < |acc| && valid[i] == 0;
      assert !Passes(acc, o, i);
    }
  }

  lemma LastBlock(n: nat, i: nat)
    requires n - n % 64 <= i < n
    ensures i / 64 == n / 64
  {
  }

  // ----- the loop

  ghost predicate Accepts<T(!new)>(f: Compress, x: Entry, g: Group<T>, at: T -> Aff, b: T) {
    Accepted(f, x.m, x.pk, x.rs, g, at, b)
  }

  /** acc lists which entries are accepted on their own. */
  ghost predicate Lists<T(!new)>(acc: seq<bool>, f: Compress, e: seq<Entry>, g: Group<T>, at: T -> Aff, b: T) {
    |acc| == |e| && forall i: nat {:trigger acc[i]} :: i < |e| ==> (acc[i] <==> Accepts(f, e[i], g, at, b))
  }

  /** The tables and the base point, and the group they belong to. */
  ghost predicate Setting<T(!new)>(f: Compress, sliding: seq<Niels>, base: Ext, g: Group<T>, at: T -> Aff, b: T, table: seq<seq<U8>>) {
    EightWords(f) && Curve(g, at, b, table, sliding) && StandsFor(g, at, base, b)
  }

  /** Lines 254-257 and 268-271: entries from `start` up to `end` one by one. Here the block does not
      decide. */
  method OneByOne<T(!new)>(f: Compress, e: seq<Entry>, random: seq<seq<U8>>, valid: array<int>, start: nat, end: nat, sliding: seq<Niels>, base: Ext,
                           ret0: int, ghost acc: seq<bool>, ghost o: seq<Outcome>,
                           ghost g: Group<T>, ghost at: T -> Aff, ghost b: T, ghost table: seq<seq<U8>>)
    returns (ret: int)
    requires Setting(f, sliding, base, g, at, b, table) && AllSized(e, random) && Lists(acc, f, e, g, at, b)
    requires start <= end <= |e| && Written(valid[..], acc, o, start) && ret0 == Bits(AnyFails(acc, o, start), AnyOther(o))
    requires forall i: nat :: start <= i < end ==> Passes(acc, o, i) == acc[i]
    modifies valid
    ensures Written(valid[..], acc, o, end) && ret == Bits(AnyFails(acc, o, end), AnyOther(o))
  {
    ret := ret0;
    for i := start to end
      invariant Written(valid[..], acc, o, i) && ret == Bits(AnyFails(acc, o, i), AnyOther(o))
    {
      var ok := OpenAt(f, e, random, i, sliding, base, acc, g, at, b, table);
      NextWritten(valid[..], acc, o, i, if ok then 1 else 0);
      valid[i] := if ok then 1 else 0;
      BitsSet(AnyFails(acc, o, i), AnyOther(o));
      if !ok { ret := SetBit(ret, 1); }
    }
  }

  method OpenAt<T(!new)>(f: Compress, e: seq<Entry>, random: seq<seq<U8>>, i: nat, sliding: seq<Niels>, ghost base: Ext, ghost acc: seq<bool>,
                         ghost g: Group<T>, ghost at: T -> Aff, ghost b: T, ghost table: seq<seq<U8>>)
    returns (ok: bool)
    requires Setting(f, sliding, base, g, at, b, table) && AllSized(e, random) && Lists(acc, f, e, g, at, b) && i < |e|
    ensures ok == acc[i]
  {
    assert Sized(e[i], random[i]);
    ok := SignOpen(f, e[i].m, e[i].pk, e[i].rs, sliding, g, at, b, table);
  }

  lemma NextWritten(valid: seq<int>, acc: seq<bool>, o: seq<Outcome>, i: nat, v: int)
    requires Written(valid, acc, o, i) && i < |acc| && v == if Passes(acc, o, i) then 1 else 0
    ensures Written(valid[i := v], acc, o, i + 1)
    ensures AnyFails(acc, o, i + 1) <==> AnyFails(acc, o, i) || v == 0
  {
  }

  /** All outcomes mean what they say. */
  ghost predicate AllMean<T(!new)>(f: Compress, e: seq<Entry>, random: seq<seq<U8>>, o: seq<Outcome>, g: Group<T>, at: T -> Aff, b: T) {
    forall j: nat {:trigger MeansAt(f, e, random, o, j, g, at, b)} :: j < |o| ==> MeansAt(f, e, random, o, j, g, at, b)
  }

  ghost predicate MeansAt<T(!new)>(f: Compress, e: seq<Entry>, random: seq<seq<U8>>, o: seq<Outcome>, j: nat, g: Group<T>, at: T -> Aff, b: T) {
    && j < |o| && 64 * j <= |e| == |random|
    && Meaning(f, Block(e, 64 * j), Block(random, 64 * j), o[j], g, at, b)
  }

  /** Where the driver stands after the given blocks. */
  function Position(n: nat, blocks: nat): (pos: nat)
    ensures pos <= n
  {
    if 64 * blocks < n then 64 * blocks else n
  }

  /** `ed25519_sign_open_batch`; the random bytes come from the caller. */
  method SignOpenBatch<T(!new)>(f: Compress, e: seq<Entry>, random: seq<seq<U8>>, valid: array<int>, sliding: seq<Niels>, base: Ext,
                                ghost acc: seq<bool>, ghost g: Group<T>, ghost at: T -> Aff, ghost b: T, ghost table: seq<seq<U8>>)
    returns (ret: Option<int>, ghost o: seq<Outcome>)
    requires Setting(f, sliding, base, g, at, b, table) && AllSized(e, random) && valid.Length == |e| && Lists(acc, f, e, g, at, b)
    modifies valid
    ensures AllMean(f, e, random, o, g, at, b) && Reported(ret, valid[..], acc, o)
    ensures ret.Some? ==> Promised(ret.value, valid[..], acc, o)
  {
    for i := 0 to |e|
      invariant forall k :: 0 <= k < i ==> valid[k] == 1
    {
      valid[i] := 1;
    }
    var bits, pos := 0, 0;
    o := [];
    while |e| - pos > 3
      invariant pos == Position(|e|, |o|) && (|o| > 0 ==> 64 * (|o| - 1) + 3 < |e|)
      invariant AllMean(f, e, random, o, g, at, b) && Undefined !in o
      invariant Written(valid[..], acc, o, pos) && bits == Bits(AnyFails(acc, o, pos), AnyOther(o))
    {
      var size := if |e| - pos > 64 then 64 else |e| - pos;
      var outcome := NextOutcome(f, e, random, pos, size, sliding, base, o, g, at, b, table);
      if outcome == Undefined {
        FewBlocks(|e|, |o| + 1);
        o := o + [outcome];
        return None, o;
      }
      bits := OneBlock(f, e, random, valid, pos, size, sliding, base, bits, outcome, acc, o, g, at, b, table);
      o := o + [outcome];
      pos := pos + size;
    }
    CountBlocks(|e|, |o|);
    Remainder(acc, o, pos);
    bits := OneByOne(f, e, random, valid, pos, |e|, sliding, base, bits, acc, o, g, at, b, table);
    BatchPromises(acc, o, valid[..], bits);
    ret := Some(bits);
  }

  lemma FewBlocks(n: nat, blocks: nat)
    requires blocks > 0 && 64 * (blocks - 1) + 3 < n
    ensures blocks <= Blocks(n)
  {
  }

  lemma CountBlocks(n: nat, blocks: nat)
    requires n - Position(n, blocks) <= 3 && (blocks > 0 ==> 64 * (blocks - 1) + 3 < n)
    ensures blocks == Blocks(n)
  {
  }

  /** A remainder of at most three entries never counts as a block. */
  lemma Remainder(acc: seq<bool>, o: seq<Outcome>, pos: nat)
    requires pos == Position(|acc|, |o|)
    ensures forall i: nat :: pos <= i < |acc| ==> Passes(acc, o, i) == acc[i]
  {
    forall i: nat | pos <= i < |acc| ensures i / 64 >= |o| { QuotientAtLeast(i, |o|); }
  }

  lemma QuotientAtLeast(i: nat, j: nat)
    requires 64 * j <= i
    ensures i / 64 >= j
  {
  }

  /** Lines 250-265 for one block with the given outcome. */
  method OneBlock<T(!new)>(f: Compress, e: seq<Entry>, random: seq<seq<U8>>, valid: array<int>, pos: nat, size: nat, sliding: seq<Niels>, base: Ext,
                           ret0: int, outcome: Outcome, ghost acc: seq<bool>, ghost o: seq<Outcome>,
                           ghost g: Group<T>, ghost at: T -> Aff, ghost b: T, ghost table: seq<seq<U8>>)
    returns (ret: int)
    requires Setting(f, sliding, base, g, at, b, table) && AllSized(e, random) && Lists(acc, f, e, g, at, b)
    requires pos == 64 * |o| && 3 < size <= 64 && pos + size <= |e| && outcome != Undefined
    requires Written(valid[..], acc, o, pos) && ret0 == Bits(AnyFails(acc, o, pos), AnyOther(o))
    modifies valid
    ensures Written(valid[..], acc, o + [outcome], pos + size)
    ensures ret == Bits(AnyFails(acc, o + [outcome], pos + size), AnyOther(o + [outcome]))
  {
    ghost var o' := o + [outcome];
    SameSoFar(valid[..], acc, o, outcome, pos);
    InBlock(acc, o, outcome, pos, size);
    ret := ret0;
    if outcome == Neutral {
      NoNewFails(acc, o', pos, pos + size);
      return;
    }
    BitsSet(AnyFails(acc, o, pos), AnyOther(o));
    if outcome == Other { ret := SetBit(ret, 2); }
    ret := OneByOne(f, e, random, valid, pos, pos + size, sliding, base, ret, acc, o', g, at, b, table);
  }

  /** Lines 217-250 for one block. */
  method NextOutcome<T(!new)>(f: Compress, e: seq<Entry>, random: seq<seq<U8>>, pos: nat, size: nat, ghost sliding: seq<Niels>, base: Ext,
                              ghost o: seq<Outcome>, ghost g: Group<T>, ghost at: T -> Aff, ghost b: T, ghost table: seq<seq<U8>>)
    returns (outcome: Outcome)
    requires Setting(f, sliding, base, g, at, b, table) && AllSized(e, random) && AllMean(f, e, random, o, g, at, b)
    requires pos == 64 * |o| && 3 < size <= 64 && pos + size <= |e| && (size == 64 || pos + size == |e|)
    ensures AllMean(f, e, random, o + [outcome], g, at, b)
  {
    BlockSized(e, random, pos, size);
    outcome := CheckBlock(f, e[pos..pos + size], random[pos..pos + size], base, g, at, b);
    NextMeaning(f, e, random, o, outcome, pos, size, g, at, b);
  }

  lemma BlockSized(e: seq<Entry>, random: seq<seq<U8>>, pos: nat, size: nat)
    requires AllSized(e, random) && pos + size <= |e| && 3 < size <= 64 && (size == 64 || pos + size == |e|)
    ensures AllSized(e[pos..pos + size], random[pos..pos + size])
    ensures Block(e, pos) == e[pos..pos + size] && Block(random, pos) == random[pos..pos + size]
  {
    var x, r := e[pos..pos + size], random[pos..pos + size];
    forall i: nat {:trigger Sized(x[i], r[i])} | i < |x| ensures Sized(x[i], r[i]) { assert Sized(e[pos + i], random[pos + i]); }
  }

  lemma NextMeaning<T(!new)>(f: Compress, e: seq<Entry>, random: seq<seq<U8>>, o: seq<Outcome>, outcome: Outcome, pos: nat, size: nat,
                             g: Group<T>, at: T -> Aff, b: T)
    requires AllMean(f, e, random, o, g, at, b) && |e| == |random| && pos == 64 * |o| && pos + size <= |e|
    requires Block(e, pos) == e[pos..pos + size] && Block(random, pos) == random[pos..pos + size]
    requires Meaning(f, e[pos..pos + size], random[pos..pos + size], outcome, g, at, b)
    ensures AllMean(f, e, random, o + [outcome], g, at, b)
  {
    var o' := o + [outcome];
    forall j: nat {:trigger MeansAt(f, e, random, o', j, g, at, b)} | j < |o'| ensures MeansAt(f, e, random, o', j, g, at, b) {
      if j < |o| { assert MeansAt(f, e, random, o, j, g, at, b); }
    }
  }

  /** A new outcome does not concern earlier entries. */
  lemma SameSoFar(valid: seq<int>, acc: seq<bool>, o: seq<Outcome>, outcome: Outcome, pos: nat)
    requires pos == 64 * |o| && Written(valid, acc, o, pos)
    ensures Written(valid, acc, o + [outcome], pos)
    ensures AnyFails(acc, o + [outcome], pos) == AnyFails(acc, o, pos)
    ensures AnyOther(o + [outcome]) <==> AnyOther(o) || outcome == Other
  {
    var o' := o + [outcome];
    forall i: nat | i < pos ensures Passes(acc, o', i) == Passes(acc, o, i) {
      assert i / 64 < |o|;
      assert o'[i / 64] == o[i / 64];
    }
    if outcome == Other { assert o'[|o|] == Other; }
    if AnyOther(o) {
      var j: nat :| j < |o| && o[j] == Other;
      assert o'[j] == Other;
    }
  }

  lemma InBlock(acc: seq<bool>, o: seq<Outcome>, outcome: Outcome, pos: nat, size: nat)
    requires pos == 64 * |o| && size <= 64 && pos + size <= |acc|
    ensures forall i: nat :: pos <= i < pos + size ==> Passes(acc, o + [outcome], i) == (acc[i] || outcome == Neutral)
  {
    forall i: nat | pos <= i < pos + size ensures i / 64 == |o| {}
  }

  lemma NoNewFails(acc: seq<bool>, o: seq<Outcome>, n: nat, k: nat)
    requires n <= k && forall i: nat :: n <= i < k ==> Passes(acc, o, i)
    ensures AnyFails(acc, o, k) == AnyFails(acc, o, n)
  {
  }
}
