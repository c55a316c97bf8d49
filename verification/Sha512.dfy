/** The streaming hash of ed25519-hash.h (lines 90-190) against padding and folding as in sections
    5.1.2 and 6.4 of FIPS 180-4. The compression function is a parameter. */
module Sha512 {
  import opened Words
  import opened Pow2s

  // ----- the one-shot specification

  /** The chaining value and one 128-byte block give the next chaining value. */
  type Compress = (seq<nat>, seq<U8>) -> seq<nat>

  /** Compression over whole blocks; a trailing partial block is ignored. */
  function Fold(f: Compress, h: seq<nat>, m: seq<U8>): seq<nat>
    decreases |m|
  {
    if |m| < 128 then h else Fold(f, f(h, m[..128]), m[128..])
  }

  lemma {:induction false} FoldAppend(f: Compress, h: seq<nat>, a: seq<U8>, b: seq<U8>)
    requires |a| % 128 == 0
    ensures Fold(f, h, a + b) == Fold(f, Fold(f, h, a), b)
    decreases |a|
  {
    if a == [] {
      assert a + b == b;
    } else {
      var next := f(h, a[..128]);
      assert (a + b)[..128] == a[..128] && (a + b)[128..] == a[128..] + b;
      FoldAppend(f, next, a[128..], b);
    }
  }

  /** The k low bytes of n, most significant first. */
  function BE(n: nat, k: nat): (s: seq<U8>)
    ensures |s| == k
  {
    if k == 0 then [] else BE(n / 0x100, k - 1) + [n % 0x100]
  }

  /** One bit, zeroes up to 112 modulo 128, and the length in bits as a 128-bit number. */
  function Padded(m: seq<U8>): seq<U8> {
    m + [0x80] + Zeroes((111 - |m|) % 128) + LengthField(|m|)
  }

  function LengthField(n: nat): seq<U8> {
    BE(8 * n % 0x1_00000000_00000000_00000000_00000000, 16)
  }

  const IV: seq<nat> := [0x6a09e667f3bcc908, 0xbb67ae8584caa73b, 0x3c6ef372fe94f82b, 0xa54ff53a5f1d36f1,
                         0x510e527fade682d1, 0x9b05688c2b3e6c1f, 0x1f83d9abfb41bd6b, 0x5be0cd19137e2179]

  /** Words, most significant byte first. */
  function Serialize(h: seq<nat>): seq<U8> {
    if h == [] then [] else BE(h[0], 8) + Serialize(h[1..])
  }

  function Digest(f: Compress, m: seq<U8>): seq<U8> {
    Serialize(Fold(f, IV, Padded(m)))
  }

  // ----- lengths

  /** `sha512_STORE64_BE` */
  function Store64BE(v: nat): (s: seq<U8>) {
    [v / 0x100000000000000 % 0x100, v / 0x1000000000000 % 0x100, v / 0x10000000000 % 0x100, v / 0x100000000 % 0x100,
     v / 0x1000000 % 0x100, v / 0x10000 % 0x100, v / 0x100 % 0x100, v % 0x100]
  }

  lemma Store64BEIs(v: nat)
    ensures Store64BE(v) == BE(v, 8)
  {
    DivDiv(v, 0x100, 0x100);
    DivDiv(v, 0x10000, 0x100);
    DivDiv(v, 0x1000000, 0x100);
    DivDiv(v, 0x100000000, 0x100);
    DivDiv(v, 0x10000000000, 0x100);
    DivDiv(v, 0x1000000000000, 0x100);
    var s := Store64BE(v);
    assert BE(v / 0x100000000000000, 1) == BE(v / 0x100000000000000 / 0x100, 0) + [s[0]] == s[..1];
    assert BE(v / 0x1000000000000, 2) == s[..1] + [s[1]] == s[..2];
    assert BE(v / 0x10000000000, 3) == s[..2] + [s[2]] == s[..3];
    assert BE(v / 0x100000000, 4) == s[..3] + [s[3]] == s[..4];
    assert BE(v / 0x1000000, 5) == s[..4] + [s[4]] == s[..5];
    assert BE(v / 0x10000, 6) == s[..5] + [s[5]] == s[..6];
    assert BE(v / 0x100, 7) == s[..6] + [s[6]] == s[..7];
  }

  /** A high and a low word side by side. */
  lemma {:induction false} BEConcat(hi: nat, lo: nat, j: nat, k: nat, w: nat)
    requires lo < w && w == Pow256(k)
    ensures BE(hi, j) + BE(lo, k) == BE(hi * w + lo, j + k)
    decreases k
  {
    if k == 0 {
      assert BE(hi, j) + [] == BE(hi, j);
    } else {
      var u := Pow256(k - 1);
      assert hi * w + lo == 0x100 * (hi * u + lo / 0x100) + lo % 0x100;
      QuoRem(hi * w + lo, 0x100, hi * u + lo / 0x100, lo % 0x100);
      BEConcat(hi, lo / 0x100, j, k - 1, u);
    }
  }

  // ----- folding step by step

  predicate FoldIs(f: Compress, h: seq<nat>, m: seq<U8>, x: seq<nat>) {
    x == Fold(f, h, m)
  }

  /** Folding m takes h to r. */
  ghost predicate Reaches(f: Compress, h: seq<nat>, m: seq<U8>, r: seq<nat>) {
    forall x {:trigger FoldIs(f, h, m, x)} :: FoldIs(f, h, m, x) ==> r == x
  }

  lemma ReachesFold(f: Compress, h: seq<nat>, m: seq<U8>, r: seq<nat>)
    ensures Reaches(f, h, m, r) <==> r == Fold(f, h, m)
  {
    assert FoldIs(f, h, m, Fold(f, h, m));
  }

  lemma ReachesNothing(f: Compress, h: seq<nat>, m: seq<U8>)
    requires |m| < 128
    ensures Reaches(f, h, m, h)
  {
    ReachesFold(f, h, m, h);
  }

  lemma ReachesOne(f: Compress, h: seq<nat>, block: seq<U8>)
    requires |block| == 128
    ensures Reaches(f, h, block, f(h, block))
  {
    assert block[..128] == block && block[128..] == [];
    ReachesFold(f, h, block, f(h, block));
  }

  lemma ReachesBoth(f: Compress, h: seq<nat>, a: seq<U8>, r: seq<nat>, b: seq<U8>, t: seq<nat>)
    requires |a| % 128 == 0 && Reaches(f, h, a, r) && Reaches(f, r, b, t)
    ensures Reaches(f, h, a + b, t)
  {
    ReachesFold(f, h, a, r);
    ReachesFold(f, r, b, t);
    FoldAppend(f, h, a, b);
    ReachesFold(f, h, a + b, t);
  }

  predicate BitsIs(n: nat, c: int) {
    c == 1024 * n % 0x1_00000000_00000000_00000000_00000000
  }

  /** The counter shows n blocks, modulo 2^128 bits. */
  ghost predicate Counted(t0: int, t1: int, n: nat) {
    0 <= t0 < 0x1_00000000_00000000 && 0 <= t1 < 0x1_00000000_00000000 && t0 % 1024 == 0
    && forall c {:trigger BitsIs(n, c)} :: BitsIs(n, c) ==> t1 * 0x1_00000000_00000000 + t0 == c
  }

  /** `T[0] += 1024; T[1] += !T[0]` */
  lemma Tick(t0: int, t1: int, u0: int, u1: int, n: nat)
    requires Counted(t0, t1, n)
    requires u0 == (t0 + 1024) % 0x1_00000000_00000000
    requires u1 == (t1 + if u0 == 0 then 1 else 0) % 0x1_00000000_00000000
    ensures Counted(u0, u1, n + 1)
  {
    var k := 1024 * n / 0x1_00000000_00000000_00000000_00000000;
    assert BitsIs(n, 1024 * n % 0x1_00000000_00000000_00000000_00000000);
    var c := if t0 + 1024 < 0x1_00000000_00000000 then 0 else 1;
    QuoRem(t0 + 1024, 0x1_00000000_00000000, c, t0 + 1024 - 0x1_00000000_00000000 * c);
    var d := if t1 + c < 0x1_00000000_00000000 then 0 else 1;
    QuoRem(t1 + c, 0x1_00000000_00000000, d, t1 + c - 0x1_00000000_00000000 * d);
    QuoRem(1024 * (n + 1), 0x1_00000000_00000000_00000000_00000000, k + d, u1 * 0x1_00000000_00000000 + u0);
  }

  // ----- the streaming state

  /** `memcpy` into a buffer. */
  method Copy(buf: array<U8>, at: nat, src: seq<U8>)
    requires at + |src| <= buf.Length
    modifies buf
    ensures buf[..] == old(buf[..at]) + src + old(buf[at + |src|..])
  {
    for i := 0 to |src|
      invariant buf[..at + i] == old(buf[..at]) + src[..i] && buf[at + i..] == old(buf[at + i..])
    {
      buf[at + i] := src[i];
    }
    assert src[..|src|] == src;
    assert buf[..] == buf[..at + |src|] + buf[at + |src|..];
  }

  class State {
    const compress: Compress
    const buffer: array<U8>
    var h: seq<nat>
    var t0: int
    var t1: int
    var leftover: nat

    /** The n whole blocks w have gone through the compression function. */
    ghost predicate Folded(w: seq<U8>, n: nat)
      reads this
    {
      |w| == 128 * n && Reaches(compress, IV, w, h) && Counted(t0, t1, n)
    }

    /** The state after absorbing n whole blocks w and the bytes tail. */
    ghost predicate Holding(w: seq<U8>, n: nat, tail: seq<U8>)
      reads this, buffer
    {
      Folded(w, n) && buffer.Length == 128 && leftover == |tail| < 128 && buffer[..leftover] == tail
    }

    /** The state after absorbing exactly m. */
    ghost predicate Absorbed(m: seq<U8>)
      reads this, buffer
    {
      leftover <= |m| && Holding(m[..|m| - leftover], |m| / 128, m[|m| - leftover..])
    }

    /** `ed25519_hash_init` */
    constructor (f: Compress)
      ensures Absorbed([]) && compress == f && fresh(buffer)
    {
      compress := f;
      buffer := new U8[128];
      h := IV;
      t0, t1, leftover := 0, 0, 0;
      new;
      ReachesNothing(f, IV, []);
    }

    /** `sha512_blocks` */
    method Blocks(data: seq<U8>, k: nat, ghost w: seq<U8>, ghost n: nat)
      requires Folded(w, n) && |data| == 128 * k
      modifies `h, `t0, `t1
      ensures Folded(w + data, n + k)
    {
      assert w + data[..0] == w;
      for i := 0 to k
        invariant Folded(w + data[..128 * i], n + i)
      {
        OneBlock(data[128 * i..128 * i + 128], w + data[..128 * i], n + i);
        assert w + data[..128 * (i + 1)] == (w + data[..128 * i]) + data[128 * i..128 * i + 128];
      }
      assert data[..128 * k] == data;
    }

    /** Lines 98-103. */
    method OneBlock(block: seq<U8>, ghost w: seq<U8>, ghost n: nat)
      requires Folded(w, n) && |block| == 128
      modifies `h, `t0, `t1
      ensures Folded(w + block, n + 1)
    {
      ghost var a, b, g := t0, t1, h;
      h := compress(h, block);
      t0 := (t0 + 1024) % 0x1_00000000_00000000;
      t1 := (t1 + if t0 == 0 then 1 else 0) % 0x1_00000000_00000000;
      Tick(a, b, t0, t1, n);
      ReachesOne(compress, g, block);
      ReachesBoth(compress, IV, w, g, block, h);
    }

    /** Lines 140-150: whole blocks are folded, the rest is kept. */
    method Absorb(inp: seq<U8>, ghost w: seq<U8>, ghost n: nat)
      requires Folded(w, n) && buffer.Length == 128
      modifies this, buffer
      ensures leftover <= |inp| && Holding(w + inp[..|inp| - leftover], n + |inp| / 128, inp[|inp| - leftover..])
    {
      var blocks := |inp| - |inp| % 128;
      leftover := |inp| - blocks;
      if blocks != 0 {
        Blocks(inp[..blocks], blocks / 128, w, n);
      } else {
        assert w + inp[..blocks] == w;
      }
      if leftover != 0 { Copy(buffer, 0, inp[blocks..]); }
    }

    /** Lines 128-138: fills the buffer, and folds it when it is full. */
    method TopUp(inp: seq<U8>, ghost w: seq<U8>, ghost n: nat, ghost tail: seq<U8>) returns (want: nat, done: bool)
      requires Holding(w, n, tail) && leftover != 0
      modifies this, buffer
      ensures want <= |inp| && buffer.Length == 128
      ensures done ==> want == |inp| && Holding(w, n, tail + inp)
      ensures !done ==> Folded(w + (tail + inp[..want]), n + 1)
    {
      want := if 128 - leftover < |inp| then 128 - leftover else |inp|;
      Copy(buffer, leftover, inp[..want]);
      leftover := leftover + want;
      done := leftover < 128;
      assert buffer[..leftover] == tail + inp[..want];
      if done {
        assert inp[..want] == inp;
        return;
      }
      assert buffer[..] == tail + inp[..want];
      Blocks(buffer[..], 1, w, n);
    }

    /** `ed25519_hash_update` */
    method Update(inp: seq<U8>, ghost m: seq<U8>)
      requires Absorbed(m)
      modifies this, buffer
      ensures Absorbed(m + inp)
    {
      ghost var w, n, tail := m[..|m| - leftover], |m| / 128, m[|m| - leftover..];
      if leftover == 0 {
        Rest(inp, w, n, m + inp);
        return;
      }
      var want, done := TopUp(inp, w, n, tail);
      if done {
        Joined(m + inp, w, n, tail + inp);
        return;
      }
      assert w + (tail + inp[..want]) + inp[want..] == m + inp;
      Rest(inp[want..], w + (tail + inp[..want]), n + 1, m + inp);
    }

    method Rest(inp: seq<U8>, ghost w: seq<U8>, ghost n: nat, ghost m: seq<U8>)
      requires Folded(w, n) && buffer.Length == 128 && m == w + inp
      modifies this, buffer
      ensures Absorbed(m)
    {
      Absorb(inp, w, n);
      Joined(m, w + inp[..|inp| - leftover], n + |inp| / 128, inp[|inp| - leftover..]);
    }

    /** Lines 157-164: 0x80 and zeroes, over one block or two. Leaves 112 bytes in the buffer. */
    method PadHead(ghost w: seq<U8>, ghost n: nat, ghost tail: seq<U8>) returns (ghost w': seq<U8>, ghost n': nat, ghost head: seq<U8>)
      requires Holding(w, n, tail)
      modifies `h, `t0, `t1, buffer
      ensures Folded(w', n') && head == buffer[..112]
      ensures w' + head == w + tail + [0x80] + Zeroes(if |tail| <= 111 then 111 - |tail| else 239 - |tail|)
    {
      w', n' := w, n;
      Copy(buffer, leftover, [0x80]);
      if leftover <= 111 {
        Copy(buffer, leftover + 1, Zeroes(111 - leftover));
        assert buffer[..112] == tail + [0x80] + Zeroes(111 - leftover);
        PadInOne(w, tail, Zeroes(111 - leftover));
      } else {
        Copy(buffer, leftover + 1, Zeroes(127 - leftover));
        ghost var first := tail + [0x80] + Zeroes(127 - leftover);
        assert buffer[..] == first;
        Blocks(buffer[..], 1, w, n);
        w', n' := w + first, n + 1;
        Copy(buffer, 0, Zeroes(112));
        assert buffer[..112] == Zeroes(112);
        PadInOne(w, tail, Zeroes(127 - leftover));
        PadInTwo(w + tail + [0x80], 127 - leftover);
      }
      head := buffer[..112];
    }

    /** Lines 166-168. */
    method LastBlock(len0: nat, len1: nat, ghost w: seq<U8>, ghost n: nat, ghost head: seq<U8>, ghost len: seq<U8>)
      requires Folded(w, n) && buffer.Length == 128 && head == buffer[..112] && len == Store64BE(len1) + Store64BE(len0)
      modifies `h, `t0, `t1, buffer
      ensures Folded(w + (head + len), n + 1)
    {
      Copy(buffer, 112, Store64BE(len1));
      Copy(buffer, 120, Store64BE(len0));
      assert buffer[..] == head + len;
      Blocks(buffer[..], 1, w, n);
    }

    /** Line 155. */
    method Lengths(ghost n: nat) returns (len0: nat, len1: nat, ghost len: seq<U8>)
      requires Counted(t0, t1, n / 128) && leftover == n % 128
      ensures len == LengthField(n) && len == Store64BE(len1) + Store64BE(len0)
    {
      LengthValue(n, t0, t1);
      var low: U64 := t0 + leftover * 8;
      len0, len1, len := low, t1, LengthField(n);
      LengthBytes(len1, len0);
    }

    /** Lines 155-168. */
    method Finish(ghost m: seq<U8>, ghost w: seq<U8>, ghost n: nat, ghost tail: seq<U8>)
      requires Holding(w, n, tail) && m == w + tail && n == |m| / 128 && leftover == |m| % 128
      modifies this, buffer
      ensures Reaches(compress, IV, Padded(m), h)
    {
      var len0, len1; ghost var len;
      len0, len1, len := Lengths(|m|);
      ghost var w', n', head;
      w', n', head := PadHead(w, n, tail);
      PaddedParts(m, w, n, tail, w', head, len);
      LastBlock(len0, len1, w', n', head, len);
      assert Folded(Padded(m), n' + 1);
    }

    /** `ed25519_hash_final`: the digest of everything absorbed. The state is spent afterwards. */
    method Final(ghost m: seq<U8>) returns (hash: seq<U8>)
      requires Absorbed(m)
      modifies this, buffer
      ensures hash == Digest(compress, m)
    {
      ghost var w, tail := m[..|m| - leftover], m[|m| - leftover..];
      Finish(m, w, |m| / 128, tail);
      ReachesFold(compress, IV, Padded(m), h);
      hash := Serialize(h);
    }
  }

  lemma PadInOne(w: seq<U8>, tail: seq<U8>, z: seq<U8>)
    ensures w + (tail + [0x80] + z) == w + tail + [0x80] + z
  {
  }

  lemma PadInTwo(w: seq<U8>, n: nat)
    ensures w + Zeroes(n) + Zeroes(112) == w + Zeroes(n + 112)
  {
  }

  /** Whole blocks and a short tail cut a message in one way only. */
  lemma Joined(m: seq<U8>, w: seq<U8>, n: nat, tail: seq<U8>)
    requires w + tail == m && |w| == 128 * n && |tail| < 128
    ensures m[..|m| - |tail|] == w && m[|m| - |tail|..] == tail && |m| / 128 == n
  {
    QuoRem(|m|, 128, n, |tail|);
  }

  /** Adding the buffered bits to the counter never carries out of the low word. */
  lemma LengthValue(n: nat, t0: int, t1: int)
    requires Counted(t0, t1, n / 128)
    ensures t0 + n % 128 * 8 < 0x1_00000000_00000000
    ensures t1 * 0x1_00000000_00000000 + (t0 + n % 128 * 8) == 8 * n % 0x1_00000000_00000000_00000000_00000000
  {
    var b := n / 128;
    var c := 1024 * b % 0x1_00000000_00000000_00000000_00000000;
    assert BitsIs(b, c);
    LowWord(t0, n % 128 * 8);
    BitLength(b, n % 128 * 8, c, t0, t1);
    assert 8 * n == 1024 * b + n % 128 * 8;
  }

  lemma LowWord(t0: int, x: int)
    requires 0 <= t0 < 0x1_00000000_00000000 && t0 % 1024 == 0 && 0 <= x < 1024
    ensures t0 + x < 0x1_00000000_00000000
  {
    var q := t0 / 1024;
    assert q <= 0x3f_ffff_ffff_ffff;
  }

  /** The bits x of the last block, below 1024, do not change the reduction. */
  lemma BitLength(b: nat, x: int, c: int, t0: int, t1: int)
    requires 0 <= x < 1024 && c == 1024 * b % 0x1_00000000_00000000_00000000_00000000
    requires c == t1 * 0x1_00000000_00000000 + t0 && t0 + x < 0x1_00000000_00000000 && 0 <= t0 && 0 <= t1 < 0x1_00000000_00000000
    ensures (1024 * b + x) % 0x1_00000000_00000000_00000000_00000000 == c + x
  {
    QuoRem(1024 * b + x, 0x1_00000000_00000000_00000000_00000000, 1024 * b / 0x1_00000000_00000000_00000000_00000000, c + x);
  }

  lemma LengthBytes(hi: nat, lo: nat)
    requires lo < 0x1_00000000_00000000
    ensures Store64BE(hi) + Store64BE(lo) == BE(hi * 0x1_00000000_00000000 + lo, 16)
  {
    Store64BEIs(hi);
    Store64BEIs(lo);
    Pow256Step(0);
    BEConcat(hi, lo, 8, 8, 0x1_00000000_00000000);
  }

  /** What `Final` feeds to the compression function is the padded message. */
  lemma PaddedParts(m: seq<U8>, w: seq<U8>, n: nat, tail: seq<U8>, w': seq<U8>, head: seq<U8>, len: seq<U8>)
    requires m == w + tail && |w| == 128 * n && |tail| < 128 && len == LengthField(|m|)
    requires w' + head == w + tail + [0x80] + Zeroes(if |tail| <= 111 then 111 - |tail| else 239 - |tail|)
    ensures Padded(m) == w' + (head + len)
  {
    var z := if |tail| <= 111 then 111 - |tail| else 239 - |tail|;
    ZeroCount(|m|, n, |tail|);
    assert Padded(m) == (m + [0x80] + Zeroes(z)) + len;
    assert (w' + head) + len == w' + (head + len);
  }

  lemma ZeroCount(n: int, q: int, left: int)
    requires n == 128 * q + left && 0 <= left < 128
    ensures (111 - n) % 128 == if left <= 111 then 111 - left else 239 - left
  {
    if left <= 111 {
      QuoRem(111 - n, 128, -q, 111 - left);
    } else {
      QuoRem(111 - n, 128, -q - 1, 239 - left);
    }
  }

  function Concat(chunks: seq<seq<U8>>): seq<U8> {
    if chunks == [] then [] else Concat(chunks[..|chunks| - 1]) + chunks[|chunks| - 1]
  }

  /** Init, any sequence of updates, final: the digest of the concatenation. */
  method HashChunks(f: Compress, chunks: seq<seq<U8>>) returns (hash: seq<U8>)
    ensures hash == Digest(f, Concat(chunks))
  {
    var s := new State(f);
    UpdateAll(s, chunks);
    hash := s.Final(Concat(chunks));
  }

  method UpdateAll(s: State, chunks: seq<seq<U8>>)
    requires s.Absorbed([])
    modifies s, s.buffer
    ensures s.Absorbed(Concat(chunks))
  {
    for i := 0 to |chunks|
      invariant s.Absorbed(Concat(chunks[..i]))
    {
      ghost var m := Concat(chunks[..i]);
      assert chunks[..i + 1][..i] == chunks[..i];
      assert Concat(chunks[..i + 1]) == m + chunks[i];
      s.Update(chunks[i], m);
    }
    assert chunks[..|chunks|] == chunks;
  }
}
