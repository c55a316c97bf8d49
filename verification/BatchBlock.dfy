/** The combined check of one block of a batch (ed25519-donna-batchverify.h, lines 216-250), from bytes. */
module BatchBlock {
  import opened Words
  import opened Groups
  import opened Sha512
  import opened Primes
  import opened Field
  import opened Edwards
  import opened Ladder
  import opened Elements
  import opened Encoding
  import opened Ed25519
  import opened BatchEquation
  import opened BatchScalars
  import opened BosCoster
  import Modm

  /** A message with its public key and signature. */
  datatype Entry = Entry(m: seq<U8>, pk: seq<U8>, rs: seq<U8>)

  predicate Sized(x: Entry, random: seq<U8>) {
    |x.pk| == 32 && |x.rs| == 64 && |random| == 16
  }

  predicate AllSized(x: seq<Entry>, random: seq<seq<U8>>) {
    |x| == |random| && forall i: nat {:trigger Sized(x[i], random[i])} :: i < |x| ==> Sized(x[i], random[i])
  }

  lemma AllLengths(x: seq<Entry>, random: seq<seq<U8>>)
    requires AllSized(x, random)
    ensures forall i: nat :: i < |x| ==> |x[i].pk| == 32 && |x[i].rs| == 64
  {
    forall i: nat | i < |x| ensures |x[i].pk| == 32 && |x[i].rs| == 64 { assert Sized(x[i], random[i]); }
  }

  // ----- the hashes

  /** The bytes an entry brings to the scalars. */
  ghost predicate BytesOf(f: Compress, x: Entry, random: seq<U8>, b: Bytes) {
    Sized(x, random) && b == Bytes(random, x.rs[32..], Digest(f, x.rs[..32] + x.pk + x.m)) && |b.h| == 64
  }

  ghost predicate AllBytes(f: Compress, x: seq<Entry>, random: seq<seq<U8>>, b: seq<Bytes>, n: nat) {
    forall i: nat {:trigger BytesAt(f, x, random, b, i)} :: i < n ==> BytesAt(f, x, random, b, i)
  }

  ghost predicate BytesAt(f: Compress, x: seq<Entry>, random: seq<seq<U8>>, b: seq<Bytes>, i: nat) {
    i < |x| && i < |random| && i < |b| && BytesOf(f, x[i], random[i], b[i])
  }

  lemma BytesNext(f: Compress, x: seq<Entry>, random: seq<seq<U8>>, b: seq<Bytes>, h: Bytes)
    requires AllBytes(f, x, random, b, |b|) && |b| < |x| == |random| && BytesOf(f, x[|b|], random[|b|], h)
    ensures AllBytes(f, x, random, b + [h], |b| + 1)
  {
    var c := b + [h];
    forall i: nat {:trigger BytesAt(f, x, random, c, i)} | i < |c| ensures BytesAt(f, x, random, c, i) {
      if i < |b| {
        assert BytesAt(f, x, random, b, i);
        assert c[i] == b[i];
      } else {
        assert c[i] == h;
      }
    }
  }

  /** `ed25519_hram` for every entry. */
  method Hashes(f: Compress, x: seq<Entry>, random: seq<seq<U8>>) returns (b: seq<Bytes>)
    requires EightWords(f) && AllSized(x, random)
    ensures |b| == |x| && AllBytes(f, x, random, b, |x|)
  {
    b := [];
    for i := 0 to |x|
      invariant |b| == i && AllBytes(f, x, random, b, i)
    {
      assert Sized(x[i], random[i]);
      var h := HashEntry(f, x[i], random[i]);
      BytesNext(f, x, random, b, h);
      b := b + [h];
    }
  }

  method HashEntry(f: Compress, x: Entry, random: seq<U8>) returns (b: Bytes)
    requires EightWords(f) && Sized(x, random)
    ensures BytesOf(f, x, random, b)
  {
    var h := HashChunks(f, [x.rs[..32], x.pk, x.m]);
    ConcatThree(x.rs[..32], x.pk, x.m);
    DigestLength(f, x.rs[..32] + x.pk + x.m);
    b := Bytes(random, x.rs[32..], h);
  }

  // ----- the points

  /** No element has these bytes. */
  ghost predicate NoElement<T(!new)>(g: Group<T>, at: T -> Aff, bytes: seq<U8>) {
    forall q :: g.mem(q) ==> !Decodes(bytes, at(q))
  }

  /** String i decodes to p[i], and the point stored for it stands for the negative. */
  ghost predicate DecodedAt<T>(g: Group<T>, at: T -> Aff, points: seq<Ext>, start: nat, strings: seq<seq<U8>>, p: seq<T>, i: nat) {
    && i < |strings| && i < |p| && start + i < |points|
    && g.mem(p[i]) && Decodes(strings[i], at(p[i])) && StandsFor(g, at, points[start + i], g.neg(p[i]))
  }

  ghost predicate AllDecoded<T>(g: Group<T>, at: T -> Aff, points: seq<Ext>, start: nat, strings: seq<seq<U8>>, p: seq<T>, n: nat) {
    forall i: nat {:trigger DecodedAt(g, at, points, start, strings, p, i)} :: i < n ==> DecodedAt(g, at, points, start, strings, p, i)
  }

  lemma DecodedNext<T>(g: Group<T>, at: T -> Aff, points: seq<Ext>, start: nat, strings: seq<seq<U8>>, p: seq<T>, n: nat, x: Ext, s: T)
    requires AllDecoded(g, at, points, start, strings, p, n) && |p| == n < |strings| && start + n < |points|
    requires g.mem(s) && Decodes(strings[n], at(s)) && StandsFor(g, at, x, g.neg(s))
    ensures AllDecoded(g, at, points[start + n := x], start, strings, p + [s], n + 1)
  {
    var points', p' := points[start + n := x], p + [s];
    forall i: nat {:trigger DecodedAt(g, at, points', start, strings, p', i)} | i < n + 1
      ensures DecodedAt(g, at, points', start, strings, p', i)
    {
      if i < n { assert DecodedAt(g, at, points, start, strings, p, i); }
    }
  }

  /** Lines 242-247: the decoded points from slot `start` on, or failure at the first string that does
      not decode. */
  method DecodeAll<T(!new)>(points: array<Ext>, start: nat, strings: seq<seq<U8>>, ghost g: Group<T>, ghost at: T -> Aff)
    returns (ok: bool, ghost p: seq<T>)
    requires Prime(P) && Points(g, at) && Covers(g, at) && Faithful(g, at)
    requires start + |strings| <= points.Length && forall i :: 0 <= i < |strings| ==> |strings[i]| == 32
    modifies points
    ensures points[..start] == old(points[..start])
    ensures ok ==> |p| == |strings| && AllDecoded(g, at, points[..], start, strings, p, |strings|)
    ensures !ok ==> exists i :: 0 <= i < |strings| && NoElement(g, at, strings[i])
  {
    p := [];
    for i := 0 to |strings|
      invariant |p| == i && AllDecoded(g, at, points[..], start, strings, p, i)
      invariant points[..start] == old(points[..start])
    {
      var x; ghost var s;
      x, ok, s := DecodeNegative(strings[i], g, at);
      if !ok {
        assert NoElement(g, at, strings[i]);
        return;
      }
      DecodedNext(g, at, points[..], start, strings, p, i, x, s);
      points[start + i] := x;
      p := p + [s];
    }
    ok := true;
  }

  // ----- the block

  /** The numbers and elements that an entry and its random bytes stand for. */
  ghost predicate ItemFor<T>(f: Compress, x: Entry, random: seq<U8>, i: Item<T>, g: Group<T>, at: T -> Aff) {
    && Sized(x, random) && i.r == LE(random)
    && i.s == LE(x.rs[32..]) % Modm.M && i.h == Challenge(f, x.rs[..32], x.pk, x.m)
    && g.mem(i.a) && Decodes(x.pk, at(i.a)) && g.mem(i.q) && Decodes(x.rs[..32], at(i.q))
  }

  ghost predicate AllItems<T>(f: Compress, x: seq<Entry>, random: seq<seq<U8>>, e: seq<Item<T>>, g: Group<T>, at: T -> Aff) {
    && |x| == |random| == |e|
    && forall i: nat {:trigger ItemFor(f, x[i], random[i], e[i], g, at)} :: i < |e| ==> ItemFor(f, x[i], random[i], e[i], g, at)
  }

  /** How the combined check of a block ends: a key or R does not decode, the final step leaves the
      limbs of the last scalar, the result is the neutral element, or it is another point. */
  datatype Outcome = Undecodable | Undefined | Neutral | Other

  /** What each outcome says about the block. */
  ghost predicate Meaning<T(!new)>(f: Compress, x: seq<Entry>, random: seq<seq<U8>>, o: Outcome, g: Group<T>, at: T -> Aff, b: T) {
    if o == Undecodable then
      exists i :: 0 <= i < |x| && BadEntry(g, at, x[i])
    else
      exists e :: Decided(f, x, random, e, o, g, at, b)
  }

  ghost function VerdictOf(o: Outcome): Option<bool> {
    if o == Neutral then Some(true) else if o == Other then Some(false) else None
  }

  /** The entries decode to e, and the check decided on the sum of the batch. */
  ghost predicate Decided<T(!new)>(f: Compress, x: seq<Entry>, random: seq<seq<U8>>, e: seq<Item<T>>, o: Outcome, g: Group<T>, at: T -> Aff, b: T) {
    AllItems(f, x, random, e, g, at) && Decides(g, BatchEquation.BatchScalars(e, Modm.M), BatchPoints(g, b, e), VerdictOf(o))
  }

  ghost function ItemsOf<T>(f: Compress, x: seq<Entry>, random: seq<seq<U8>>, a: seq<T>, q: seq<T>): (e: seq<Item<T>>)
    requires |a| == |q| == |x| && AllSized(x, random)
    ensures |e| == |x|
  {
    seq(|x|, i requires 0 <= i < |x| =>
      assert Sized(x[i], random[i]);
      Item(LE(x[i].rs[32..]) % Modm.M, Challenge(f, x[i].rs[..32], x[i].pk, x[i].m), LE(random[i]), a[i], q[i]))
  }

  lemma ItemsAre<T>(f: Compress, x: seq<Entry>, random: seq<seq<U8>>, a: seq<T>, q: seq<T>, points: seq<Ext>, pks: seq<seq<U8>>, rs: seq<seq<U8>>,
                    g: Group<T>, at: T -> Aff)
    requires |a| == |q| == |x| == |pks| == |rs| && AllSized(x, random)
    requires forall i: nat :: i < |x| ==> |x[i].rs| == 64 && pks[i] == x[i].pk && rs[i] == x[i].rs[..32]
    requires AllDecoded(g, at, points, 1, pks, a, |x|) && AllDecoded(g, at, points, |x| + 1, rs, q, |x|)
    ensures AllItems(f, x, random, ItemsOf(f, x, random, a, q), g, at)
  {
    var e := ItemsOf(f, x, random, a, q);
    forall i: nat {:trigger ItemFor(f, x[i], random[i], e[i], g, at)} | i < |e| ensures ItemFor(f, x[i], random[i], e[i], g, at) {
      assert Sized(x[i], random[i]);
      assert DecodedAt(g, at, points, 1, pks, a, i) && DecodedAt(g, at, points, |x| + 1, rs, q, i);
    }
  }

  lemma BytesCarry<T>(f: Compress, x: seq<Entry>, random: seq<seq<U8>>, b: seq<Bytes>, e: seq<Item<T>>, g: Group<T>, at: T -> Aff)
    requires AllItems(f, x, random, e, g, at) && |b| == |x| && AllBytes(f, x, random, b, |x|)
    ensures AllCarry(b, e)
  {
    forall i | 0 <= i < |b| ensures Carries(b[i], e[i]) {
      assert ItemFor(f, x[i], random[i], e[i], g, at) && BytesAt(f, x, random, b, i);
    }
  }

  /** The stored points stand for the base point and the negatives of keys and nonces. */
  lemma PointsStand<T>(points: seq<Ext>, e: seq<Item<T>>, a: seq<T>, q: seq<T>, pks: seq<seq<U8>>, rs: seq<seq<U8>>,
                       g: Group<T>, at: T -> Aff, b: T)
    requires |points| == 2 * |e| + 1 && |a| == |q| == |e| && StandsFor(g, at, points[0], b)
    requires forall i :: 0 <= i < |e| ==> e[i].a == a[i] && e[i].q == q[i]
    requires AllDecoded(g, at, points, 1, pks, a, |e|) && AllDecoded(g, at, points, |e| + 1, rs, q, |e|)
    ensures AllStand(g, at, points, BatchPoints(g, b, e))
  {
    var p := BatchPoints(g, b, e);
    forall i: nat {:trigger StandsAt(g, at, points, p, i)} | i < |p| ensures StandsAt(g, at, points, p, i) {
      if 1 <= i <= |e| { assert DecodedAt(g, at, points, 1, pks, a, i - 1); }
      if i > |e| { assert DecodedAt(g, at, points, |e| + 1, rs, q, i - |e| - 1); }
    }
  }

  ghost predicate BadEntry<T(!new)>(g: Group<T>, at: T -> Aff, x: Entry) {
    |x.rs| == 64 && (NoElement(g, at, x.pk) || NoElement(g, at, x.rs[..32]))
  }

  /** Lines 241-247: base point, keys and nonces. */
  method DecodeBlock<T(!new)>(points: array<Ext>, f: Compress, x: seq<Entry>, random: seq<seq<U8>>, base: Ext,
                              ghost g: Group<T>, ghost at: T -> Aff, ghost b: T)
    returns (ok: bool, ghost e: seq<Item<T>>)
    requires points.Length == 2 * |x| + 1 && AllSized(x, random)
    requires Prime(P) && Points(g, at) && Covers(g, at) && Faithful(g, at) && StandsFor(g, at, base, b)
    modifies points
    ensures ok ==> AllItems(f, x, random, e, g, at) && AllStand(g, at, points[..], BatchPoints(g, b, e))
    ensures !ok ==> exists i :: 0 <= i < |x| && BadEntry(g, at, x[i])
  {
    points[0] := base;
    var pks, rs := KeyStrings(x, random), NonceStrings(x, random);
    ghost var a, q;
    e := [];
    ok, a := DecodeAll(points, 1, pks, g, at);
    if !ok {
      ghost var i :| 0 <= i < |pks| && NoElement(g, at, pks[i]);
      assert Sized(x[i], random[i]) && BadEntry(g, at, x[i]);
      return;
    }
    ghost var first := points[..];
    ok, q := DecodeAll(points, |x| + 1, rs, g, at);
    if !ok {
      ghost var i :| 0 <= i < |rs| && NoElement(g, at, rs[i]);
      assert Sized(x[i], random[i]) && BadEntry(g, at, x[i]);
      return;
    }
    assert points[0] == points[..|x| + 1][0] == first[..|x| + 1][0];
    StillDecoded(g, at, first, points[..], 1, pks, a, |x|);
    e := ItemsOf(f, x, random, a, q);
    ItemsAre(f, x, random, a, q, points[..], pks, rs, g, at);
    PointsStand(points[..], e, a, q, pks, rs, g, at, b);
  }

  function KeyStrings(x: seq<Entry>, random: seq<seq<U8>>): (s: seq<seq<U8>>)
    requires AllSized(x, random)
    ensures |s| == |x| && forall i: nat :: i < |x| ==> s[i] == x[i].pk && |s[i]| == 32
  {
    AllLengths(x, random);
    seq(|x|, i requires 0 <= i < |x| => x[i].pk)
  }

  function NonceStrings(x: seq<Entry>, random: seq<seq<U8>>): (s: seq<seq<U8>>)
    requires AllSized(x, random)
    ensures |s| == |x| && forall i: nat :: i < |x| ==> |x[i].rs| == 64 && s[i] == x[i].rs[..32] && |s[i]| == 32
  {
    AllLengths(x, random);
    seq(|x|, i requires 0 <= i < |x| => x[i].rs[..32])
  }

  /** Lines 216-250. */
  method CheckBlock<T(!new)>(f: Compress, x: seq<Entry>, random: seq<seq<U8>>, base: Ext, ghost g: Group<T>, ghost at: T -> Aff, ghost b: T)
    returns (o: Outcome)
    requires EightWords(f) && |x| > 3 && AllSized(x, random)
    requires Prime(P) && Points(g, at) && Covers(g, at) && Faithful(g, at) && StandsFor(g, at, base, b)
    ensures Meaning(f, x, random, o, g, at, b)
  {
    var points := new Ext[2 * |x| + 1](i => base);
    var bytes := Hashes(f, x, random);
    var ok; ghost var e;
    ok, e := DecodeBlock(points, f, x, random, base, g, at, b);
    if !ok { return Undecodable; }
    BytesCarry(f, x, random, bytes, e, g, at);
    var verdict := CheckBatch(bytes, points[..], e, BatchEquation.BatchScalars(e, Modm.M), g, at, b);
    o := if verdict == None then Undefined else if verdict.value then Neutral else Other;
    assert Decided(f, x, random, e, o, g, at, b);
  }

  lemma StillDecoded<T>(g: Group<T>, at: T -> Aff, x: seq<Ext>, y: seq<Ext>, start: nat, strings: seq<seq<U8>>, p: seq<T>, n: nat)
    requires AllDecoded(g, at, x, start, strings, p, n) && start + n <= |x| == |y| && x[..start + n] == y[..start + n]
    ensures AllDecoded(g, at, y, start, strings, p, n)
  {
    forall i: nat {:trigger DecodedAt(g, at, y, start, strings, p, i)} | i < n ensures DecodedAt(g, at, y, start, strings, p, i) {
      assert DecodedAt(g, at, x, start, strings, p, i);
      assert x[start + i] == x[..start + n][start + i] == y[..start + n][start + i];
    }
  }
}
