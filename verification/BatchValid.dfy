/** A batch of accepted entries: when the driver reports no failure at all. */
module BatchValid {
  import opened Words
  import opened Primes
  import opened Sha512
  import opened Field
  import opened Edwards
  import opened Groups
  import opened Ladder
  import opened Elements
  import opened Encoding
  import opened Ed25519
  import opened BosCoster
  import opened BatchEquation
  import opened BatchScalars
  import opened BatchBlock
  import opened Batch
  import Modm

  // ----- the scalars of a block depend on its bytes only

  ghost predicate SameNumbers<T, U>(e: seq<Item<T>>, d: seq<Item<U>>) {
    |e| == |d| && forall i :: 0 <= i < |e| ==> e[i].s == d[i].s && e[i].h == d[i].h && e[i].r == d[i].r
  }

  lemma {:induction false} WeightedAgree<T, U>(e: seq<Item<T>>, d: seq<Item<U>>, n: nat)
    requires SameNumbers(e, d) && n <= |e|
    ensures Weighted(e, n) == Weighted(d, n)
  {
    if n > 0 { WeightedAgree(e, d, n - 1); }
  }

  lemma ScalarsAgree<T, U>(e: seq<Item<T>>, d: seq<Item<U>>, order: nat)
    requires SameNumbers(e, d) && order > 0
    ensures BatchEquation.BatchScalars(e, order) == BatchEquation.BatchScalars(d, order)
  {
    WeightedAgree(e, d, |e|);
    assert KeyScalars(e, order) == KeyScalars(d, order);
    assert Factors(e) == Factors(d);
  }

  /** The scalars of a block, from its bytes and the random bytes. */
  ghost function BlockScalars(f: Compress, x: seq<Entry>, random: seq<seq<U8>>): (k: seq<int>)
    requires AllSized(x, random)
  {
    BatchEquation.BatchScalars(ItemsOf(f, x, random, seq(|x|, i => 0), seq(|x|, i => 0)), Modm.M)
  }

  lemma BlockScalarsAre<T>(f: Compress, x: seq<Entry>, random: seq<seq<U8>>, e: seq<Item<T>>, g: Group<T>, at: T -> Aff)
    requires AllSized(x, random) && AllItems(f, x, random, e, g, at)
    ensures BatchEquation.BatchScalars(e, Modm.M) == BlockScalars(f, x, random)
  {
    var d := ItemsOf(f, x, random, seq(|x|, i => 0), seq(|x|, i => 0));
    forall i | 0 <= i < |e| ensures e[i].s == d[i].s && e[i].h == d[i].h && e[i].r == d[i].r {
      assert ItemFor(f, x[i], random[i], e[i], g, at);
    }
    ScalarsAgree(e, d, Modm.M);
  }

  /** The multi-scalar multiplication reaches all entries and the final step gives a point. */
  ghost predicate Reaches(k: seq<int>) {
    Extends(k, Built(|k|)) && Multiplier(k).Some?
  }

  // ----- accepted entries satisfy the equation

  lemma EncodedElement<T(!new)>(g: Group<T>, at: T -> Aff, bytes: seq<U8>, q: T)
    requires Points(g, at) && g.mem(q) && Encoded(bytes, at(q))
    ensures Decodes(bytes, at(q))
  {
    PointsLaw(g, at, q, q);
    EncodedDecodes(bytes, at(q));
  }

  /** What verification expects of R, for an accepted entry. */
  lemma AcceptedNonce<T(!new)>(f: Compress, x: Entry, g: Group<T>, at: T -> Aff, b: T, p: T) returns (s: nat, h: nat, q: T)
    requires Points(g, at) && g.mem(b) && AcceptedFor(f, x.m, x.pk, x.rs, g, at, b, p)
    ensures s == LE(x.rs[32..]) % Modm.M && h == Challenge(f, x.rs[..32], x.pk, x.m) && q == Difference(g, s, b, h, p)
    ensures g.mem(q) && Decodes(x.rs[..32], at(q))
  {
    s, h := LE(x.rs[32..]) % Modm.M, Challenge(f, x.rs[..32], x.pk, x.m);
    q := Difference(g, s, b, h, p);
    DifferenceMem(g, s, b, h, p);
    EncodedElement(g, at, x.rs[..32], q);
  }

  lemma AcceptedHolds<T(!new)>(f: Compress, x: Entry, random: seq<U8>, i: Item<T>, g: Group<T>, at: T -> Aff, b: T)
    requires Prime(P) && Points(g, at) && Faithful(g, at) && g.mem(b) && ItemFor(f, x, random, i, g, at) && Accepts(f, x, g, at, b)
    ensures BatchEquation.Holds(g, b, i)
  {
    OneElement(f, x.m, x.pk, x.rs, g, at, b, i.a);
    var s, h, q := AcceptedNonce(f, x, g, at, b, i.a);
    DecodedOnce(g, at, x.rs[..32], i.q, q);
    HoldsBy(g, b, i, s, h);
  }

  lemma HoldsBy<T>(g: Group<T>, b: T, i: Item<T>, s: nat, h: nat)
    requires g.mem(i.a) && g.mem(i.q) && i.s == s && i.h == h && i.q == Difference(g, s, b, h, i.a)
    ensures BatchEquation.Holds(g, b, i)
  {
  }

  lemma AcceptedDecodes<T(!new)>(f: Compress, x: Entry, g: Group<T>, at: T -> Aff, b: T)
    requires Points(g, at) && g.mem(b) && Accepts(f, x, g, at, b)
    ensures !BadEntry(g, at, x)
  {
    var p :| AcceptedFor(f, x.m, x.pk, x.rs, g, at, b, p);
    var s, h, q := AcceptedNonce(f, x, g, at, b, p);
  }

  /** Accepted, with a key of order m. */
  ghost predicate Good<T(!new)>(f: Compress, x: Entry, g: Group<T>, at: T -> Aff, b: T) {
    Accepts(f, x, g, at, b) && OrderedKey(g, at, x.pk)
  }

  lemma GoodItems<T(!new)>(f: Compress, x: seq<Entry>, random: seq<seq<U8>>, e: seq<Item<T>>, g: Group<T>, at: T -> Aff, b: T)
    requires Prime(P) && Points(g, at) && Faithful(g, at) && g.mem(b) && AllItems(f, x, random, e, g, at)
    requires forall i: nat :: i < |x| ==> Good(f, x[i], g, at, b)
    ensures AllHold(g, b, e) && KeysHaveOrder(g, Modm.M, e)
  {
    forall i: nat | i < |e| ensures BatchEquation.Holds(g, b, e[i]) && Mul(g, Modm.M, e[i].a) == g.zero {
      assert ItemFor(f, x[i], random[i], e[i], g, at) && Good(f, x[i], g, at, b);
      AcceptedHolds(f, x[i], random[i], e[i], g, at, b);
    }
  }

  /** A block of good entries is neutral. */
  lemma GoodBlock<T(!new)>(f: Compress, x: seq<Entry>, random: seq<seq<U8>>, o: Outcome, g: Group<T>, at: T -> Aff, b: T)
    requires Prime(P) && Prime(Modm.M) && Points(g, at) && Faithful(g, at) && g.mem(b) && Mul(g, Modm.M, b) == g.zero
    requires AllSized(x, random) && |x| > 3 && Meaning(f, x, random, o, g, at, b) && Reaches(BlockScalars(f, x, random))
    requires forall i: nat :: i < |x| ==> Good(f, x[i], g, at, b)
    ensures o == Neutral
  {
    if o == Undecodable {
      var i :| 0 <= i < |x| && BadEntry(g, at, x[i]);
      assert Good(f, x[i], g, at, b);
      AcceptedDecodes(f, x[i], g, at, b);
      assert false;
    } else {
      var e :| Decided(f, x, random, e, o, g, at, b);
      GoodItems(f, x, random, e, g, at, b);
      BlockScalarsAre(f, x, random, e, g, at);
      ValidBatch(g, b, e, BatchEquation.BatchScalars(e, Modm.M), VerdictOf(o));
    }
  }

  // ----- the whole batch

  lemma SliceSized(e: seq<Entry>, random: seq<seq<U8>>, s: nat)
    requires AllSized(e, random) && s <= |e|
    ensures AllSized(Block(e, s), Block(random, s))
  {
    var x, r := Block(e, s), Block(random, s);
    forall i: nat {:trigger Sized(x[i], r[i])} | i < |x| ensures Sized(x[i], r[i]) { assert Sized(e[s + i], random[s + i]); }
  }

  /** Block j exists, has more than three entries, and its scalars are reached. */
  ghost predicate BlockReaches(f: Compress, e: seq<Entry>, random: seq<seq<U8>>, j: nat) {
    && AllSized(e, random) && 64 * j <= |e| && |Block(e, 64 * j)| > 3
    && (SliceSized(e, random, 64 * j); Reaches(BlockScalars(f, Block(e, 64 * j), Block(random, 64 * j))))
  }

  /** Accepted entries whose keys have order m, in blocks whose scalars are all reached: every entry
      is reported valid and the return value is 0. */
  lemma GoodBatch<T(!new)>(f: Compress, e: seq<Entry>, random: seq<seq<U8>>, acc: seq<bool>, o: seq<Outcome>, valid: seq<int>, ret: Option<int>,
                           g: Group<T>, at: T -> Aff, b: T)
    requires Prime(P) && Prime(Modm.M) && Points(g, at) && Faithful(g, at) && g.mem(b) && Mul(g, Modm.M, b) == g.zero
    requires AllSized(e, random) && Lists(acc, f, e, g, at, b) && AllMean(f, e, random, o, g, at, b) && Reported(ret, valid, acc, o)
    requires forall i: nat :: i < |e| ==> Good(f, e[i], g, at, b)
    requires forall j: nat :: j < Blocks(|e|) ==> BlockReaches(f, e, random, j)
    ensures ret == Some(0) && |valid| == |e| && forall i :: 0 <= i < |e| ==> valid[i] == 1
  {
    forall i: nat | i < |e| ensures acc[i] && Passes(acc, o, i) { assert Good(f, e[i], g, at, b); }
    forall j: nat | j < |o| ensures o[j] == Neutral {
      assert BlockReaches(f, e, random, j) && MeansAt(f, e, random, o, j, g, at, b);
      SliceSized(e, random, 64 * j);
      GoodSlice(f, e, 64 * j, g, at, b);
      GoodBlock(f, Block(e, 64 * j), Block(random, 64 * j), o[j], g, at, b);
    }
  }

  lemma GoodSlice<T(!new)>(f: Compress, e: seq<Entry>, s: nat, g: Group<T>, at: T -> Aff, b: T)
    requires s <= |e| && forall i: nat :: i < |e| ==> Good(f, e[i], g, at, b)
    ensures forall i: nat :: i < |Block(e, s)| ==> Good(f, Block(e, s)[i], g, at, b)
  {
    forall i: nat | i < |Block(e, s)| ensures Good(f, Block(e, s)[i], g, at, b) { assert Block(e, s)[i] == e[s + i]; }
  }
}
