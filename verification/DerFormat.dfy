/** The bytes of the DER codec of module Der, as sections 8.1.3, 8.3 and 8.19 of ITU-T X.690 give them,
    and what its readers do with other bytes. */
module DerFormat {
  import opened Words
  import opened NumberTheory
  import opened Der

  // ----- lengths

  lemma LongLength(l: nat)
    requires 0x80 <= l < Pow256(127)
    ensures |Minimal(l)| <= 127 && EncodeLength(l) == Ok([0x80 + |Minimal(l)|] + Minimal(l))
  {
    MinimalLength(l, 127);
    HighBit(|Minimal(l)|);
  }

  lemma HighBit(n: nat)
    requires n < 0x80
    ensures WithHighBit(n) == n + 0x80
  {
    QuoRem(n, 0x80, 0, n);
  }

  lemma LengthBelow(l: nat)
    requires l < 0x10000
    ensures l < Pow256(127)
  {
    assert Pow256(2) == 0x100 * Pow256(1) && Pow256(1) == 0x100 * Pow256(0);
    Pow256Grows(2, 127);
  }

  lemma MinimalSmall(l: nat)
    ensures l < 0x100 ==> Minimal(l) == [l]
    ensures 0x100 <= l < 0x10000 ==> Minimal(l) == [l / 0x100, l % 0x100]
  {
    if 0x100 <= l < 0x10000 {
      assert Minimal(l / 0x100) == [l / 0x100];
      assert [l / 0x100] + [l % 0x100] == [l / 0x100, l % 0x100];
    }
  }

  /** Short form below 128; otherwise 0x80 + k and k bytes of value l, the first of them not zero. */
  lemma LengthBytes(l: nat)
    ensures l < 0x80 ==> EncodeLength(l) == Ok([l])
    ensures 0x80 <= l < Pow256(127) ==>
              var e := EncodeLength(l);
              && e.Ok? && 2 <= |e.value| <= 128 && e.value[0] == 0x80 + (|e.value| - 1)
              && e.value[1] != 0 && Number(e.value[1..]) == l
  {
    if 0x80 <= l < Pow256(127) {
      LongLength(l);
      assert ([0x80 + |Minimal(l)|] + Minimal(l))[1..] == Minimal(l);
    }
  }

  /** The lengths that occur, byte by byte. */
  lemma UsualLengths(l: nat)
    ensures 0x80 <= l < 0x100 ==> EncodeLength(l) == Ok([0x81, l])
    ensures 0x100 <= l < 0x10000 ==> EncodeLength(l) == Ok([0x82, l / 0x100, l % 0x100])
  {
    if 0x80 <= l < 0x10000 {
      LengthBelow(l);
      LongLength(l);
      MinimalSmall(l);
      assert [0x81] + [l] == [0x81, l];
      assert [0x82] + [l / 0x100, l % 0x100] == [0x82, l / 0x100, l % 0x100];
    }
  }

  /** Reading: the short form, the long form, and the three failures. */
  lemma ReadLengthIs(l: U8, b: Bytes, rest: Bytes)
    ensures ReadLength([]) == Raised(IndexError)
    ensures l < 0x80 ==> ReadLength([l] + rest) == Ok((l as nat, 1))
    ensures ReadLength([0x80] + rest) == Raised(ValueError)
    ensures l == 0x80 + |b| && b != [] ==> ReadLength([l] + b + rest) == Ok((Number(b), 1 + |b|))
    ensures l > 0x80 + |b| ==> ReadLength([l] + b) == Raised(UnexpectedDER)
  {
    if l == 0x80 + |b| && b != [] {
      assert ([l] + b + rest)[1..1 + |b|] == b;
    }
  }

  // ----- integers

  /** The weight of the first byte. */
  lemma FirstByte(s: Bytes)
    requires s != []
    ensures s[0] * Pow256(|s| - 1) <= Number(s) < (s[0] + 1) * Pow256(|s| - 1)
  {
    assert s == [s[0]] + s[1..];
    NumberConcat([s[0]], s[1..]);
    assert Number([s[0]]) == s[0] by { assert [s[0]][..0] == []; }
    NumberBound(s[1..]);
    assert (s[0] + 1) * Pow256(|s| - 1) == s[0] * Pow256(|s| - 1) + Pow256(|s| - 1);
  }

  lemma ScaledBelow(x: int, w: int, v: int, r: int)
    requires 0 <= x < 0x80 && 0 < w <= v && r < (x + 1) * w
    ensures r < 0x80 * v
  {
    MulMono(w, x + 1, 0x80);
    MulMono(0x80, w, v);
    assert (x + 1) * w == w * (x + 1) && w * 0x80 == 0x80 * w;
  }

  /** How many content bytes a number takes. */
  lemma ContentSize(r: nat, n: nat)
    requires n > 0
    ensures |Content(r)| <= n <==> r < 0x80 * Pow256(n - 1)
  {
    if |Content(r)| <= n { ContentFits(r, n); }
    if r < 0x80 * Pow256(n - 1) { FitsContent(r, n); }
  }

  lemma ContentFits(r: nat, n: nat)
    requires |Content(r)| <= n
    ensures r < 0x80 * Pow256(n - 1)
  {
    var c := Content(r);
    ContentIs(r);
    FirstByte(c);
    Pow256Grows(|c| - 1, n - 1);
    ScaledBelow(c[0], Pow256(|c| - 1), Pow256(n - 1), r);
  }

  lemma HighByte(x: int, w: int, r: int)
    requires w > 0 && x * w <= r < 0x80 * w
    ensures x < 0x80
  {
    if x >= 0x80 { MulMono(w, 0x80, x); }
  }

  lemma FitsContent(r: nat, n: nat)
    requires n > 0 && r < 0x80 * Pow256(n - 1)
    ensures |Content(r)| <= n
  {
    var s := Minimal(r);
    assert Pow256(n) == 0x100 * Pow256(n - 1);
    MinimalLength(r, n);
    if |s| == n {
      FirstByte(s);
      HighByte(s[0], Pow256(n - 1), r);
    }
  }

  /** Tag 2, one length byte, and the shortest content of value r whose first byte has no high bit. It
      exists for numbers of at most 255 content bytes. */
  lemma IntegerBytes(r: int)
    ensures r < 0 ==> EncodeInteger(r) == Raised(AssertionError)
    ensures r >= 0x80 * Pow256(254) ==> EncodeInteger(r) == Raised(ValueError)
    ensures 0 <= r < 0x80 * Pow256(254) ==>
              var e := EncodeInteger(r);
              && e.Ok? && |e.value| >= 3 && e.value[0] == 2 && e.value[1] == |e.value| - 2
              && Number(e.value[2..]) == r && e.value[2] < 0x80
              && (|e.value| > 3 && e.value[2] == 0 ==> e.value[3] >= 0x80)
  {
    if r >= 0 {
      var c := Content(r);
      ContentSize(r, 255);
      ContentIs(r);
      if |c| <= 255 { assert ([2] + [|c|] + c)[2..] == c; }
    }
  }

  /** Integers come back, with what follows, exactly below 2^1015. */
  lemma IntegerRange(r: nat, rest: Bytes)
    ensures var e := EncodeInteger(r);
            (e.Ok? && RemoveInteger(e.value + rest) == Ok((r, rest))) <==> r < 0x80 * Pow256(126)
  {
    IntegerRoundTrip(r, rest);
    ContentSize(r, 127);
  }

  /** What `remove_integer` does with a short length l: the tag, the sign and an empty content are
      tested; a content that ends early is taken as it is. */
  lemma RemoveIntegerIs(t: U8, l: U8, c: Bytes, rest: Bytes)
    requires l < 0x80
    ensures RemoveInteger([]) == Raised(IndexError)
    ensures t != 2 ==> RemoveInteger([t] + rest) == Raised(UnexpectedDER)
    ensures |c| == l > 0 ==> RemoveInteger([2, l] + c + rest) == if c[0] >= 0x80 then Raised(AssertionError) else Ok((Number(c), rest))
    ensures RemoveInteger([2, 0] + rest) == Raised(IndexError)
    ensures 0 < |c| < l ==> RemoveInteger([2, l] + c) == if c[0] >= 0x80 then Raised(AssertionError) else Ok((Number(c), []))
  {
    ShortElement(l, c, rest);
    ShortElement(0, [], rest);
  }

  lemma ShortElement(l: U8, c: Bytes, rest: Bytes)
    requires l < 0x80
    ensures |c| == l ==> Element([2, l] + c + rest, 2) == Ok((c, rest))
    ensures |c| < l ==> Element([2, l] + c, 2) == Ok((c, []))
    ensures l == 0 ==> Element([2, 0] + rest, 2) == Ok(([], rest))
  {
    var s := [2, l] + c + rest;
    assert s[1..] == [l] + (c + rest) && ([2, l] + c)[1..] == [l] + c;
    if |c| == l {
      assert Slice(s, 2, 2 + l) == c && From(s, 2 + l) == rest;
      if l == 0 { assert [2, 0] + rest == s; }
    } else if |c| < l {
      assert Slice([2, l] + c, 2, 2 + l) == c;
    } else if l == 0 {
      var z := [2, 0] + rest;
      assert z[1..] == [0] + rest && Slice(z, 2, 2) == [] && From(z, 2) == rest;
    }
  }

  // ----- base-128 numbers

  /** The value of the low seven bits of each byte, most significant first. */
  function Sevens(s: Bytes): (n: nat) {
    if s == [] then 0 else Sevens(s[..|s| - 1]) * 0x80 + s[|s| - 1] % 0x80
  }

  /** All bytes but the last have their high bit set. */
  predicate Chained(s: Bytes) {
    s != [] && s[|s| - 1] < 0x80 && forall i :: 0 <= i < |s| - 1 ==> s[i] >= 0x80
  }

  lemma SevensAppend(s: Bytes, d: U8)
    ensures Sevens(s + [d]) == Sevens(s) * 0x80 + d % 0x80
  {
    assert (s + [d])[..|s|] == s;
  }

  lemma {:induction false} ContinuedBytes(n: nat)
    ensures Sevens(Continued(n)) == n && (forall i :: 0 <= i < |Continued(n)| ==> Continued(n)[i] >= 0x80)
    ensures n > 0 ==> Continued(n) != [] && Continued(n)[0] > 0x80
  {
    if n > 0 {
      var q, d := n / 0x80, 0x80 + n % 0x80;
      ContinuedBytes(q);
      SevensAppend(Continued(q), d);
      SevenBits(n, d);
    }
  }

  lemma SevenBits(n: nat, d: int)
    requires d == 0x80 + n % 0x80
    ensures d % 0x80 == n % 0x80 && (0 < n < 0x80 ==> d > 0x80)
  {
    QuoRem(d, 0x80, 1, n % 0x80);
  }

  /** A number in seven-bit digits without a leading zero digit. */
  lemma NumberBytes(n: nat)
    ensures var s := Base128(n); Chained(s) && Sevens(s) == n && (|s| > 1 ==> s[0] > 0x80)
  {
    var q, d := n / 0x80, n % 0x80;
    ContinuedBytes(q);
    SevensAppend(Continued(q), d);
    QuoRem(d, 0x80, 0, d);
  }

  /** Reading from position at on. */
  lemma {:induction false} ReadFrom(s: Bytes, rest: Bytes, at: nat)
    requires Chained(s) && at < |s|
    ensures NumberAt(s + rest, Sevens(s[..at]), at) == Ok((Sevens(s), |s|))
    decreases |s| - at
  {
    var t := s[..at + 1];
    assert t[..at] == s[..at] && t[at] == s[at];
    assert Sevens(t) == Sevens(s[..at]) * 0x80 + s[at] % 0x80;
    if at < |s| - 1 { ReadFrom(s, rest, at + 1); } else { assert t == s; }
  }

  lemma {:induction false} ReadOut(s: Bytes, acc: nat, at: nat)
    requires forall i :: 0 <= i < |s| ==> s[i] >= 0x80
    ensures NumberAt(s, acc, at) == Raised(IndexError)
    decreases |s| - at
  {
    if at < |s| { ReadOut(s, acc * 0x80 + s[at] % 0x80, at + 1); }
  }

  /** `read_number` takes the digits up to the first plain byte, and fails when there is none. */
  lemma ReadNumberIs(s: Bytes, rest: Bytes)
    ensures Chained(s) ==> NumberAt(s + rest, 0, 0) == Ok((Sevens(s), |s|))
    ensures (forall i :: 0 <= i < |s| ==> s[i] >= 0x80) ==> NumberAt(s, 0, 0) == Raised(IndexError)
  {
    if Chained(s) {
      assert s[..0] == [];
      ReadFrom(s, rest, 0);
    }
    if forall i :: 0 <= i < |s| ==> s[i] >= 0x80 { ReadOut(s, 0, 0); }
  }

  // ----- object identifiers

  lemma TwoSevens(n: nat)
    ensures n < 0x80 ==> Base128(n) == [n]
    ensures 0x80 <= n < 0x4000 ==> Base128(n) == [0x80 + n / 0x80, n % 0x80]
  {
    if n < 0x80 {
      assert Continued(0) + [n] == [n];
    } else if n < 0x4000 {
      var q := n / 0x80;
      QuoRem(q, 0x80, 0, q);
      assert Continued(q) == Continued(0) + [0x80 + q] == [0x80 + q];
    }
  }

  lemma ConcatNext(n: nat, rest: seq<nat>)
    ensures Concat([n] + rest) == Base128(n) + Concat(rest)
  {
    assert ([n] + rest)[1..] == rest;
  }

  /** The identifier of elliptic-curve public keys, byte by byte. */
  lemma PublicKeyOid()
    ensures EncodeOid(1, 2, [840, 10045, 2, 1]) == Ok([6, 7, 0x2a, 0x86, 0x48, 0xce, 0x3d, 0x02, 0x01])
  {
    var pieces: seq<nat> := [840, 10045, 2, 1];
    PublicKeyPieces();
    OidBytes(1, 2, pieces);
    assert [6, 7, 42] + Concat(pieces) == [6, 7, 0x2a, 0x86, 0x48, 0xce, 0x3d, 0x02, 0x01];
  }

  lemma PublicKeyPieces()
    ensures Concat([840, 10045, 2, 1]) == [0x86, 0x48, 0xce, 0x3d, 0x02, 0x01]
  {
    TwoSevens(840);
    TwoSevens(10045);
    LastPieces();
    assert [10045] + [2, 1] == [10045, 2, 1] && [840] + [10045, 2, 1] == [840, 10045, 2, 1];
    ConcatNext(10045, [2, 1]);
    assert Concat([10045, 2, 1]) == [0xce, 0x3d, 0x02, 0x01];
    ConcatNext(840, [10045, 2, 1]);
  }

  lemma LastPieces()
    ensures Concat([2, 1]) == [2, 1]
  {
    TwoSevens(2);
    TwoSevens(1);
    assert [1] + [] == [1] && [2] + [1] == [2, 1];
    ConcatNext(1, []);
    assert Concat([1]) == [1];
    ConcatNext(2, [1]);
  }

  /** Tag 6, the length, 40 first + second in one byte and the numbers; the two assertions. */
  lemma OidBytes(first: nat, second: nat, pieces: seq<nat>)
    ensures first > 2 || second > 39 ==> EncodeOid(first, second, pieces) == Raised(AssertionError)
    ensures first <= 2 && second <= 39 && |Concat(pieces)| < 0x7f ==>
              EncodeOid(first, second, pieces) == Ok([6, 1 + |Concat(pieces)|, 40 * first + second] + Concat(pieces))
    ensures RemoveObject([6, 0]) == Raised(IndexError)
  {
    if first <= 2 && second <= 39 && |Concat(pieces)| < 0x7f {
      var l := 1 + |Concat(pieces)|;
      assert [6] + [l] + OidBody(first, second, pieces) == [6, l, 40 * first + second] + Concat(pieces);
    }
    var z: Bytes := [6, 0];
    assert z[1..] == [0];
    assert Element(z, 6) == Ok(([], []));
  }

  // ----- signatures

  /** Tag 0x30, the length, r and s. */
  lemma SignatureBytes(r: nat, s: nat, h: Bytes, a: Bytes, b: Bytes)
    requires EncodeInteger(r) == Ok(a) && EncodeInteger(s) == Ok(b) && EncodeLength(|a| + |b|) == Ok(h)
    ensures SigEncode(r, s) == Ok([0x30] + h + a + b)
  {
    assert [0x30] + h + (a + b) == [0x30] + h + a + b;
  }

  /** Numbers that come back do not come back with bytes after the sequence, */
  lemma JunkAfter(r: nat, s: nat, junk: Bytes)
    requires |Content(r)| <= 127 && |Content(s)| <= 127 && junk != []
    ensures SigEncode(r, s).Ok? && SigDecode(SigEncode(r, s).value + junk) == Raised(UnexpectedDER)
  {
    var a, b := EncodeInteger(r).value, EncodeInteger(s).value;
    SmallLength(|a + b|);
    ElementEncoded(0x30, a + b, junk);
  }

  /** nor inside it after the second number, */
  lemma JunkInside(r: nat, s: nat, junk: Bytes, sig: Bytes)
    requires |Content(r)| <= 127 && |Content(s)| <= 127 && junk != []
    requires Element(sig, 0x30) == Ok((EncodeInteger(r).value + EncodeInteger(s).value + junk, []))
    ensures SigDecode(sig) == Raised(UnexpectedDER)
  {
    var a, b := EncodeInteger(r).value, EncodeInteger(s).value;
    assert a + b + junk == a + (b + junk);
    IntegerRoundTrip(r, b + junk);
    IntegerRoundTrip(s, junk);
  }

  /** and another tag, or anything after the sequence, is refused whatever else the bytes are. */
  lemma Refused(sig: Bytes)
    ensures sig == [] ==> SigDecode(sig) == Raised(IndexError)
    ensures sig != [] && sig[0] != 0x30 ==> SigDecode(sig) == Raised(UnexpectedDER)
    ensures Element(sig, 0x30).Ok? && Element(sig, 0x30).value.1 != [] ==> SigDecode(sig) == Raised(UnexpectedDER)
  {
  }

  /** Negative numbers and numbers above 255 content bytes are refused by the encoder. */
  lemma NotEncoded(r: int, s: int)
    ensures r < 0 || (r < 0x80 * Pow256(254) && s < 0) ==> SigEncode(r, s) == Raised(AssertionError)
    ensures r >= 0x80 * Pow256(254) || (r >= 0 && s >= 0x80 * Pow256(254)) ==> SigEncode(r, s) == Raised(ValueError)
  {
    IntegerBytes(r);
    IntegerBytes(s);
  }
}
