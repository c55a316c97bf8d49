/** The DER codec of bin/python/ecdsa/der.py (lines 12-145) and the signature codec of util.py (lines
    197-198 and 235-246); sections 8.1.3, 8.3 and 8.19 of ITU-T X.690. */
module Der {
  import opened Words
  import opened NumberTheory

  type Bytes = seq<U8>

  // ----- Python's views of bytes

  /** `s[i:j]`: bounds beyond the end are cut off. */
  function Slice(s: Bytes, i: nat, j: nat): Bytes {
    if i >= |s| || j <= i then [] else s[i..if j < |s| then j else |s|]
  }

  function From(s: Bytes, i: nat): Bytes {
    if i >= |s| then [] else s[i..]
  }

  /** `binascii.unhexlify` of the even-length hexadecimal form: no leading zero byte except for 0. */
  function Minimal(n: nat): (s: Bytes)
    ensures |s| > 0 && Number(s) == n && (n > 0 ==> s[0] > 0)
  {
    if n < 0x100 then
      assert Number([n]) == Number([]) * 0x100 + n;
      [n]
    else
      var s := Minimal(n / 0x100);
      assert (s + [n % 0x100])[..|s|] == s;
      s + [n % 0x100]
  }

  // ----- lengths

  /** `int2byte`; from Python 3.2 on the error is an OverflowError. */
  function Byte(v: nat): Result<Bytes> {
    if v < 0x100 then Ok([v]) else Raised(ValueError)
  }

  /** `0x80 | n` */
  function WithHighBit(n: nat): nat {
    if n / 0x80 % 2 == 1 then n else n + 0x80
  }

  /** `encode_length` */
  function EncodeLength(l: nat): Result<Bytes> {
    if l < 0x80 then Ok([l])
    else
      var s := Minimal(l);
      match Byte(WithHighBit(|s|)) case Raised(e) => Raised(e) case Ok(h) => Ok(h + s)
  }

  /** `read_length`: the length and the number of bytes that encode it. */
  function ReadLength(s: Bytes): Result<(nat, nat)> {
    if s == [] then Raised(IndexError)
    else if s[0] < 0x80 then Ok((s[0] as nat, 1))
    else
      var k: nat := s[0] - 0x80;
      if k > |s| - 1 then Raised(UnexpectedDER)
      else if k == 0 then Raised(ValueError)
      else Ok((Number(s[1..1 + k]), 1 + k))
  }

  /** Lengths come back exactly when their own length takes at most 127 bytes. */
  lemma LengthRoundTrip(l: nat, rest: Bytes)
    ensures var e := EncodeLength(l);
            (e.Ok? && ReadLength(e.value + rest) == Ok((l, |e.value|))) <==> (l < 0x80 || |Minimal(l)| <= 127)
  {
    var e := EncodeLength(l);
    if l >= 0x80 && e.Ok? {
      var s := Minimal(l);
      var k: nat := WithHighBit(|s|) - 0x80;
      var all := e.value + rest;
      assert all[0] == 0x80 + k;
      if |s| <= 127 {
        assert k == |s| && all[1..1 + k] == s;
      } else {
        assert k == |s| - 0x80;
      }
    }
  }

  // ----- integers

  /** The content bytes: a zero byte in front when the first one has its high bit set. */
  function Content(r: nat): (s: Bytes)
    ensures |s| > 0
  {
    var s := Minimal(r);
    if s[0] < 0x80 then s else [0] + s
  }

  /** `encode_integer`; the length is written in one byte. */
  function EncodeInteger(r: int): Result<Bytes> {
    if r < 0 then Raised(AssertionError)
    else match Byte(|Content(r)|) case Raised(e) => Raised(e) case Ok(h) => Ok([2] + h + Content(r))
  }

  /** What every remover starts with: the bytes of the element with the given tag, and the bytes after
      it. This is all that `remove_sequence`, `remove_octet_string` and `remove_bitstring` do. */
  function Element(s: Bytes, tag: U8): Result<(Bytes, Bytes)> {
    if s == [] then Raised(IndexError)
    else if s[0] != tag then Raised(UnexpectedDER)
    else match ReadLength(s[1..])
      case Raised(e) => Raised(e)
      case Ok((length, llen)) => Ok((Slice(s, 1 + llen, 1 + llen + length), From(s, 1 + llen + length)))
  }

  /** An element whose length reads back is taken apart correctly. */
  lemma ElementIs(tag: U8, h: Bytes, c: Bytes, rest: Bytes)
    requires ReadLength(h + (c + rest)) == Ok((|c|, |h|))
    ensures Element([tag] + h + c + rest, tag) == Ok((c, rest))
  {
    var s := [tag] + h + c + rest;
    assert s[1..] == h + (c + rest);
    assert Slice(s, 1 + |h|, 1 + |h| + |c|) == c && From(s, 1 + |h| + |c|) == rest;
  }

  /** In particular one whose length `encode_length` wrote. */
  lemma ElementEncoded(tag: U8, c: Bytes, rest: Bytes)
    requires |c| < 0x80 || |Minimal(|c|)| <= 127
    ensures EncodeLength(|c|).Ok? && Element([tag] + EncodeLength(|c|).value + c + rest, tag) == Ok((c, rest))
  {
    LengthRoundTrip(|c|, c + rest);
    ElementIs(tag, EncodeLength(|c|).value, c, rest);
  }

  /** `remove_integer` */
  function RemoveInteger(s: Bytes): Result<(nat, Bytes)> {
    match Element(s, 2)
    case Raised(e) => Raised(e)
    case Ok((body, rest)) =>
      if body == [] then Raised(IndexError)
      else if body[0] >= 0x80 then Raised(AssertionError)
      else Ok((Number(body), rest))
  }

  lemma ContentIs(r: nat)
    ensures Content(r)[0] < 0x80 && Number(Content(r)) == r
  {
    var s := Minimal(r);
    if s[0] >= 0x80 {
      NumberConcat([0], s);
      assert Number([0]) == Number([]) * 0x100 + 0 by { assert [0][..0] == []; }
    }
  }

  /** The content is the shortest form of a number whose first byte has no high bit. */
  lemma {:induction false} ContentShortest(n: nat, s: Bytes)
    requires s != [] && s[0] < 0x80 && Number(s) == n
    ensures |Content(n)| <= |s|
    decreases n
  {
    var t, d := s[..|s| - 1], s[|s| - 1];
    assert n == Number(t) * 0x100 + d;
    if n < 0x100 {
      if |s| == 1 { assert t == [] && Number(t) == 0; }
    } else {
      QuoRem(n, 0x100, Number(t), d);
      assert t != [] && t[0] == s[0];
      ContentShortest(n / 0x100, t);
      assert Minimal(n) == Minimal(n / 0x100) + [n % 0x100];
    }
  }

  /** The element's header, its body and what is left do not overlap. */
  lemma ElementSize(s: Bytes, tag: U8)
    requires Element(s, tag).Ok?
    ensures ReadLength(s[1..]).Ok?
    ensures var (body, rest) := Element(s, tag).value; body != [] ==> |body| + |rest| + 1 + ReadLength(s[1..]).value.1 <= |s|
  {
  }

  /** A number that was removed had room for its content, before what is left and after the header. */
  lemma RemoveSize(s: Bytes)
    requires RemoveInteger(s).Ok?
    ensures s != [] && ReadLength(s[1..]).Ok?
    ensures var (n, rest) := RemoveInteger(s).value; |Content(n)| + |rest| + 1 + ReadLength(s[1..]).value.1 <= |s|
  {
    ElementSize(s, 2);
    var (body, rest) := Element(s, 2).value;
    ContentShortest(Number(body), body);
  }

  /** A length byte of 128 or more announces further length bytes. */
  lemma LongHeader(c: Bytes, rest: Bytes)
    requires 128 <= |c| < 0x100
    ensures var h := ReadLength(([2, |c|] + c + rest)[1..]); h.Ok? ==> h.value.1 >= 2
  {
    assert ([2, |c|] + c + rest)[1..][0] == |c|;
  }

  /** Integers come back, with the bytes that follow them, exactly when they have at most 127 content
      bytes. */
  lemma IntegerRoundTrip(r: nat, rest: Bytes)
    ensures var e := EncodeInteger(r);
            (e.Ok? && RemoveInteger(e.value + rest) == Ok((r, rest))) <==> |Content(r)| <= 127
  {
    var c := Content(r);
    ContentIs(r);
    if |c| < 0x100 {
      assert EncodeInteger(r).value + rest == [2, |c|] + c + rest;
      if |c| <= 127 {
        ElementIs(2, [|c|], c, rest);
      } else if RemoveInteger([2, |c|] + c + rest) == Ok((r, rest)) {
        LongHeader(c, rest);
        RemoveSize([2, |c|] + c + rest);
        assert false;
      }
    }
  }

  // ----- base-128 numbers

  /** The digits of n with the continuation bit set on all of them. */
  function Continued(n: nat): (s: Bytes) {
    if n == 0 then [] else Continued(n / 0x80) + [0x80 + n % 0x80]
  }

  /** What `encode_number` produces. */
  function Base128(n: nat): (s: Bytes)
    ensures |s| > 0
  {
    Continued(n / 0x80) + [n % 0x80]
  }

  /** `encode_number` */
  method EncodeNumber(n0: nat) returns (s: Bytes)
    ensures s == Base128(n0)
  {
    var n := n0;
    s := [];
    while n != 0
      invariant Continued(n) + s == Continued(n0)
      decreases n
    {
      s := [n % 0x80 + 0x80] + s;
      n := n / 0x80;
    }
    assert Continued(0) + s == s;
    if s == [] {
      s := [0];
    }
    s := s[|s| - 1 := s[|s| - 1] % 0x80];
    LastDigit(n0);
  }

  lemma LastDigit(n: nat)
    ensures n > 0 ==> Continued(n)[|Continued(n)| - 1 := n % 0x80] == Base128(n)
    ensures n == 0 ==> Base128(n) == [0]
  {
    assert Continued(0) + [0] == [0];
  }

  /** What `read_number` returns, or the first byte it misses. */
  function NumberAt(s: Bytes, acc: nat, at: nat): Result<(nat, nat)>
    decreases |s| - at
  {
    if at >= |s| then Raised(IndexError)
    else
      var n := acc * 0x80 + s[at] % 0x80;
      if s[at] < 0x80 then Ok((n, at + 1)) else NumberAt(s, n, at + 1)
  }

  /** `read_number`; its own length test never fires, the index does. */
  method ReadNumber(s: Bytes) returns (r: Result<(nat, nat)>)
    ensures r == NumberAt(s, 0, 0)
  {
    var number: nat := 0;
    var llen: nat := 0;
    while true
      invariant llen <= |s| && NumberAt(s, number, llen) == NumberAt(s, 0, 0)
      decreases |s| - llen
    {
      if llen > |s| { return Raised(UnexpectedDER); }
      if llen == |s| { return Raised(IndexError); }
      var d := s[llen];
      number := number * 0x80 + d % 0x80;
      llen := llen + 1;
      if d < 0x80 { return Ok((number, llen)); }
    }
  }

  /** Reading on after the continued digits of n. */
  lemma {:induction false} ContinuedRead(before: Bytes, n: nat, rest: Bytes)
    ensures var s := before + Continued(n) + rest;
            n > 0 ==> NumberAt(s, 0, |before|) == NumberAt(s, n, |before| + |Continued(n)|)
    decreases n
  {
    if n > 0 {
      var q, d := n / 0x80, 0x80 + n % 0x80;
      var s := before + Continued(n) + rest;
      assert s == before + Continued(q) + ([d] + rest);
      ContinuedRead(before, q, [d] + rest);
      assert s[|before| + |Continued(q)|] == d;
    }
  }

  /** Base-128 numbers come back, whatever follows. */
  lemma NumberRoundTrip(n: nat, rest: Bytes)
    ensures NumberAt(Base128(n) + rest, 0, 0) == Ok((n, |Base128(n)|))
  {
    var q, d := n / 0x80, n % 0x80;
    var s := Base128(n) + rest;
    assert s == [] + Continued(q) + ([d] + rest);
    ContinuedRead([], q, [d] + rest);
    assert s[|Continued(q)|] == d;
  }

  // ----- object identifiers

  function Concat(pieces: seq<nat>): (s: Bytes) {
    if pieces == [] then [] else Base128(pieces[0]) + Concat(pieces[1..])
  }

  function OidBody(first: nat, second: nat, pieces: seq<nat>): Bytes
    requires first <= 2 && second <= 39
  {
    [40 * first + second] + Concat(pieces)
  }

  /** `encode_oid` */
  function EncodeOid(first: nat, second: nat, pieces: seq<nat>): Result<Bytes> {
    if first > 2 || second > 39 then Raised(AssertionError)
    else
      var body := OidBody(first, second, pieces);
      match EncodeLength(|body|) case Raised(e) => Raised(e) case Ok(h) => Ok([6] + h + body)
  }

  /** The numbers in the body of an object identifier. */
  function Numbers(body: Bytes): Result<seq<nat>>
    decreases |body|
  {
    if body == [] then Ok([])
    else match NumberAt(body, 0, 0)
      case Raised(e) => Raised(e)
      case Ok((n, ll)) =>
        if ll == 0 || ll > |body| then Raised(IndexError)
        else After([n], Numbers(body[ll..]))
  }

  /** A number takes at least one byte and at most what is there. */
  lemma {:induction false} NumberAtBounds(s: Bytes, acc: nat, at: nat)
    ensures NumberAt(s, acc, at).Ok? ==> at < NumberAt(s, acc, at).value.1 <= |s|
    decreases |s| - at
  {
    if at < |s| && s[at] >= 0x80 { NumberAtBounds(s, acc * 0x80 + s[at] % 0x80, at + 1); }
  }

  /** The loop of `remove_object`. */
  method ReadNumbers(body0: Bytes) returns (r: Result<seq<nat>>)
    ensures r == Numbers(body0)
  {
    var body: Bytes, numbers: seq<nat> := body0, [];
    while body != []
      invariant Numbers(body0) == After(numbers, Numbers(body))
      decreases |body|
    {
      var n := ReadNumber(body);
      if n.Raised? { return Raised(n.error); }
      NumberAtBounds(body, 0, 0);
      AfterBoth(numbers, n.value.0, Numbers(body[n.value.1..]));
      numbers := numbers + [n.value.0];
      body := body[n.value.1..];
    }
    assert numbers + [] == numbers;
    r := Ok(numbers);
  }

  /** Numbers read so far, before those still to come. */
  function After(numbers: seq<nat>, r: Result<seq<nat>>): (s: Result<seq<nat>>)
    ensures numbers == [] ==> s == r
  {
    match r case Raised(e) => Raised(e) case Ok(rest) => assert [] + rest == rest; Ok(numbers + rest)
  }

  lemma AfterBoth(numbers: seq<nat>, n: nat, r: Result<seq<nat>>)
    ensures After(numbers, After([n], r)) == After(numbers + [n], r)
  {
    if r.Ok? { assert numbers + ([n] + r.value) == numbers + [n] + r.value; }
  }

  /** `remove_object` */
  function RemoveObject(s: Bytes): Result<(seq<nat>, Bytes)> {
    match Element(s, 6)
    case Raised(e) => Raised(e)
    case Ok((body, rest)) =>
      match Numbers(body)
      case Raised(e) => Raised(e)
      case Ok(numbers) =>
        if numbers == [] then Raised(IndexError)
        else Ok(([numbers[0] / 40, numbers[0] - 40 * (numbers[0] / 40)] + numbers[1..], rest))
  }

  lemma {:induction false} PiecesRoundTrip(pieces: seq<nat>)
    ensures Numbers(Concat(pieces)) == Ok(pieces)
  {
    if pieces != [] {
      var e, rest := Base128(pieces[0]), Concat(pieces[1..]);
      PiecesRoundTrip(pieces[1..]);
      NumberRoundTrip(pieces[0], rest);
      assert (e + rest)[|e|..] == rest;
      assert pieces == [pieces[0]] + pieces[1..];
    }
  }

  lemma OidNumbers(first: nat, second: nat, pieces: seq<nat>)
    requires first <= 2 && second <= 39
    ensures Numbers(OidBody(first, second, pieces)) == Ok([40 * first + second] + pieces)
  {
    PiecesRoundTrip(pieces);
    FirstNumber(40 * first + second, Concat(pieces), pieces);
  }

  lemma ObjectFrom(s: Bytes, body: Bytes, rest: Bytes, first: nat, second: nat, pieces: seq<nat>)
    requires Element(s, 6) == Ok((body, rest)) && Numbers(body) == Ok([40 * first + second] + pieces) && second <= 39
    ensures RemoveObject(s) == Ok(([first, second] + pieces, rest))
  {
    var n := 40 * first + second;
    QuoRem(n, 40, first, second);
    assert ([n] + pieces)[1..] == pieces;
  }

  /** Object identifiers come back, with the bytes that follow them. */
  lemma ObjectRoundTrip(first: nat, second: nat, pieces: seq<nat>, rest: Bytes)
    requires first <= 2 && second <= 39 && |Minimal(|OidBody(first, second, pieces)|)| <= 127
    ensures var e := EncodeOid(first, second, pieces);
            e.Ok? && RemoveObject(e.value + rest) == Ok(([first, second] + pieces, rest))
  {
    var body := OidBody(first, second, pieces);
    ElementEncoded(6, body, rest);
    OidNumbers(first, second, pieces);
    ObjectFrom(EncodeOid(first, second, pieces).value + rest, body, rest, first, second, pieces);
  }

  lemma FirstNumber(n: nat, rest: Bytes, pieces: seq<nat>)
    requires n < 0x80 && Numbers(rest) == Ok(pieces)
    ensures Numbers([n] + rest) == Ok([n] + pieces)
  {
    var s := [n] + rest;
    assert NumberAt(s, 0, 0) == Ok((n, 1));
    assert s[1..] == rest;
  }

  // ----- signatures

  /** `encode_sequence` of two pieces */
  function EncodeSequence(a: Bytes, b: Bytes): Result<Bytes> {
    match EncodeLength(|a| + |b|) case Raised(e) => Raised(e) case Ok(h) => Ok([0x30] + h + (a + b))
  }

  /** `sigencode_der` */
  function SigEncode(r: int, s: int): Result<Bytes> {
    match (EncodeInteger(r), EncodeInteger(s))
    case (Ok(a), Ok(b)) => EncodeSequence(a, b)
    case (Raised(e), _) => Raised(e)
    case (Ok(_), Raised(e)) => Raised(e)
  }

  /** `sigdecode_der` */
  function SigDecode(sig: Bytes): Result<(nat, nat)> {
    match Element(sig, 0x30)
    case Raised(e) => Raised(e)
    case Ok((body, empty)) =>
      if empty != [] then Raised(UnexpectedDER)
      else match RemoveInteger(body)
        case Raised(e) => Raised(e)
        case Ok((r, rest)) =>
          match RemoveInteger(rest)
          case Raised(e) => Raised(e)
          case Ok((s, junk)) => if junk != [] then Raised(UnexpectedDER) else Ok((r, s))
  }

  /** Both numbers are removed in turn and nothing is left. */
  ghost predicate RemovesBoth(body: Bytes, r: nat, s: nat) {
    var first := RemoveInteger(body);
    first.Ok? && first.value.0 == r && RemoveInteger(first.value.1) == Ok((s, []))
  }

  /** The outer sequence is always taken apart again. */
  lemma SequenceIs(r: nat, s: nat, a: Bytes, b: Bytes)
    requires EncodeInteger(r) == Ok(a) && EncodeInteger(s) == Ok(b)
    ensures SigEncode(r, s).Ok? && (SigDecode(SigEncode(r, s).value) == Ok((r, s)) <==> RemovesBoth(a + b, r, s))
  {
    var t := a + b;
    SmallLength(|t|);
    var e := [0x30] + EncodeLength(|t|).value + t;
    assert SigEncode(r, s) == Ok(e);
    ElementEncoded(0x30, t, []);
    assert e + [] == e;
    DecodeBody(e, t, r, s);
  }

  lemma DecodeBody(e: Bytes, t: Bytes, r: nat, s: nat)
    requires Element(e, 0x30) == Ok((t, []))
    ensures SigDecode(e) == Ok((r, s)) <==> RemovesBoth(t, r, s)
  {
  }

  /** Signatures come back exactly when both numbers have at most 127 content bytes. */
  lemma SignatureRoundTrip(r: nat, s: nat)
    ensures (SigEncode(r, s).Ok? && SigDecode(SigEncode(r, s).value) == Ok((r, s))) <==> |Content(r)| <= 127 && |Content(s)| <= 127
  {
    if EncodeInteger(r).Ok? && EncodeInteger(s).Ok? {
      var a, b := EncodeInteger(r).value, EncodeInteger(s).value;
      SequenceIs(r, s, a, b);
      if |Content(r)| > 127 { LongFirst(r, s, a, b); } else { ShortFirst(r, s, a, b); }
    }
  }

  lemma ShortFirst(r: nat, s: nat, a: Bytes, b: Bytes)
    requires EncodeInteger(r) == Ok(a) && EncodeInteger(s) == Ok(b) && |Content(r)| <= 127
    ensures RemovesBoth(a + b, r, s) <==> |Content(s)| <= 127
  {
    IntegerRoundTrip(r, b);
    IntegerRoundTrip(s, []);
    assert b + [] == b;
  }

  lemma BothSize(t: Bytes, r: nat, s: nat)
    requires RemovesBoth(t, r, s)
    ensures t != [] && ReadLength(t[1..]).Ok? && |Content(r)| + |Content(s)| + 3 + ReadLength(t[1..]).value.1 <= |t|
  {
    RemoveSize(t);
    RemoveSize(RemoveInteger(t).value.1);
  }

  /** A long first number is misread, and no second number of the right size is left. */
  lemma LongFirst(r: nat, s: nat, a: Bytes, b: Bytes)
    requires EncodeInteger(r) == Ok(a) && EncodeInteger(s) == Ok(b) && |Content(r)| > 127
    ensures !RemovesBoth(a + b, r, s)
  {
    var c := Content(r);
    var t := [2, |c|] + c + b;
    assert a + b == t;
    LongHeader(c, b);
    if RemovesBoth(t, r, s) {
      BothSize(t, r, s);
      assert false;
    }
  }

  lemma SmallLength(l: nat)
    requires l < 0x1_0000
    ensures |Minimal(l)| <= 2 && EncodeLength(l).Ok?
  {
  }

  /** and every number below 2^1008 does, in particular those of all supported curve orders. */
  lemma ContentLength(r: nat, n: nat)
    requires r < Pow256(n)
    ensures |Content(r)| <= n + 1
  {
    if n > 0 { MinimalLength(r, n); }
  }

  lemma {:induction false} MinimalLength(r: nat, n: nat)
    requires r < Pow256(n) && n > 0
    ensures |Minimal(r)| <= n
  {
    if r >= 0x100 { MinimalLength(r / 0x100, n - 1); }
  }

  /** So the round trip holds for the numbers of every supported curve, whose orders have at most 66
      bytes, and far beyond. */
  lemma CurveSignature(r: nat, s: nat)
    requires r < Pow256(126) && s < Pow256(126)
    ensures SigEncode(r, s).Ok? && SigDecode(SigEncode(r, s).value) == Ok((r, s))
  {
    ContentLength(r, 126);
    ContentLength(s, 126);
    SignatureRoundTrip(r, s);
  }
}
