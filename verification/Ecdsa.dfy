/** Point multiplication and ECDSA of bin/python/ecdsa (ellipticcurve.py, lines 109-143; ecdsa.py,
    lines 93-151), on curve points that the chord-and-tangent formulas add. */
module Ecdsa {
  import opened Words
  import opened Pow2s
  import opened Groups
  import opened Primes
  import opened NumberTheory
  import opened Congruence
  import opened PrimeOrder
  import opened Weierstrass
  import opened WeierstrassGroup

  /** A point with its order; order 0 stands for None. */
  datatype OrderedPoint = OrderedPoint(pt: Point, order: nat)

  /** The point stands for the element s, and its order, if any, is one of s. */
  ghost predicate For<T(!new)>(c: Curve, p: OrderedPoint, g: Group<T>, at: T -> Point, s: T) {
    && Chords(c, g, at) && g.mem(s) && Stands(c, p.pt, at(s))
    && (p.order > 0 ==> Mul(g, p.order, s) == g.zero)
  }

  // ----- multiplication by signed digits of 3e and e

  /** `leftmost_bit` */
  method LeftmostBit(x: int) returns (r: int, ghost t: nat)
    requires x > 0
    ensures r == Pow2(t) && r <= x < 2 * r
  {
    r, t := 1, 0;
    while r <= x
      invariant r == Pow2(t) && (t > 0 ==> r <= 2 * x)
      invariant t > 0 ==> Pow2(t - 1) <= x
      decreases 2 * x - r
    {
      r, t := 2 * r, t + 1;
    }
    r, t := r / 2, t - 1;
  }

  /** One more bit of a quotient by a power of two. */
  lemma NextBitOf(e: int, i: int)
    requires i > 0
    ensures e / i == 2 * (e / (2 * i)) + e / i % 2
  {
    DivDiv(e, i, 2);
    assert i * 2 == 2 * i;
  }

  /** The digits of 3e minus those of e give e: both numbers have the same parity. */
  lemma HalfDifference(e: int)
    ensures 3 * e / 2 - e / 2 == e
  {
    var h, b := e / 2, e % 2;
    QuoRem(3 * e, 2, 3 * h + b, b);
  }

  /** `e % order` when there is an order. */
  function Exponent(order: nat, other: int): int {
    if order > 0 then other % order else other
  }

  ghost predicate TwoTorsion<T>(g: Group<T>, s: T) {
    s != g.zero && g.add(s, s) == g.zero
  }

  /** The multiple of s that is doubled when the digit of 2^t is due. */
  function Doubled<T>(g: Group<T>, s: T, e: int, t: nat): T {
    Mul(g, 3 * e / Pow2(t + 1) - e / Pow2(t + 1), s)
  }

  /** Some doubling meets a point with a vertical tangent. */
  ghost predicate Stuck<T>(g: Group<T>, s: T, e: int) {
    exists t: nat :: t > 0 && Pow2(t + 1) <= 3 * e && TwoTorsion(g, Doubled(g, s, e, t))
  }

  /** `Point.__mul__` */
  method PointMul<T(!new)>(c: Curve, self: OrderedPoint, other: int, ghost g: Group<T>, ghost at: T -> Point, ghost s: T)
    returns (r: Result<Point>)
    requires For(c, self, g, at, s)
    ensures var e := if self.order > 0 then other % self.order else other;
            && (e >= 0 && !Stuck(g, s, e) ==> r.Ok? && Stands(c, r.value, at(Mul(g, e, s))))
            && (e >= 0 && Stuck(g, s, e) ==> r == Raised(AssertionError))
            && (e < 0 ==> r == if s == g.zero then Ok(Infinity) else Raised(AssertionError))
  {
    var e := Exponent(self.order, other);
    Law2(c, g, at, s, s);
    if e == 0 { return Ok(Infinity); }
    if self.pt == Infinity {
      NeutralMultiples(g, s, e);
      return Ok(Infinity);
    }
    if e < 0 { return Raised(AssertionError); }
    var e3 := 3 * e;
    var top; ghost var t;
    top, t := LeftmostBit(e3);
    r := SignedDigits(c, self.pt, e, e3, top, t, g, at, s);
  }

  lemma NeutralMultiples<T(!new)>(g: Group<T>, s: T, e: int)
    requires Abelian(g) && g.mem(s) && s == g.zero
    ensures e >= 0 ==> Mul(g, e, s) == g.zero && !Stuck(g, s, e)
  {
    if e >= 0 {
      MulZero(g, e);
      forall t: nat | Pow2(t + 1) <= 3 * e ensures !TwoTorsion(g, Doubled(g, s, e, t)) {
        var j := 3 * e / Pow2(t + 1) - e / Pow2(t + 1);
        DivMono(e, 3 * e, Pow2(t + 1));
        MulZero(g, j);
      }
    }
  }

  lemma DivMono(a: int, b: int, d: int)
    requires a <= b && d > 0
    ensures a / d <= b / d
  {
    if a / d > b / d { MulMono(d, b / d + 1, a / d); }
  }

  /** Lines 125-138. */
  method SignedDigits<T(!new)>(c: Curve, p: Point, e: int, e3: int, top: int, ghost t0: nat,
                               ghost g: Group<T>, ghost at: T -> Point, ghost s: T)
    returns (r: Result<Point>)
    requires Chords(c, g, at) && g.mem(s) && p.At? && Stands(c, p, at(s))
    requires e > 0 && e3 == 3 * e && top == Pow2(t0) && top <= e3 < 2 * top
    ensures !Stuck(g, s, e) ==> r.Ok? && Stands(c, r.value, at(Mul(g, e, s)))
    ensures Stuck(g, s, e) ==> r == Raised(AssertionError)
  {
    var negative := Negative(c, p, g, at, s);
    ghost var t: int := t0 - 1;
    FirstDigits(e, e3, top, t0);
    var i := top / 2;
    var result := p;
    MulOne(g, s);
    while i > 1
      invariant 0 <= t < t0 && i == Pow2(t) && Stands(c, result, at(Mul(g, e3 / (2 * i) - e / (2 * i), s)))
      invariant forall k: nat :: t < k < t0 ==> !TwoTorsion(g, Doubled(g, s, e, k))
      decreases i
    {
      var next := DigitStep(c, p, negative, result, e, e3, i, t, g, at, s);
      if next.Raised? {
        Pow2Grows(t + 1, t0);
        return next;
      }
      result := next.value;
      i := i / 2;
      t := t - 1;
    }
    HalfDifference(e);
    NoneStuck(g, s, e, t0);
    r := Ok(result);
  }

  lemma NoneStuck<T(!new)>(g: Group<T>, s: T, e: int, t0: nat)
    requires 3 * e < 2 * Pow2(t0) && forall k: nat :: 0 < k < t0 ==> !TwoTorsion(g, Doubled(g, s, e, k))
    ensures !Stuck(g, s, e)
  {
    forall t: nat | t > 0 && Pow2(t + 1) <= 3 * e ensures !TwoTorsion(g, Doubled(g, s, e, t)) {
      if t >= t0 { Pow2Grows(t0 + 1, t + 1); }
    }
  }

  method Negative<T(!new)>(c: Curve, p: Point, ghost g: Group<T>, ghost at: T -> Point, ghost s: T) returns (n: Point)
    requires Chords(c, g, at) && g.mem(s) && p.At? && Stands(c, p, at(s))
    ensures g.mem(g.neg(s)) && Stands(c, n, at(g.neg(s)))
  {
    Law2(c, g, at, s, s);
    StandsOnCurve(c, p, at(s));
    assert -p.y * -p.y == p.y * p.y;
    var r := NewPoint(c, p.x, -p.y);
    CongScale(c.p, -1, p.y, at(s).y);
    CongSym(c.p, at(g.neg(s)).y, -at(s).y);
    CongTrans(c.p, -p.y, -at(s).y, at(g.neg(s)).y);
    n := r.value;
  }

  /** Lines 133-135. */
  method DigitStep<T(!new)>(c: Curve, p: Point, negative: Point, result: Point, e: int, e3: int, i: int, ghost t: nat,
                            ghost g: Group<T>, ghost at: T -> Point, ghost s: T)
    returns (r: Result<Point>)
    requires Chords(c, g, at) && g.mem(s) && Stands(c, p, at(s)) && g.mem(g.neg(s)) && Stands(c, negative, at(g.neg(s)))
    requires i == Pow2(t) && e3 == 3 * e && Stands(c, result, at(Mul(g, e3 / (2 * i) - e / (2 * i), s)))
    ensures TwoTorsion(g, Doubled(g, s, e, t)) ==> r == Raised(AssertionError)
    ensures !TwoTorsion(g, Doubled(g, s, e, t)) ==> r.Ok? && Stands(c, r.value, at(Mul(g, e3 / i - e / i, s)))
  {
    ghost var q := Mul(g, e3 / (2 * i) - e / (2 * i), s);
    assert q == Doubled(g, s, e, t);
    MulMem(g, e3 / (2 * i) - e / (2 * i), s);
    Digit(g, s, e, e3, i);
    r := DoubleElement(c, result, g, at, q);
    if r.Raised? { return; }
    if e3 / i % 2 != 0 && e / i % 2 == 0 {
      var sum := AddElements(c, r.value, p, g, at, g.add(q, q), s);
      r := Ok(sum);
    }
    if e3 / i % 2 == 0 && e / i % 2 != 0 {
      var sum := AddElements(c, r.value, negative, g, at, g.add(q, q), g.neg(s));
      r := Ok(sum);
    }
  }

  /** Below a prime order no doubling gets stuck. */
  lemma NeverStuck<T(!new)>(g: Group<T>, s: T, n: int, e: int)
    requires Abelian(g) && g.mem(s) && Prime(n) && Mul(g, n, s) == g.zero && e < n
    ensures !Stuck(g, s, e)
  {
    forall t: nat | t > 0 && Pow2(t + 1) <= 3 * e ensures !TwoTorsion(g, Doubled(g, s, e, t)) {
      Pow2Grows(2, t + 1);
      assert Pow2(2) == 4 && n >= 3;
      var j := 3 * e / Pow2(t + 1) - e / Pow2(t + 1);
      var q := Mul(g, j, s);
      MulMem(g, j, s);
      MultipleOrder(g, s, n, j);
      MulAdd(g, 1, 1, q);
      MulOne(g, q);
      QuoRem(2, n, 0, 2);
      if TwoTorsion(g, q) { OnlyNeutral(g, n, 2, q); }
    }
  }

  /** The leading bit of 3e lies above e. */
  lemma FirstDigits(e: int, e3: int, top: int, t: nat)
    requires e > 0 && e3 == 3 * e && top == Pow2(t) && top <= e3 < 2 * top
    ensures t > 0 && top / 2 == Pow2(t - 1) && e3 / (2 * (top / 2)) == 1 && e / (2 * (top / 2)) == 0
  {
    assert t > 0;
    assert 2 * (top / 2) == top;
    QuoRem(e3, top, 1, e3 - top);
    QuoRem(e, top, 0, e);
  }

  /** Doubling and adding the digit b3 - b moves the invariant one bit on. */
  lemma Digit<T(!new)>(g: Group<T>, p: T, e: int, e3: int, i: int)
    requires Abelian(g) && g.mem(p) && i > 0
    ensures var r := Mul(g, e3 / (2 * i) - e / (2 * i), p);
            var d := e3 / i % 2 - e / i % 2;
            Mul(g, e3 / i - e / i, p)
              == if d == 1 then g.add(g.add(r, r), p) else if d == -1 then g.add(g.add(r, r), g.neg(p)) else g.add(r, r)
  {
    NextBitOf(e3, i);
    NextBitOf(e, i);
    var h := e3 / (2 * i) - e / (2 * i);
    MulAdd(g, h, h, p);
    MulSucc(g, 2 * h, p);
    MulPred(g, 2 * h, p);
  }

  lemma MulPred<T(!new)>(g: Group<T>, n: int, p: T)
    requires Abelian(g) && g.mem(p)
    ensures Mul(g, n - 1, p) == g.add(Mul(g, n, p), g.neg(p))
  {
    MulSucc(g, n - 1, p);
    MulMem(g, n - 1, p);
    AddSub(g, Mul(g, n - 1, p), p);
  }

  // ----- public keys

  datatype PublicKey = PublicKey(generator: OrderedPoint, point: OrderedPoint)

  /** Both coordinates lie in [0, n). */
  predicate Within(u: Point, n: int) {
    u.At? && 0 <= u.x < n && 0 <= u.y < n
  }

  /** `Public_key.__init__` for a point that stands for q: the point has the generator's order and
      coordinates below it. At infinity the comparison of None with 0 succeeds, as in Python 2. */
  method NewPublicKey<T(!new)>(c: Curve, gen: OrderedPoint, point: OrderedPoint, ghost g: Group<T>, ghost at: T -> Point, ghost q: T)
    returns (r: Result<PublicKey>)
    requires For(c, point, g, at, q)
    ensures var n := gen.order; var stuck := Stuck(g, q, Exponent(point.order, n));
            && (r.Ok? <==> n > 0 && !stuck && Mul(g, n, q) == g.zero && Within(point.pt, n))
            && (r.Ok? ==> r.value == PublicKey(gen, point))
            && (r.Raised? ==> r.error == if n > 0 && stuck then AssertionError else RuntimeError)
  {
    var n := gen.order;
    if n == 0 { return Raised(RuntimeError); }
    var multiple := PointMul(c, point, n, g, at, q);
    if point.order > 0 { MulReduced(g, q, point.order, n); }
    MulMem(g, n, q);
    Law2(c, g, at, Mul(g, n, q), q);
    if multiple.Raised? { return Raised(multiple.error); }
    if multiple.value != Infinity { return Raised(RuntimeError); }
    if point.pt == Infinity { return Raised(RuntimeError); }
    if point.pt.x < 0 || n <= point.pt.x || point.pt.y < 0 || n <= point.pt.y { return Raised(RuntimeError); }
    r := Ok(PublicKey(gen, point));
  }

  // ----- signing

  /** s k = hash + d r modulo n, which is what a signature states. */
  ghost predicate SignatureEquation(n: int, d: int, hash: int, k: int, r: int, s: int) {
    Cong(n, s * k, hash + d * r)
  }

  /** Signing succeeds for the nonce k, secret d and generator s of order n. */
  ghost predicate Signs<T>(n: int, d: int, hash: int, k: int, g: Group<T>, at: T -> Point, s: T) {
    && n > 0 && !Stuck(g, s, k) && Coprime(k, n)
    && var q := at(Mul(g, k, s)); q.At? && q.x != 0 && (hash + d * q.x) % n != 0
  }

  /** The exception otherwise. */
  ghost function SignError<T>(n: int, k: int, g: Group<T>, at: T -> Point, s: T): Error {
    var q := at(Mul(g, k, s));
    if Stuck(g, s, k) then AssertionError
    else if q.At? && q.x == 0 then RuntimeError
    else if !Coprime(k, n) then AssertionError
    else if q == Infinity then TypeError
    else RuntimeError
  }

  /** What signing gives: r is the unreduced first coordinate of [k]G and s k = hash + d r. */
  ghost predicate SignResult<T>(sig: Result<(int, int)>, n: int, d: int, hash: int, k: int, g: Group<T>, at: T -> Point, s: T) {
    if Signs(n, d, hash, k, g, at, s) then
      && sig.Ok? && sig.value.0 == at(Mul(g, k, s)).x && 0 < sig.value.1 < n
      && SignatureEquation(n, d, hash, k, sig.value.0, sig.value.1)
    else sig == Raised(SignError(n, k, g, at, s))
  }

  /** `Private_key.sign` */
  method Sign<T(!new)>(c: Curve, gen: OrderedPoint, d: int, hash: int, randomK: int, ghost g: Group<T>, ghost at: T -> Point, ghost s: T)
    returns (sig: Result<(int, int)>)
    requires For(c, gen, g, at, s) && gen.order > 0
    ensures SignResult(sig, gen.order, d, hash, randomK % gen.order, g, at, s)
    ensures var n, k := gen.order, randomK % gen.order; var q := at(Mul(g, k, s));
            && (Stuck(g, s, k) ==> sig == Raised(AssertionError))
            && (!Stuck(g, s, k) && q.At? && q.x == 0 ==> sig == Raised(RuntimeError))
            && (!Stuck(g, s, k) && (q.At? ==> q.x != 0) && !Coprime(k, n) ==> sig == Raised(AssertionError))
            && (!Stuck(g, s, k) && q == Infinity && Coprime(k, n) ==> sig == Raised(TypeError))
            && (!Stuck(g, s, k) && q.At? && q.x != 0 && Coprime(k, n) && (hash + d * q.x) % n == 0 ==> sig == Raised(RuntimeError))
  {
    var n := gen.order;
    var k := randomK % n;
    QuoRem(k, n, 0, k);
    var p1 := PointMul(c, gen, k, g, at, s);
    if p1.Raised? { return Raised(p1.error); }
    if p1.value.At? && p1.value.x == 0 { return Raised(RuntimeError); }
    var inv := InverseMod(k, n);
    if n == 1 { CoprimeToOne(k); }
    if inv.Raised? { return Raised(inv.error); }
    if p1.value == Infinity { return Raised(TypeError); } // the point at infinity has no coordinates
    OrderAboveOne(g, at, s, c, n, k);
    var r := p1.value.x;
    var y := inv.value * (hash + d * r % n) % n;
    SignEquation(n, d, hash, k, r, inv.value, y);
    ZeroResponse(n, hash + d * r, k, inv.value, y);
    if y == 0 { return Raised(RuntimeError); }
    sig := Ok((r, y));
  }

  /** Nothing above 1 divides 1. */
  lemma CoprimeToOne(k: int)
    ensures Coprime(k, 1)
  {
    forall d {:trigger Divides(d, k)} | d > 1 && Divides(d, k) ensures !Divides(d, 1) {
      if Divides(d, 1) {
        var j :| Times(1, d, j);
        UnitDivisor(d, j);
        assert false;
      }
    }
  }

  /** A point of order 1 is at infinity. */
  lemma OrderAboveOne<T(!new)>(g: Group<T>, at: T -> Point, s: T, c: Curve, n: int, k: int)
    requires Chords(c, g, at) && g.mem(s) && n > 0 && Mul(g, n, s) == g.zero && 0 <= k < n && at(Mul(g, k, s)).At?
    ensures n > 1
  {
    Law2(c, g, at, s, s);
  }

  /** The nonce k, G, the first coordinate r of [k]G and hash + d r are not zero. */
  ghost predicate NothingZero<T>(n: int, d: int, hash: int, k: int, g: Group<T>, at: T -> Point, s: T) {
    && n > 0 && k != 0 && s != g.zero
    && var q := at(Mul(g, k, s)); q.At? && q.x != 0 && (hash + d * q.x) % n != 0
  }

  /** For a prime order that is when signing succeeds. */
  lemma PrimeSigns<T(!new)>(c: Curve, n: int, d: int, hash: int, k: int, g: Group<T>, at: T -> Point, s: T)
    requires Chords(c, g, at) && g.mem(s) && Prime(n) && Mul(g, n, s) == g.zero && 0 <= k < n
    ensures Signs(n, d, hash, k, g, at, s) <==> NothingZero(n, d, hash, k, g, at, s)
    ensures SignError(n, k, g, at, s) == if k == 0 then AssertionError else if s == g.zero then TypeError else RuntimeError
  {
    NeverStuck(g, s, n, k);
    NonceFinite(g, at, s, c, n, k);
    if k == 0 { ZeroNotCoprime(n); } else { PrimeCoprime(n, k); }
  }

  /** [k]G is finite exactly for k != 0 and G finite. */
  lemma NonceFinite<T(!new)>(g: Group<T>, at: T -> Point, s: T, c: Curve, n: int, k: int)
    requires Chords(c, g, at) && g.mem(s) && Prime(n) && Mul(g, n, s) == g.zero && 0 <= k < n
    ensures at(Mul(g, k, s)).At? <==> k != 0 && s != g.zero
  {
    MulMem(g, k, s);
    Law2(c, g, at, Mul(g, k, s), s);
    if k > 0 { NeutralOnly(g, s, n, k); }
  }

  /** s is 0 exactly when hash + d r is. */
  lemma ZeroResponse(n: int, v: int, k: int, inv: int, s: int)
    requires n > 1 && Inverts(inv, k, n) && 0 <= s < n && Cong(n, s * k, v)
    ensures s == 0 <==> v % n == 0
  {
    CongZero(n, v);
    if s == 0 { CongSym(n, s * k, v); }
    if v % n == 0 {
      CongTrans(n, s * k, v, 0);
      assert k * s == s * k && k * 0 == 0;
      CongCancel(n, k, inv, s, 0);
      ReducedEqual(n, s, 0);
    }
  }

  lemma ZeroNotCoprime(n: int)
    ensures n > 1 ==> !Coprime(0, n)
  {
    assert Times(0, n, 0) && Times(n, n, 1);
    assert Divides(n, 0) && Divides(n, n);
  }

  lemma SignEquation(n: int, d: int, hash: int, k: int, r: int, inv: int, s: int)
    requires n > 1 && Inverts(inv, k, n) && s == inv * (hash + d * r % n) % n
    ensures SignatureEquation(n, d, hash, k, r, s)
  {
    var t := d * r % n;
    var v := hash + t;
    InvertsCong(inv, k, n);
    CongMod(n, inv * v);
    CongRefl(n, k);
    CongMul(n, s, inv * v, k, k);
    CongRefl(n, v);
    CongMul(n, inv * k, 1, v, v);
    assert inv * v * k == inv * k * v;
    CongTrans(n, s * k, inv * k * v, v);
    CongMod(n, d * r);
    CongRefl(n, hash);
    CongAdd(n, hash, hash, t, d * r);
    CongTrans(n, s * k, v, hash + d * r);
  }

  // ----- verification

  /** The point whose first coordinate is compared with r. */
  function CheckPoint<T>(g: Group<T>, n: nat, p: T, q: T, hash: int, r: int, c: int): T
    requires n > 0
  {
    g.add(Mul(g, hash * c % n, p), Mul(g, r * c % n, q))
  }

  /** A multiple below the prime order n. */
  method Multiple<T(!new)>(c: Curve, p: OrderedPoint, n: int, e: nat, ghost g: Group<T>, ghost at: T -> Point, ghost s: T)
    returns (r: Point)
    requires For(c, p, g, at, s) && Prime(n) && Mul(g, n, s) == g.zero && e < n
    ensures g.mem(Mul(g, e, s)) && Stands(c, r, at(Mul(g, e, s)))
  {
    if p.order > 0 {
      MulReduced(g, s, p.order, e);
      if e < p.order { QuoRem(e, p.order, 0, e); }
    }
    NeverStuck(g, s, n, Exponent(p.order, e));
    var x := PointMul(c, p, e, g, at, s);
    MulMem(g, e, s);
    r := x.value;
  }

  /** `Public_key.verifies`; that n times the key is infinity is what `Public_key` checks. */
  method Verifies<T(!new)>(c: Curve, gen: OrderedPoint, key: OrderedPoint, hash: int, r: int, s: int,
                           ghost g: Group<T>, ghost at: T -> Point, ghost p: T, ghost q: T)
    returns (v: Result<bool>, ghost inv: int)
    requires For(c, gen, g, at, p) && For(c, key, g, at, q) && Prime(gen.order) && Mul(g, gen.order, q) == g.zero
    ensures !(1 <= r < gen.order && 1 <= s < gen.order) ==> v == Ok(false)
    ensures 1 <= r < gen.order && 1 <= s < gen.order ==>
              var xy := CheckPoint(g, gen.order, p, q, hash, r, inv);
              && 0 < inv < gen.order && Inverts(inv, s, gen.order)
              && v == if xy == g.zero then Raised(TypeError) else Ok(at(xy).At? && at(xy).x % gen.order == r)
  {
    var n := gen.order;
    inv := 0;
    if r < 1 || r > n - 1 { return Ok(false), inv; }
    if s < 1 || s > n - 1 { return Ok(false), inv; }
    var w := InverseMod(s, n);
    PrimeCoprime(n, s);
    inv := w.value;
    var u1 := hash * w.value % n;
    var u2 := r * w.value % n;
    var a := Multiple(c, gen, n, u1, g, at, p);
    var b := Multiple(c, key, n, u2, g, at, q);
    var xy := AddElements(c, a, b, g, at, Mul(g, u1, p), Mul(g, u2, q));
    Law2(c, g, at, Mul(g, u1, p), Mul(g, u2, q));
    v := if xy == Infinity then Raised(TypeError) else Ok(xy.x % n == r);
  }

  lemma PrimeCoprime(n: int, s: int)
    requires Prime(n) && 0 < s < n
    ensures Coprime(s, n)
  {
    var w, k := InverseExists(n, s);
    assert Witness(w, s, n, k);
    InverseCoprime(w, s, n);
  }

  // ----- the round trip

  /** c v = k, from s k = v and c s = 1. */
  lemma RecoverNonce(n: int, k: int, s: int, c: int, v: int)
    requires Cong(n, s * k, v) && Cong(n, c * s, 1)
    ensures Cong(n, c * v, k)
  {
    CongSym(n, s * k, v);
    CongScale(n, c, v, s * k);
    CongRefl(n, k);
    CongMul(n, c * s, 1, k, k);
    assert c * (s * k) == c * s * k;
    CongTrans(n, c * v, c * (s * k), k);
  }

  /** u1 + u2 d = c (hash + d r) before the reductions. */
  lemma Unreduced(n: int, d: int, hash: int, r: int, c: int)
    requires n > 0
    ensures Cong(n, hash * c % n + (r * c % n) * d, c * (hash + d * r))
  {
    var a, b := hash * c, r * c;
    CongMod(n, a);
    CongMod(n, b);
    CongRefl(n, d);
    CongMul(n, b % n, b, d, d);
    CongAdd(n, a % n, a, (b % n) * d, b * d);
    Spread(c, hash, d, r);
  }

  lemma Spread(c: int, hash: int, d: int, r: int)
    ensures hash * c + r * c * d == c * (hash + d * r)
  {
    assert r * c * d == c * (d * r);
  }

  /** u1 + u2 d = k */
  lemma VerifyScalar(n: int, d: int, hash: int, k: int, r: int, s: int, c: int)
    requires n > 1 && SignatureEquation(n, d, hash, k, r, s) && Inverts(c, s, n)
    ensures Cong(n, hash * c % n + (r * c % n) * d, k)
  {
    InvertsCong(c, s, n);
    RecoverNonce(n, k, s, c, hash + d * r);
    Unreduced(n, d, hash, r, c);
    CongTrans(n, hash * c % n + (r * c % n) * d, c * (hash + d * r), k);
  }

  /** Congruent multiples of a point of order n are equal. */
  lemma CongMultiple<T(!new)>(g: Group<T>, p: T, n: nat, a: int, b: int)
    requires Abelian(g) && g.mem(p) && n > 0 && Mul(g, n, p) == g.zero && Cong(n, a, b)
    ensures Mul(g, a, p) == Mul(g, b, p)
  {
    var k :| Apart(n, a, b, k);
    assert n * k == k * n && n * k == -(-k * n);
    if k >= 0 { MulModOrder(g, p, n, b, k); } else { MulModOrder(g, p, n, a, -k); }
  }

  /** [u1]G + [u2]([d]G) = [k]G */
  lemma CheckPointIs<T(!new)>(g: Group<T>, p: T, n: nat, d: nat, hash: int, k: int, r: int, s: int, c: int)
    requires Abelian(g) && g.mem(p) && n > 1 && Mul(g, n, p) == g.zero
    requires SignatureEquation(n, d, hash, k, r, s) && Inverts(c, s, n)
    ensures CheckPoint(g, n, p, Mul(g, d, p), hash, r, c) == Mul(g, k, p)
  {
    var u1, u2 := hash * c % n, r * c % n;
    MulMul(g, u2, d, p);
    MulAdd(g, u1, u2 * d, p);
    VerifyScalar(n, d, hash, k, r, s, c);
    CongMultiple(g, p, n, u1 + u2 * d, k);
  }

  /** Signing and verifying in a row: when signing succeeds, the signature verifies under its key
      exactly when r, which signing does not reduce, is below n. */
  method SignThenVerify<T(!new)>(c: Curve, gen: OrderedPoint, key: OrderedPoint, d: nat, hash: int, randomK: int,
                                 ghost g: Group<T>, ghost at: T -> Point, ghost s: T)
    returns (sig: Result<(int, int)>, v: Result<bool>)
    requires For(c, gen, g, at, s) && For(c, key, g, at, Mul(g, d, s)) && Prime(gen.order)
    ensures var n, k := gen.order, randomK % gen.order;
            && SignResult(sig, n, d, hash, k, g, at, s)
            && (sig.Ok? <==> NothingZero(n, d, hash, k, g, at, s))
            && v == if sig.Ok? then Ok(at(Mul(g, k, s)).x < n) else Raised(sig.error)
  {
    sig := Sign(c, gen, d, hash, randomK, g, at, s);
    PrimeSigns(c, gen.order, d, hash, randomK % gen.order, g, at, s);
    if sig.Raised? { return sig, Raised(sig.error); }
    ghost var n, k := gen.order, randomK % gen.order;
    MultipleOrder(g, s, n, d);
    v := CheckOwn(c, gen, key, d, hash, k, sig.value.0, sig.value.1, g, at, s);
  }

  /** A signature for the nonce k, checked with its own key. */
  method CheckOwn<T(!new)>(c: Curve, gen: OrderedPoint, key: OrderedPoint, ghost d: nat, hash: int, ghost k: int, r: int, y: int,
                           ghost g: Group<T>, ghost at: T -> Point, ghost s: T)
    returns (v: Result<bool>)
    requires For(c, gen, g, at, s) && For(c, key, g, at, Mul(g, d, s)) && Prime(gen.order) && Mul(g, gen.order, Mul(g, d, s)) == g.zero
    requires at(Mul(g, k, s)).At? && r == at(Mul(g, k, s)).x && r != 0 && 0 < y < gen.order
    requires SignatureEquation(gen.order, d, hash, k, r, y)
    ensures v == Ok(r < gen.order)
  {
    ghost var inv;
    MulMem(g, k, s);
    Law2(c, g, at, Mul(g, k, s), s);
    v, inv := Verifies(c, gen, key, hash, r, y, g, at, s, Mul(g, d, s));
    if r < gen.order {
      CheckPointIs(g, s, gen.order, d, hash, k, r, y, inv);
      QuoRem(r, gen.order, 0, r);
    }
  }
}
