/** Elements whose order divides a prime. */
module PrimeOrder {
  import opened Words
  import opened Groups
  import opened Primes

  /** A nonnegative inverse. */
  lemma NaturalInverse(n: int, a: int) returns (w: nat, k: nat)
    requires Prime(n) && 0 < a < n
    ensures w * a == 1 + k * n
  {
    var v, j := InverseExists(n, a);
    w := v % n;
    var q := v / n;
    assert v == n * q + w;
    var i := j - a * q;
    assert a * w == 1 + n * i by {
      assert a * (n * q + w) == n * (a * q) + a * w;
      assert n * (j - a * q) == n * j - n * (a * q);
    }
    assert w * a == a * w >= 0 && n * i == i * n;
    if i < 0 { MulMono(n, i, -1); }
    k := i;
  }

  /** If [n]p and [s]p are neutral for a prime n that does not divide s, so is p. */
  lemma OnlyNeutral<T(!new)>(g: Group<T>, n: int, s: nat, p: T)
    requires Abelian(g) && g.mem(p) && Prime(n) && Mul(g, n, p) == g.zero && s % n != 0 && Mul(g, s, p) == g.zero
    ensures p == g.zero
  {
    var a: nat := s % n;
    MulReduced(g, p, n, s);
    var w, k := NaturalInverse(n, a);
    MulMul(g, w, a, p);
    Law(g, p, p, p);
    MulZero(g, w);
    MulModOrder(g, p, n, 1, k);
    MulOne(g, p);
  }

  lemma NeutralOnly<T(!new)>(g: Group<T>, p: T, order: int, s: nat)
    requires Abelian(g) && g.mem(p) && Prime(order) && Mul(g, order, p) == g.zero && 0 < s < order
    ensures Mul(g, s, p) == g.zero <==> p == g.zero
  {
    QuoRem(s, order, 0, s);
    if Mul(g, s, p) == g.zero { OnlyNeutral(g, order, s, p); }
    if p == g.zero { MulZero(g, s); }
  }
}
