/** What a prime modulus gives: Euclid's lemma, inverses and Fermat's little theorem. */
module Primes {
  import opened Pow2s

  ghost predicate Prime(p: int) {
    p > 1 && forall d :: 1 < d < p ==> p % d != 0
  }

  /** Euclid's lemma by descent: p divides a b and 0 < a < p, so p divides b. */
  lemma {:induction false} Euclid(p: int, a: int, b: int, k: int) returns (j: int)
    requires Prime(p) && 0 < a < p && a * b == p * k
    ensures b == p * j
    decreases a
  {
    if a == 1 {
      j := k;
    } else {
      var q, r := p / a, p % a;
      assert r * b == p * (b - q * k) by {
        assert (p - q * a) * b == p * b - q * (a * b) && q * (p * k) == p * (q * k);
      }
      j := Euclid(p, r, b, b - q * k);
    }
  }

  /** Every 0 < a < p has an inverse. */
  lemma {:induction false} InverseExists(p: int, a: int) returns (w: int, k: int)
    requires Prime(p) && 0 < a < p
    ensures a * w == 1 + p * k
    decreases a
  {
    if a == 1 {
      w, k := 1, 0;
    } else {
      var q, r := p / a, p % a;
      var v, j := InverseExists(p, r);
      w, k := -q * v, j - v;
      assert (p - q * a) * v == p * v - (q * a) * v && a * (-q * v) == -((q * a) * v);
    }
  }

  // ----- binomial coefficients

  function Binom(n: nat, k: nat): nat {
    if k == 0 then 1 else if n == 0 then 0 else Binom(n - 1, k - 1) + Binom(n - 1, k)
  }

  lemma {:induction false} BinomAbove(n: nat, k: nat)
    requires k > n
    ensures Binom(n, k) == 0
  {
    if n > 0 {
      BinomAbove(n - 1, k - 1);
      BinomAbove(n - 1, k);
    }
  }

  lemma {:induction false} BinomTop(n: nat)
    ensures Binom(n, n) == 1
  {
    if n > 0 {
      BinomTop(n - 1);
      BinomAbove(n - 1, n);
    }
  }

  /** k C(n, k) = n C(n-1, k-1) */
  lemma {:induction false} BinomAbsorb(n: nat, k: nat)
    requires n > 0 && k > 0
    ensures k * Binom(n, k) == n * Binom(n - 1, k - 1)
  {
    if n > 1 {
      BinomAbsorb(n - 1, k);
      if k > 1 { BinomAbsorb(n - 1, k - 1); }
      AbsorbStep(n, k, Binom(n - 1, k - 1), Binom(n - 1, k), Binom(n - 2, k - 1), if k > 1 then Binom(n - 2, k - 2) else 0);
    } else if k > 1 {
      BinomAbove(1, k);
    }
  }

  lemma AbsorbStep(n: int, k: int, a: int, b: int, c: int, d: int)
    requires k * b == (n - 1) * c && (k - 1) * a == (n - 1) * d && a == c + d
    ensures k * (a + b) == n * a
  {
    assert k * (a + b) == (k - 1) * a + a + k * b;
    assert (n - 1) * d + (n - 1) * c == (n - 1) * (c + d);
  }

  /** C(n, 0) + C(n, 1) a + ... + C(n, m) a^m */
  function RowSum(n: nat, a: int, m: nat): int {
    Binom(n, m) * Pow(a, m) + if m == 0 then 0 else RowSum(n, a, m - 1)
  }

  lemma {:induction false} RowSumStep(n: nat, a: int, m: nat)
    requires n > 0 && m > 0
    ensures RowSum(n, a, m) == a * RowSum(n - 1, a, m - 1) + RowSum(n - 1, a, m)
  {
    var x, y, w := Binom(n - 1, m - 1), Binom(n - 1, m), Pow(a, m - 1);
    assert Binom(n, m) * Pow(a, m) == a * (x * w) + y * (a * w) by {
      assert (x + y) * (a * w) == x * (a * w) + y * (a * w);
      assert x * (a * w) == a * (x * w);
    }
    if m > 1 {
      RowSumStep(n, a, m - 1);
      var s, t := RowSum(n - 1, a, m - 2), RowSum(n - 1, a, m - 1);
      assert a * (x * w + s) == a * (x * w) + a * s;
    } else {
      assert RowSum(n, a, 0) == 1 && RowSum(n - 1, a, 0) == 1;
    }
  }

  /** The binomial theorem. */
  lemma {:induction false} BinomialTheorem(n: nat, a: int)
    ensures RowSum(n, a, n) == Pow(a + 1, n)
  {
    if n > 0 {
      BinomialTheorem(n - 1, a);
      RowSumStep(n, a, n);
      BinomAbove(n - 1, n);
      var s := RowSum(n - 1, a, n - 1);
      assert RowSum(n - 1, a, n) == 0 * Pow(a, n) + s;
      assert a * s + s == (a + 1) * s;
    }
  }

  // ----- Fermat's little theorem

  /** The inner coefficients of row p are multiples of p. */
  lemma {:induction false} RowSumPrime(p: int, a: int, m: nat) returns (k: int)
    requires Prime(p) && m < p
    ensures RowSum(p, a, m) == 1 + p * k
    decreases m
  {
    if m == 0 {
      k := 0;
      assert Binom(p, 0) * Pow(a, 0) == 1;
    } else {
      var i := RowSumPrime(p, a, m - 1);
      BinomAbsorb(p, m);
      var j := Euclid(p, m, Binom(p, m), Binom(p - 1, m - 1));
      k := j * Pow(a, m) + i;
      TermMultiple(p, j, Pow(a, m), i);
      assert RowSum(p, a, m) == Binom(p, m) * Pow(a, m) + RowSum(p, a, m - 1);
    }
  }

  lemma TermMultiple(p: int, j: int, w: int, i: int)
    ensures (p * j) * w + (1 + p * i) == 1 + p * (j * w + i)
  {
  }

  /** (a + 1)^p = a^p + 1 modulo p */
  lemma PowNext(p: int, a: int) returns (k: int)
    requires Prime(p)
    ensures Pow(a + 1, p) == Pow(a, p) + 1 + p * k
  {
    BinomialTheorem(p, a);
    k := RowSumPrime(p, a, p - 1);
    BinomTop(p);
    assert RowSum(p, a, p) == Binom(p, p) * Pow(a, p) + RowSum(p, a, p - 1);
  }

  lemma {:induction false} PowPrime(p: int, a: nat) returns (k: int)
    requires Prime(p)
    ensures Pow(a, p) == a + p * k
    decreases a
  {
    if a == 0 {
      k := 0;
      assert Pow(0, p) == 0 * Pow(0, p - 1);
    } else {
      var i := PowPrime(p, a - 1);
      var j := PowNext(p, a - 1);
      k := i + j;
    }
  }

  /** a^(p-1) = 1 modulo p for 0 < a < p. */
  lemma Fermat(p: int, a: int) returns (k: int)
    requires Prime(p) && 0 < a < p
    ensures Pow(a, p - 1) == 1 + p * k
  {
    var i := PowPrime(p, a);
    assert Pow(a, p) == a * Pow(a, p - 1);
    assert a * (Pow(a, p - 1) - 1) == p * i;
    k := Euclid(p, a, Pow(a, p - 1) - 1, i);
  }
}
