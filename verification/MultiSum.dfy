/** Sums of multiples and common divisors of a list of scalars: what the Bos-Coster loop conserves. */
module MultiSum {
  import opened Words
  import opened Groups
  import opened NumberTheory

  /** [k0]p0 + ... + [k(n-1)]p(n-1) */
  function Sum<T>(g: Group<T>, k: seq<int>, p: seq<T>, n: nat): T
    requires n <= |k| && n <= |p|
  {
    if n == 0 then g.zero else g.add(Sum(g, k, p, n - 1), Mul(g, k[n - 1], p[n - 1]))
  }

  predicate AllMem<T>(g: Group<T>, p: seq<T>, n: nat) {
    n <= |p| && forall i :: 0 <= i < n ==> g.mem(p[i])
  }

  lemma {:induction false} SumMem<T(!new)>(g: Group<T>, k: seq<int>, p: seq<T>, n: nat)
    requires Abelian(g) && n <= |k| && AllMem(g, p, n)
    ensures g.mem(Sum(g, k, p, n))
  {
    assert Laws(g, g.zero, g.zero, g.zero);
    if n > 0 {
      SumMem(g, k, p, n - 1);
      MulMem(g, k[n - 1], p[n - 1]);
      Law(g, Sum(g, k, p, n - 1), Mul(g, k[n - 1], p[n - 1]), g.zero);
    }
  }

  /** Replacing one term of a sum. */
  lemma {:induction false} SumReplace<T(!new)>(g: Group<T>, k: seq<int>, p: seq<T>, k': seq<int>, p': seq<T>, n: nat, i: nat)
    requires Abelian(g) && n <= |k| && n <= |k'| && AllMem(g, p, n) && AllMem(g, p', n)
    requires forall j :: 0 <= j < n && j != i ==> k[j] == k'[j] && p[j] == p'[j]
    ensures i < n ==> g.add(Sum(g, k', p', n), Mul(g, k[i], p[i])) == g.add(Sum(g, k, p, n), Mul(g, k'[i], p'[i]))
    ensures i >= n ==> Sum(g, k', p', n) == Sum(g, k, p, n)
  {
    if n > 0 {
      SumReplace(g, k, p, k', p', n - 1, i);
      SumMem(g, k, p, n - 1);
      SumMem(g, k', p', n - 1);
      MulMem(g, k[n - 1], p[n - 1]);
      MulMem(g, k'[n - 1], p'[n - 1]);
      if i < n {
        MulMem(g, k[i], p[i]);
        MulMem(g, k'[i], p'[i]);
        var s, s', t, t' := Sum(g, k, p, n - 1), Sum(g, k', p', n - 1), Mul(g, k[n - 1], p[n - 1]), Mul(g, k'[n - 1], p'[n - 1]);
        if i == n - 1 {
          Shuffle(g, s, t', t);
        } else {
          Shuffle(g, s', t, Mul(g, k[i], p[i]));
          Shuffle(g, s, t, Mul(g, k'[i], p'[i]));
        }
      }
    }
  }

  lemma Shuffle<T(!new)>(g: Group<T>, x: T, y: T, z: T)
    requires Abelian(g) && g.mem(x) && g.mem(y) && g.mem(z)
    ensures g.add(g.add(x, y), z) == g.add(g.add(x, z), y)
  {
    Law(g, x, y, z);
    Law(g, y, z, z);
    Law(g, x, z, y);
  }

  /** One Bos-Coster step, [a]p + [b]q = [a - b]p + [b](q + p), conserves the sum. */
  lemma StepConservesSum<T(!new)>(g: Group<T>, k: seq<int>, p: seq<T>, n: nat, i: nat, j: nat)
    requires Abelian(g) && n <= |k| && AllMem(g, p, n) && i < n && j < n && i != j && 0 <= k[j]
    ensures AllMem(g, p[j := g.add(p[j], p[i])], n)
    ensures Sum(g, k[i := k[i] - k[j]], p[j := g.add(p[j], p[i])], n) == Sum(g, k, p, n)
  {
    var k', p' := k[i := k[i] - k[j]], p[j := g.add(p[j], p[i])];
    Law(g, p[j], p[i], p[i]);
    SumReplace(g, k, p, k', p, n, i);
    SumReplace(g, k', p, k', p', n, j);
    SumMem(g, k, p, n);
    SumMem(g, k', p, n);
    SumMem(g, k', p', n);
    StepTerms(g, Sum(g, k, p, n), Sum(g, k', p, n), Sum(g, k', p', n), k[i], k[j], p[i], p[j]);
  }

  lemma StepTerms<T(!new)>(g: Group<T>, s: T, s1: T, s2: T, a: int, b: nat, p: T, q: T)
    requires Abelian(g) && g.mem(s) && g.mem(s1) && g.mem(s2) && g.mem(p) && g.mem(q)
    requires g.add(s1, Mul(g, a, p)) == g.add(s, Mul(g, a - b, p))
    requires g.add(s2, Mul(g, b, q)) == g.add(s1, Mul(g, b, g.add(q, p)))
    ensures s2 == s
  {
    MulMem(g, a - b, p);
    MulMem(g, b, p);
    MulMem(g, b, q);
    MulAdd(g, a - b, b, p);
    MulSum(g, b, q, p);
    StepAlgebra(g, s, s1, s2, Mul(g, a - b, p), Mul(g, b, p), Mul(g, b, q));
  }

  lemma StepAlgebra<T(!new)>(g: Group<T>, s: T, s1: T, s2: T, x: T, y: T, z: T)
    requires Abelian(g) && g.mem(s) && g.mem(s1) && g.mem(s2) && g.mem(x) && g.mem(y) && g.mem(z)
    requires g.add(s1, g.add(x, y)) == g.add(s, x)
    requires g.add(s2, z) == g.add(s1, g.add(z, y))
    ensures s2 == s
  {
    Law(g, x, y, y);
    Law(g, y, x, x);
    Law(g, s1, y, x);
    Cancel(g, g.add(s1, y), s, x);
    Law(g, z, y, y);
    Law(g, y, z, z);
    Law(g, s1, y, z);
    Cancel(g, s2, s, z);
  }

  /** A sum with one nonzero scalar is that multiple. */
  lemma {:induction false} LoneTerm<T(!new)>(g: Group<T>, k: seq<int>, p: seq<T>, n: nat, i: nat)
    requires Abelian(g) && n <= |k| && AllMem(g, p, n)
    requires forall j :: 0 <= j < n && j != i ==> k[j] == 0
    ensures Sum(g, k, p, n) == if i < n then Mul(g, k[i], p[i]) else g.zero
  {
    assert Laws(g, g.zero, g.zero, g.zero);
    if n > 0 {
      LoneTerm(g, k, p, n - 1, i);
      MulMem(g, k[n - 1], p[n - 1]);
      Law(g, Mul(g, k[n - 1], p[n - 1]), g.zero, g.zero);
      if i < n - 1 {
        MulMem(g, k[i], p[i]);
        Law(g, Mul(g, k[i], p[i]), g.zero, g.zero);
      }
    }
  }

  // ----- common divisors

  ghost predicate DividesAll(d: int, k: seq<int>, n: nat)
    requires n <= |k|
  {
    forall i {:trigger Divides(d, k[i])} :: 0 <= i < n ==> Divides(d, k[i])
  }

  /** s divides every scalar, and every common divisor divides s. */
  ghost predicate IsGcd(s: int, k: seq<int>, n: nat)
    requires n <= |k|
  {
    DividesAll(s, k, n) && forall d :: DividesAll(d, k, n) ==> Divides(d, s)
  }

  lemma DividesSum(d: int, a: int, b: int)
    requires Divides(d, b)
    ensures Divides(d, a) <==> Divides(d, a - b)
  {
    var v :| Times(b, d, v);
    if Divides(d, a) {
      var u :| Times(a, d, u);
      assert Times(a - b, d, u - v);
    }
    if Divides(d, a - b) {
      var u :| Times(a - b, d, u);
      assert Times(a, d, u + v);
    }
  }

  lemma StepConservesDivisors(d: int, k: seq<int>, n: nat, i: nat, j: nat)
    requires n <= |k| && i < n && j < n && i != j
    ensures DividesAll(d, k[i := k[i] - k[j]], n) <==> DividesAll(d, k, n)
  {
    var k' := k[i := k[i] - k[j]];
    if Divides(d, k[j]) {
      DividesSum(d, k[i], k[j]);
      if DividesAll(d, k, n) {
        forall l | 0 <= l < n ensures Divides(d, k'[l]) { assert l != i ==> k'[l] == k[l]; }
      }
      if DividesAll(d, k', n) {
        assert Divides(d, k'[i]);
        forall l | 0 <= l < n ensures Divides(d, k[l]) { assert l != i ==> k'[l] == k[l] && Divides(d, k'[l]); }
      }
    } else {
      assert !Divides(d, k'[j]);
    }
  }

  lemma LoneGcd(k: seq<int>, n: nat, i: nat)
    requires n <= |k| && i < n
    requires forall j :: 0 <= j < n && j != i ==> k[j] == 0
    ensures IsGcd(k[i], k, n)
  {
    forall j | 0 <= j < n ensures Divides(k[i], k[j]) {
      assert Times(k[j], k[i], if j == i then 1 else 0);
    }
  }

  /** Euclid's algorithm on two numbers, */
  function Euclid2(a: nat, b: nat): (d: nat)
    decreases b
  {
    if b == 0 then a else Euclid2(b, a % b)
  }

  /** and on the first n scalars. */
  function Euclid(k: seq<int>, n: nat): (d: nat)
    requires n <= |k|
  {
    if n == 0 then 0 else Euclid2(Euclid(k, n - 1), Abs(k[n - 1]))
  }

  /** The greatest common divisor of the first n scalars. */
  ghost function Gcd(k: seq<int>, n: nat): (d: nat)
    requires n <= |k|
    ensures IsGcd(d, k, n)
  {
    EuclidIsGcd(k, n);
    var d: nat :| IsGcd(d, k, n);
    d
  }

  /** Euclid's algorithm computes it. */
  lemma GcdIsEuclid(k: seq<int>, n: nat)
    requires n <= |k|
    ensures Gcd(k, n) == Euclid(k, n)
  {
    EuclidIsGcd(k, n);
    GcdUnique(Euclid(k, n), k, n);
  }

  lemma DividesMultiple(d: int, a: int, q: int)
    requires Divides(d, a)
    ensures Divides(d, a * q)
  {
    var u :| Times(a, d, u);
    assert d * u * q == d * (u * q);
    assert Times(a * q, d, u * q);
  }

  lemma DividesAbs(d: int, a: int)
    ensures Divides(d, Abs(a)) <==> Divides(d, a)
  {
    if Divides(d, a) { DividesMultiple(d, a, -1); }
    if Divides(d, Abs(a)) { DividesMultiple(d, Abs(a), -1); }
  }

  lemma {:induction false} Euclid2Divisors(d: int, a: nat, b: nat)
    ensures Divides(d, Euclid2(a, b)) <==> Divides(d, a) && Divides(d, b)
    decreases b
  {
    if b == 0 {
      assert Times(0, d, 0);
    } else {
      Euclid2Divisors(d, b, a % b);
      if Divides(d, b) { DividesRemainder(d, a, b, a / b, a % b); }
    }
  }

  lemma DividesRemainder(d: int, a: int, b: int, q: int, r: int)
    requires a == b * q + r && Divides(d, b)
    ensures Divides(d, a) <==> Divides(d, r)
  {
    DividesMultiple(d, b, q);
    DividesSum(d, a, b * q);
  }

  /** The common divisors are the divisors of what it computes. */
  lemma {:induction false} EuclidDivisors(d: int, k: seq<int>, n: nat)
    requires n <= |k|
    ensures Divides(d, Euclid(k, n)) <==> DividesAll(d, k, n)
  {
    if n == 0 {
      assert Times(0, d, 0);
    } else {
      EuclidDivisors(d, k, n - 1);
      Euclid2Divisors(d, Euclid(k, n - 1), Abs(k[n - 1]));
      DividesAbs(d, k[n - 1]);
    }
  }

  lemma EuclidIsGcd(k: seq<int>, n: nat)
    requires n <= |k|
    ensures IsGcd(Euclid(k, n), k, n)
  {
    assert Times(Euclid(k, n), Euclid(k, n), 1);
    EuclidDivisors(Euclid(k, n), k, n);
    forall d | DividesAll(d, k, n) ensures Divides(d, Euclid(k, n)) { EuclidDivisors(d, k, n); }
  }

  lemma DivisorBound(d: int, x: int)
    requires Divides(d, x) && x > 0
    ensures d <= x
  {
    var u :| Times(x, d, u);
    if d > x { if u >= 1 { MulMono(d, 1, u); } else { MulMono(d, u, 0); } }
  }

  /** There is one nonnegative gcd. */
  lemma GcdUnique(s: nat, k: seq<int>, n: nat)
    requires n <= |k| && IsGcd(s, k, n)
    ensures s == Gcd(k, n)
  {
    var d := Gcd(k, n);
    assert Divides(d, s) && Divides(s, d);
    if s == 0 || d == 0 {
      MultipleOfZero(s, d);
    } else {
      DivisorBound(d, s);
      DivisorBound(s, d);
    }
  }

  lemma GcdOfZeroes(k: seq<int>, n: nat)
    requires n <= |k| && forall i :: 0 <= i < n ==> k[i] == 0
    ensures Gcd(k, n) == 0
  {
    forall i | 0 <= i < n ensures Divides(0, k[i]) { assert Times(k[i], 0, 0); }
    forall d ensures Divides(d, 0) { assert Times(0, d, 0); }
    GcdUnique(0, k, n);
  }

  /** The gcd is 0, or at most the bound of the scalars. */
  lemma GcdBound(k: seq<int>, n: nat, bound: nat)
    requires n <= |k| && forall i :: 0 <= i < n ==> 0 <= k[i] <= bound
    ensures Gcd(k, n) <= bound
  {
    if exists i :: 0 <= i < n && k[i] > 0 {
      var i :| 0 <= i < n && k[i] > 0;
      DivisorBound(Gcd(k, n), k[i]);
    } else {
      GcdOfZeroes(k, n);
    }
  }

  lemma MultipleOfZero(a: int, b: int)
    requires a == 0 || b == 0
    ensures Divides(a, b) && Divides(b, a) ==> a == b
  {
    if Divides(a, b) && Divides(b, a) {
      var u :| Times(b, a, u);
      var v :| Times(a, b, v);
    }
  }

  /** The first n scalars have the sum and the common divisors of k0, p0. */
  ghost predicate ConservedAt<T(!new)>(g: Group<T>, k: seq<int>, p: seq<T>, k0: seq<int>, p0: seq<T>, n: nat) {
    && n <= |k| && n <= |p| && n <= |k0| && n <= |p0|
    && Sum(g, k, p, n) == Sum(g, k0, p0, n)
    && (forall d :: DividesAll(d, k, n) <==> DividesAll(d, k0, n))
  }

  /** m times each of the first n points is the neutral element. */
  ghost predicate Exponent<T>(g: Group<T>, m: nat, p: seq<T>, n: nat) {
    n <= |p| && forall i :: 0 <= i < n ==> Mul(g, m, p[i]) == g.zero
  }

  /** Every exponent of the points p0 is one of the points p. */
  ghost predicate KeepsExponents<T(!new)>(g: Group<T>, p: seq<T>, p0: seq<T>, n: nat) {
    forall m: nat {:trigger Exponent(g, m, p0, n)} :: Exponent(g, m, p0, n) ==> Exponent(g, m, p, n)
  }

  ghost predicate Conserved<T(!new)>(g: Group<T>, k: seq<int>, p: seq<T>, k0: seq<int>, p0: seq<T>, lo: nat, hi: nat) {
    && (forall n {:trigger ConservedAt(g, k, p, k0, p0, n)} :: lo <= n <= hi ==> ConservedAt(g, k, p, k0, p0, n))
    && KeepsExponents(g, p, p0, hi)
  }

  lemma StepKeepsExponents<T(!new)>(g: Group<T>, p: seq<T>, p0: seq<T>, n: nat, i: nat, j: nat)
    requires Abelian(g) && AllMem(g, p, n) && KeepsExponents(g, p, p0, n) && i < n && j < n
    ensures KeepsExponents(g, p[j := g.add(p[j], p[i])], p0, n)
  {
    forall m: nat {:trigger Exponent(g, m, p0, n)} | Exponent(g, m, p0, n)
      ensures Exponent(g, m, p[j := g.add(p[j], p[i])], n)
    {
      MulSum(g, m, p[j], p[i]);
      Law(g, p[i], p[i], p[i]);
      Law(g, g.zero, g.zero, g.zero);
    }
  }

  /** A step among the first lo scalars conserves both. */
  lemma StepConserved<T(!new)>(g: Group<T>, k: seq<int>, p: seq<T>, k': seq<int>, p': seq<T>,
                               k0: seq<int>, p0: seq<T>, lo: nat, lo': nat, hi: nat, i: nat, j: nat)
    requires Abelian(g) && lo <= lo' <= hi && Conserved(g, k, p, k0, p0, lo, hi) && AllMem(g, p, hi) && hi <= |k|
    requires i < lo' && j < lo' && i != j && 0 <= k[j]
    requires k' == k[i := k[i] - k[j]] && p' == p[j := g.add(p[j], p[i])]
    ensures Conserved(g, k', p', k0, p0, lo', hi) && AllMem(g, p', hi)
  {
    StepConservesSum(g, k, p, hi, i, j);
    StepKeepsExponents(g, p, p0, hi, i, j);
    forall n | lo' <= n <= hi
      ensures ConservedAt(g, k', p', k0, p0, n)
    {
      assert ConservedAt(g, k, p, k0, p0, n);
      StepConservesSum(g, k, p, n, i, j);
      forall d
        ensures DividesAll(d, k', n) <==> DividesAll(d, k0, n)
      {
        StepConservesDivisors(d, k, n, i, j);
      }
    }
  }

  /** When one scalar is left, it is the gcd and its multiple is the sum. */
  lemma Survivor<T(!new)>(g: Group<T>, k: seq<int>, p: seq<T>, k0: seq<int>, p0: seq<T>, n: nat, hi: nat, i: nat)
    requires Abelian(g) && n <= hi && Conserved(g, k, p, k0, p0, n, hi) && AllMem(g, p, n) && n <= |k| && n <= |k0| && n <= |p0|
    requires i < n && forall j :: 0 <= j < n && j != i ==> k[j] == 0
    ensures Mul(g, k[i], p[i]) == Sum(g, k0, p0, n)
    ensures k[i] >= 0 ==> k[i] == Gcd(k0, n)
    ensures forall m: nat :: Exponent(g, m, p0, hi) ==> Mul(g, m, p[i]) == g.zero
  {
    assert ConservedAt(g, k, p, k0, p0, n);
    LoneTerm(g, k, p, n, i);
    LoneGcd(k, n, i);
    assert DividesAll(k[i], k0, n);
    forall d | DividesAll(d, k0, n) ensures Divides(d, k[i]) { assert DividesAll(d, k, n); }
    if k[i] >= 0 { GcdUnique(k[i], k0, n); }
  }

  /** The sum of all scalars, which every step lowers. */
  function Total(k: seq<int>, n: nat): int
    requires n <= |k|
  {
    if n == 0 then 0 else Total(k, n - 1) + k[n - 1]
  }

  lemma {:induction false} TotalUpdate(k: seq<int>, n: nat, i: nat, x: int)
    requires n <= |k| && i < |k|
    ensures Total(k[i := x], n) == Total(k, n) + if i < n then x - k[i] else 0
  {
    if n > 0 { TotalUpdate(k, n - 1, i, x); }
  }

  lemma {:induction false} TotalSign(k: seq<int>, n: nat)
    requires n <= |k| && forall i :: 0 <= i < n ==> 0 <= k[i]
    ensures Total(k, n) >= 0
  {
    if n > 0 { TotalSign(k, n - 1); }
  }
}
