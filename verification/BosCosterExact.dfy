/** The scalars for which the multi-scalar multiplication is not the sum over all entries:
    `BosCoster.Exact` is not only sufficient but necessary. */
module BosCosterExact {
  import opened Primes
  import opened Modm
  import opened Groups
  import opened PrimeOrder
  import opened MultiSum
  import opened BosCoster

  /** n points, all neutral but for b at i. */
  function Hot<T>(g: Group<T>, b: T, n: nat, i: nat): (p: seq<T>)
    ensures |p| == n
  {
    seq(n, j => if j == i then b else g.zero)
  }

  lemma {:induction false} HotSum<T(!new)>(g: Group<T>, b: T, k: seq<int>, i: nat, n: nat)
    requires Abelian(g) && g.mem(b) && n <= |k| && forall j :: 0 <= j < |k| ==> 0 <= k[j]
    ensures Sum(g, k, Hot(g, b, |k|, i), n) == if i < n then Mul(g, k[i], b) else g.zero
  {
    assert Laws(g, g.zero, g.zero, g.zero);
    if n > 0 {
      HotSum(g, b, k, i, n - 1);
      if i == n - 1 {
        MulMem(g, k[i], b);
        Law(g, g.zero, Mul(g, k[i], b), b);
        Law(g, Mul(g, k[i], b), g.zero, b);
      } else {
        MulZero(g, k[n - 1]);
        if i < n { MulMem(g, k[i], b); }
        Law(g, if i < n then Mul(g, k[i], b) else g.zero, g.zero, b);
      }
    }
  }

  lemma HotOrder<T(!new)>(g: Group<T>, b: T, n: nat, i: nat, order: nat)
    requires Abelian(g) && g.mem(b) && Mul(g, order, b) == g.zero
    ensures Exponent(g, order, Hot(g, b, n, i), n) && AllMem(g, Hot(g, b, n, i), n)
  {
    Law(g, b, b, b);
    MulZero(g, order);
  }

  /** Two multiples of an element of prime order agree only with equal factors, or when it is neutral. */
  lemma SameMultiple<T(!new)>(g: Group<T>, q: T, order: int, m: nat, s: nat)
    requires Abelian(g) && g.mem(q) && Prime(order) && Mul(g, order, q) == g.zero
    requires m < order && s < order && Mul(g, m, q) == Mul(g, s, q)
    ensures m == s || q == g.zero
  {
    if m < s {
      SmallerMultiple(g, q, order, m, s - m, Mul(g, m, q));
    } else if s < m {
      SmallerMultiple(g, q, order, s, m - s, Mul(g, m, q));
    }
  }

  lemma SmallerMultiple<T(!new)>(g: Group<T>, q: T, order: int, m: nat, d: nat, x: T)
    requires Abelian(g) && g.mem(q) && Prime(order) && Mul(g, order, q) == g.zero && 0 < d < order
    requires x == Mul(g, m, q) && x == Mul(g, m + d, q)
    ensures q == g.zero
  {
    var y := Mul(g, d, q);
    MulMem(g, m, q);
    MulMem(g, d, q);
    assert x == g.add(x, y) by { MulAdd(g, m, d, q); }
    AddsNothing(g, x, y);
    NeutralOnly(g, q, order, d);
  }

  lemma AddsNothing<T(!new)>(g: Group<T>, x: T, y: T)
    requires Abelian(g) && g.mem(x) && g.mem(y) && x == g.add(x, y)
    ensures y == g.zero
  {
    Law(g, x, y, x);
    Law(g, y, x, x);
    Law(g, x, x, x);
    Law(g, g.zero, x, x);
    Cancel(g, y, g.zero, x);
  }

  ghost predicate Below(k: seq<int>, bound: int) {
    forall i :: 0 <= i < |k| ==> 0 <= k[i] < bound
  }

  /** A final step that is not exact gives the wrong multiple of the remaining element, */
  lemma WrongMultiple<T(!new)>(g: Group<T>, b: T, k: seq<int>, i: nat, s: nat, m: nat, q: T)
    requires Abelian(g) && g.mem(b) && Prime(M) && Mul(g, M, b) == g.zero && b != g.zero && Below(k, M)
    requires |k| >= 5 && |k| % 2 == 1 && i < Used(k) && k[i] > 0 && s == Gcd(k, Used(k)) && FinalMultiplier(s) == Some(m) && m != s
    requires Remains(g, k, Hot(g, b, |k|, i), q)
    ensures Mul(g, m, q) != Sum(g, k, Hot(g, b, |k|, i), |k|)
  {
    HotSum(g, b, k, i, Used(k));
    HotSum(g, b, k, i, |k|);
    HotOrder(g, b, |k|, i, M);
    NeutralOnly(g, b, M, k[i]);
    GcdBound(k, Used(k), M - 1);
    MultiplierBelow(s, m);
    if q == g.zero { MulZero(g, s); }
    if Mul(g, m, q) == Mul(g, s, q) { SameMultiple(g, q, M, m, s); }
  }

  /** and a scalar outside the heap is lost. */
  lemma LostEntry<T(!new)>(g: Group<T>, b: T, k: seq<int>, i: nat, q: T)
    requires Abelian(g) && g.mem(b) && Prime(M) && Mul(g, M, b) == g.zero && b != g.zero && Below(k, M)
    requires |k| >= 5 && |k| % 2 == 1 && Used(k) <= i < |k| && k[i] > 0 && Remains(g, k, Hot(g, b, |k|, i), q)
    ensures Mul(g, Gcd(k, Used(k)), q) != Sum(g, k, Hot(g, b, |k|, i), |k|)
  {
    HotSum(g, b, k, i, Used(k));
    HotSum(g, b, k, i, |k|);
    NeutralOnly(g, b, M, k[i]);
  }

  /** A point list on which the code misses the sum, whatever element remains. */
  ghost predicate Missed<T(!new)>(g: Group<T>, k: seq<int>, p: seq<T>) {
    |p| == |k| && AllMem(g, p, |k|) && forall q {:trigger Remains(g, k, p, q)} :: Remains(g, k, p, q) ==>
      var m := FinalMultiplier(Gcd(k, Used(k)));
      m == None || Mul(g, m.value, q) != Sum(g, k, p, |k|)
  }

  /** For reduced scalars that are not exact there are points of prime order m whose sum the code
      misses. */
  lemma NotExact<T(!new)>(g: Group<T>, b: T, k: seq<int>) returns (p: seq<T>)
    requires Abelian(g) && g.mem(b) && Prime(M) && Mul(g, M, b) == g.zero && b != g.zero && Below(k, M)
    requires |k| >= 5 && |k| % 2 == 1 && !Exact(k)
    ensures Missed(g, k, p)
  {
    var s := Gcd(k, Used(k));
    var i: nat;
    if FinalMultiplier(s) != Some(s) {
      i := PositiveScalar(k, Used(k));
    } else {
      i :| Used(k) <= i < |k| && k[i] != 0;
    }
    p := Hot(g, b, |k|, i);
    HotOrder(g, b, |k|, i, M);
    forall q {:trigger Remains(g, k, p, q)} | Remains(g, k, p, q) && FinalMultiplier(s).Some?
      ensures Mul(g, FinalMultiplier(s).value, q) != Sum(g, k, p, |k|)
    {
      if FinalMultiplier(s) != Some(s) {
        WrongMultiple(g, b, k, i, s, FinalMultiplier(s).value, q);
      } else {
        LostEntry(g, b, k, i, q);
      }
    }
  }

  lemma PositiveScalar(k: seq<int>, n: nat) returns (i: nat)
    requires n <= |k| && Gcd(k, n) != 0 && forall j :: 0 <= j < n ==> 0 <= k[j]
    ensures i < n && k[i] > 0
  {
    if forall j :: 0 <= j < n ==> k[j] == 0 {
      GcdOfZeroes(k, n);
      assert false;
    }
    i :| i < n && k[i] != 0;
  }

  /** Nine entries, as for a block of four, with scalars 1, 0, 0, 0, 0, 1, 1, 1, 1: the loop ends at
      once and the last four are lost. */
  lemma EarlyExit(k: seq<int>)
    requires k == [1, 0, 0, 0, 0, 1, 1, 1, 1]
    ensures Used(k) == 5 && FinalMultiplier(Gcd(k, 5)) == Some(Gcd(k, 5)) && !Exact(k)
  {
    LoneGcd(k, 5, 0);
    GcdUnique(1, k, 5);
    assert k[5] != 0;
  }
}
