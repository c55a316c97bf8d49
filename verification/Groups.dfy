/** Abelian groups as values, so that the scalar-multiplication algorithms can be stated for any
    group whose operation the point formulas compute. */
module Groups {

  /** A carrier with its operations; `mem` singles out the elements. */
  datatype Group<!T> = Group(mem: T -> bool, zero: T, add: (T, T) -> T, neg: T -> T)

  /** The group laws for three elements. */
  predicate Laws<T(==)>(g: Group<T>, x: T, y: T, z: T) {
    g.mem(g.zero)
    && (g.mem(x) && g.mem(y) && g.mem(z) ==>
          && g.mem(g.add(x, y)) && g.mem(g.neg(x))
          && g.add(g.add(x, y), z) == g.add(x, g.add(y, z))
          && g.add(x, y) == g.add(y, x)
          && g.add(x, g.zero) == x && g.add(x, g.neg(x)) == g.zero)
  }

  ghost predicate Abelian<T(!new)>(g: Group<T>) {
    forall x, y, z {:trigger Laws(g, x, y, z)} :: Laws(g, x, y, z)
  }

  lemma Law<T(!new)>(g: Group<T>, x: T, y: T, z: T)
    requires Abelian(g) && g.mem(x) && g.mem(y) && g.mem(z)
    ensures g.mem(g.zero) && g.mem(g.add(x, y)) && g.mem(g.neg(x))
    ensures g.add(g.add(x, y), z) == g.add(x, g.add(y, z))
    ensures g.add(x, y) == g.add(y, x)
    ensures g.add(x, g.zero) == x && g.add(x, g.neg(x)) == g.zero
  {
    assert Laws(g, x, y, z);
  }

  /** The multiple [n]p. */
  function Mul<T>(g: Group<T>, n: int, p: T): T
    decreases if n < 0 then -n else n
  {
    if n == 0 then g.zero
    else if n > 0 then g.add(Mul(g, n - 1, p), p)
    else g.add(Mul(g, n + 1, p), g.neg(p))
  }

  lemma {:induction false} MulMem<T(!new)>(g: Group<T>, n: int, p: T)
    requires Abelian(g) && g.mem(p)
    ensures g.mem(Mul(g, n, p))
    decreases if n < 0 then -n else n
  {
    Law(g, p, p, p);
    if n > 0 {
      MulMem(g, n - 1, p);
      Law(g, Mul(g, n - 1, p), p, p);
    } else if n < 0 {
      MulMem(g, n + 1, p);
      Law(g, Mul(g, n + 1, p), g.neg(p), p);
    }
  }

  lemma AddSub<T(!new)>(g: Group<T>, x: T, y: T)
    requires Abelian(g) && g.mem(x) && g.mem(y)
    ensures g.add(g.add(x, y), g.neg(y)) == x && g.add(g.add(x, g.neg(y)), y) == x
  {
    Law(g, y, x, x);
    Law(g, y, g.neg(y), x);
    Law(g, x, y, g.neg(y));
    Law(g, x, g.neg(y), y);
  }

  lemma Cancel<T(!new)>(g: Group<T>, x: T, y: T, z: T)
    requires Abelian(g) && g.mem(x) && g.mem(y) && g.mem(z) && g.add(x, z) == g.add(y, z)
    ensures x == y
  {
    AddSub(g, x, z);
    AddSub(g, y, z);
  }

  lemma MulSucc<T(!new)>(g: Group<T>, n: int, p: T)
    requires Abelian(g) && g.mem(p)
    ensures Mul(g, n + 1, p) == g.add(Mul(g, n, p), p)
  {
    if n < 0 {
      MulMem(g, n + 1, p);
      AddSub(g, Mul(g, n + 1, p), p);
    }
  }

  lemma MulOne<T(!new)>(g: Group<T>, p: T)
    requires Abelian(g) && g.mem(p)
    ensures Mul(g, 1, p) == p
  {
    Law(g, p, p, p);
    Law(g, g.zero, p, p);
  }

  /** [m + n]p = [m]p + [n]p */
  lemma {:induction false} MulAdd<T(!new)>(g: Group<T>, m: int, n: int, p: T)
    requires Abelian(g) && g.mem(p)
    ensures Mul(g, m + n, p) == g.add(Mul(g, m, p), Mul(g, n, p))
    decreases if n < 0 then -n else n
  {
    MulMem(g, m, p);
    Law(g, Mul(g, m, p), p, p);
    if n > 0 {
      MulAdd(g, m, n - 1, p);
      MulMem(g, n - 1, p);
      MulSucc(g, m + n - 1, p);
      Law(g, Mul(g, m, p), Mul(g, n - 1, p), p);
    } else if n < 0 {
      MulAdd(g, m, n + 1, p);
      MulMem(g, n + 1, p);
      MulMem(g, m + n, p);
      MulSucc(g, m + n, p);
      AddSub(g, Mul(g, m + n, p), p);
      Law(g, p, p, p);
      Law(g, Mul(g, m, p), Mul(g, n + 1, p), g.neg(p));
    }
  }

  /** Double and add: [2n + bit]p from r = [n]p. */
  lemma DoubleAdd<T(!new)>(g: Group<T>, n: int, bit: int, p: T)
    requires Abelian(g) && g.mem(p) && 0 <= bit <= 1
    ensures var r := Mul(g, n, p);
      Mul(g, 2 * n + bit, p) == if bit == 1 then g.add(g.add(r, r), p) else g.add(r, r)
  {
    MulAdd(g, n, n, p);
    MulSucc(g, 2 * n, p);
  }

  /** (w + x) + (y + z) = (w + y) + (x + z) */
  lemma Exchange<T(!new)>(g: Group<T>, w: T, x: T, y: T, z: T)
    requires Abelian(g) && g.mem(w) && g.mem(x) && g.mem(y) && g.mem(z)
    ensures g.add(g.add(w, x), g.add(y, z)) == g.add(g.add(w, y), g.add(x, z))
  {
    Law(g, w, x, y);
    Law(g, y, z, z);
    Law(g, w, y, x);
    Law(g, x, y, z);
    Law(g, y, x, z);
    Law(g, x, z, z);
    Law(g, w, x, g.add(y, z));
    Law(g, w, y, g.add(x, z));
  }

  /** [n](p + q) = [n]p + [n]q */
  lemma {:induction false} MulSum<T(!new)>(g: Group<T>, n: nat, p: T, q: T)
    requires Abelian(g) && g.mem(p) && g.mem(q)
    ensures Mul(g, n, g.add(p, q)) == g.add(Mul(g, n, p), Mul(g, n, q))
  {
    Law(g, p, q, q);
    if n == 0 {
      Law(g, g.zero, p, p);
    } else {
      MulSum(g, n - 1, p, q);
      MulMem(g, n - 1, p);
      MulMem(g, n - 1, q);
      Exchange(g, Mul(g, n - 1, p), Mul(g, n - 1, q), p, q);
    }
  }

  /** [m]([n]p) = [m n]p */
  lemma {:induction false} MulMul<T(!new)>(g: Group<T>, m: nat, n: int, p: T)
    requires Abelian(g) && g.mem(p)
    ensures Mul(g, m, Mul(g, n, p)) == Mul(g, m * n, p)
  {
    if m > 0 {
      MulMul(g, m - 1, n, p);
      MulAdd(g, (m - 1) * n, n, p);
      assert (m - 1) * n + n == m * n;
    }
  }

  /** [n](-p) = -[n]p, as a cancelling pair */
  lemma {:induction false} MulNeg<T(!new)>(g: Group<T>, n: nat, p: T)
    requires Abelian(g) && g.mem(p)
    ensures g.mem(g.neg(p)) && Mul(g, n, g.neg(p)) == Mul(g, -(n as int), p)
  {
    Law(g, p, p, p);
    if n > 0 { MulNeg(g, n - 1, p); }
  }

  /** [-n]p = -[n]p */
  lemma MulMinus<T(!new)>(g: Group<T>, n: int, p: T)
    requires Abelian(g) && g.mem(p)
    ensures Mul(g, -n, p) == g.neg(Mul(g, n, p))
  {
    var q := Mul(g, n, p);
    MulMem(g, n, p);
    MulMem(g, -n, p);
    MulAdd(g, n, -n, p);
    Law(g, q, q, q);
    Law(g, g.neg(q), q, q);
    Law(g, Mul(g, -n, p), q, q);
    Cancel(g, Mul(g, -n, p), g.neg(q), q);
  }

  /** [m]a + [n]b */
  function Pair<T>(g: Group<T>, m: int, a: T, n: int, b: T): T {
    g.add(Mul(g, m, a), Mul(g, n, b))
  }

  lemma PairMem<T(!new)>(g: Group<T>, m: int, a: T, n: int, b: T)
    requires Abelian(g) && g.mem(a) && g.mem(b)
    ensures g.mem(Pair(g, m, a, n, b)) && g.mem(Mul(g, m, a)) && g.mem(Mul(g, n, b))
  {
    MulMem(g, m, a);
    MulMem(g, n, b);
    Law(g, Mul(g, m, a), Mul(g, n, b), a);
  }

  lemma PairDouble<T(!new)>(g: Group<T>, m: int, a: T, n: int, b: T)
    requires Abelian(g) && g.mem(a) && g.mem(b)
    ensures g.add(Pair(g, m, a, n, b), Pair(g, m, a, n, b)) == Pair(g, 2 * m, a, 2 * n, b)
  {
    PairMem(g, m, a, n, b);
    Exchange(g, Mul(g, m, a), Mul(g, n, b), Mul(g, m, a), Mul(g, n, b));
    MulAdd(g, m, m, a);
    MulAdd(g, n, n, b);
  }

  lemma PairAddFirst<T(!new)>(g: Group<T>, m: int, a: T, n: int, b: T, d: int)
    requires Abelian(g) && g.mem(a) && g.mem(b)
    ensures g.add(Pair(g, m, a, n, b), Mul(g, d, a)) == Pair(g, m + d, a, n, b)
  {
    PairMem(g, m, a, n, b);
    MulMem(g, d, a);
    var x, y, z := Mul(g, m, a), Mul(g, n, b), Mul(g, d, a);
    Law(g, x, y, z);
    Law(g, y, z, x);
    Law(g, x, z, y);
    MulAdd(g, m, d, a);
  }

  lemma PairAddSecond<T(!new)>(g: Group<T>, m: int, a: T, n: int, b: T, d: int)
    requires Abelian(g) && g.mem(a) && g.mem(b)
    ensures g.add(Pair(g, m, a, n, b), Mul(g, d, b)) == Pair(g, m, a, n + d, b)
  {
    PairMem(g, m, a, n, b);
    MulMem(g, d, b);
    Law(g, Mul(g, m, a), Mul(g, n, b), Mul(g, d, b));
    MulAdd(g, n, d, b);
  }

  lemma {:induction false} MulZero<T(!new)>(g: Group<T>, k: nat)
    requires Abelian(g) && g.mem(g.zero)
    ensures Mul(g, k, g.zero) == g.zero
  {
    if k > 0 {
      MulZero(g, k - 1);
      Law(g, g.zero, g.zero, g.zero);
    }
  }

  /** Multiples of the order can be dropped. */
  lemma MulModOrder<T(!new)>(g: Group<T>, b: T, order: nat, n: int, k: nat)
    requires Abelian(g) && g.mem(b) && Mul(g, order, b) == g.zero
    ensures Mul(g, n + k * order, b) == Mul(g, n, b)
  {
    Law(g, b, b, b);
    MulZero(g, k);
    MulMul(g, k, order, b);
    MulAdd(g, n, k * order, b);
    MulMem(g, n, b);
    Law(g, Mul(g, n, b), b, b);
  }

  lemma MulReduced<T(!new)>(g: Group<T>, p: T, order: nat, x: nat)
    requires Abelian(g) && g.mem(p) && order > 0 && Mul(g, order, p) == g.zero
    ensures Mul(g, x % order, p) == Mul(g, x, p)
  {
    MulModOrder(g, p, order, x % order, x / order);
    assert x / order * order == order * (x / order);
  }

  /** Multiples of p have the order of p, */
  lemma MultipleOrder<T(!new)>(g: Group<T>, p: T, order: nat, n: int)
    requires Abelian(g) && g.mem(p) && Mul(g, order, p) == g.zero
    ensures Mul(g, order, Mul(g, n, p)) == g.zero
  {
    MulMul(g, order, n, p);
    Law(g, p, p, p);
    if n >= 0 {
      assert 0 + n * order == order * n;
      MulModOrder(g, p, order, 0, n);
    } else {
      assert order * n + -n * order == 0;
      MulModOrder(g, p, order, order * n, -n);
    }
  }

  /** and so has -p. */
  lemma OrderNeg<T(!new)>(g: Group<T>, p: T, order: nat)
    requires Abelian(g) && g.mem(p) && Mul(g, order, p) == g.zero
    ensures g.mem(g.neg(p)) && Mul(g, order, g.neg(p)) == g.zero
  {
    MulNeg(g, order, p);
    MulMinus(g, order, p);
    Law(g, p, p, p);
    Law(g, g.zero, g.zero, g.zero);
    Law(g, g.zero, g.neg(g.zero), g.zero);
    Law(g, g.neg(g.zero), g.zero, g.zero);
  }

  /** The integers, to show that the laws can be met. */
  function Integers(): Group<int> {
    Group((x: int) => true, 0, (x: int, y: int) => x + y, (x: int) => -x)
  }

  lemma {:induction false} IntegersAbelian(n: int, p: int)
    ensures Abelian(Integers()) && Mul(Integers(), n, p) == n * p
    decreases if n < 0 then -n else n
  {
    if n > 0 {
      IntegersAbelian(n - 1, p);
      assert (n - 1) * p + p == n * p;
    } else if n < 0 {
      IntegersAbelian(n + 1, p);
      assert (n + 1) * p - p == n * p;
    }
  }
}
