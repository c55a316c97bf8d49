/** The chord-and-tangent formulas as the addition of a group of curve points. */
module WeierstrassGroup {
  import opened Words
  import opened Primes
  import opened NumberTheory
  import opened Congruence
  import opened Groups
  import opened Weierstrass

  predicate Reduced(c: Curve, u: Point) {
    u.At? ==> 0 <= u.x < c.p && 0 <= u.y < c.p
  }

  /** The law on reduced points. */
  ghost predicate Sums(c: Curve, u: Point, v: Point, w: Point) {
    if v == Infinity then w == u
    else if u == Infinity then w == v
    else if u.x != v.x then exists l :: ChordBy(c, u, v, w, l)
    else if Cong(c.p, u.y + v.y, 0) then w == Infinity
    else exists l :: TangentBy(c, u, w, l)
  }

  /** A chord does not depend on the order of its points. */
  lemma ChordCommutes(c: Curve, u: Point, v: Point, w: Point, l: int)
    requires ChordBy(c, u, v, w, l)
    ensures ChordBy(c, v, u, w, l)
  {
    CongScale(c.p, -1, l * (v.x - u.x), v.y - u.y);
    assert l * (u.x - v.x) == -1 * (l * (v.x - u.x));
    var a, b := l * (v.x - w.x) - v.y, l * (u.x - w.x) - u.y;
    assert a - b == l * (v.x - u.x) - (v.y - u.y);
    CongDifference(c.p, l * (v.x - u.x), v.y - u.y);
    CongDifference(c.p, a, b);
    CongResidue(c.p, a, b);
  }

  lemma SumsByTangent(c: Curve, u: Point, w: Point, l: int)
    requires TangentBy(c, u, w, l) && (2 * u.y) % c.p != 0
    ensures Sums(c, u, u, w)
  {
    CongZero(c.p, u.y + u.y);
  }

  ghost predicate PairLaw<T(!new)>(c: Curve, g: Group<T>, at: T -> Point, s: T, t: T) {
    g.mem(s) && g.mem(t) ==>
      && (at(s) == Infinity <==> s == g.zero) && Reduced(c, at(s)) && OnCurve(c, at(s))
      && Opposite(c, at(s), at(g.neg(s))) && Sums(c, at(s), at(t), at(g.add(s, t)))
  }

  ghost predicate Opposite(c: Curve, u: Point, v: Point) {
    if u == Infinity then v == Infinity else v.At? && v.x == u.x && Cong(c.p, v.y, -u.y)
  }

  /** g is an abelian group whose elements are points of the curve that the formulas add. */
  ghost predicate Chords<T(!new)>(c: Curve, g: Group<T>, at: T -> Point) {
    Prime(c.p) && Abelian(g) && forall s, t {:trigger PairLaw(c, g, at, s, t)} :: PairLaw(c, g, at, s, t)
  }

  /** u is a reduced point up to the representative of its y. */
  ghost predicate Stands(c: Curve, u: Point, v: Point) {
    if v == Infinity then u == Infinity else u.At? && u.x == v.x && Cong(c.p, u.y, v.y)
  }

  lemma StandsRefl(c: Curve, u: Point)
    ensures Stands(c, u, u)
  {
    if u.At? { CongRefl(c.p, u.y); }
  }

  lemma StandsOnCurve(c: Curve, u: Point, v: Point)
    requires Stands(c, u, v) && OnCurve(c, v)
    ensures OnCurve(c, u)
  {
    if v.At? {
      CongRefl(c.p, u.x);
      OnCurveCong(c, u.x, u.y, v.x, v.y);
    }
  }

  // ----- prime moduli

  lemma CoprimeIff(n: int, a: int)
    requires Prime(n)
    ensures Coprime(a, n) <==> !Cong(n, a, 0)
    ensures !Cong(n, a, 0) ==> exists w :: Inverts(w, a, n)
  {
    CongZero(n, a);
    if a % n == 0 {
      assert Times(a, n, a / n) && Times(n, n, 1);
      assert Divides(n, a) && Divides(n, n);
    } else {
      var w, k := InverseExists(n, a % n);
      assert Witness(w, a % n, n, k);
      InverseShift(a, a % n, n, w, w);
      InverseCoprime(w, a, n);
    }
  }

  lemma CongResidue(n: int, a: int, b: int)
    requires n > 0 && Cong(n, a, b)
    ensures a % n == b % n
  {
    var k :| Apart(n, a, b, k);
    assert n * (k + b / n) == n * k + n * (b / n);
    QuoRem(a, n, k + b / n, b % n);
  }

  lemma ReducedEqual(n: int, a: int, b: int)
    requires 0 <= a < n && 0 <= b < n && Cong(n, a, b)
    ensures a == b
  {
    CongResidue(n, a, b);
    QuoRem(a, n, 0, a);
    QuoRem(b, n, 0, b);
  }

  /** Congruent slopes and points reflect to the same point. */
  lemma ReflectedUnique(c: Curve, x1: int, y1: int, z1: int, x2: int, l: int, m: int, w: Point, w': Point)
    requires Reflected(c, x1, y1, x2, l, w) && Reflected(c, x1, z1, x2, m, w') && Cong(c.p, l, m) && Cong(c.p, y1, z1)
    ensures w == w'
  {
    CongMul(c.p, l, m, l, m);
    CongRefl(c.p, x1 + x2);
    CongSubtract(c.p, l * l, m * m, x1 + x2, x1 + x2);
    CongResidue(c.p, l * l - x1 - x2, m * m - x1 - x2);
    CongRefl(c.p, x1 - w.x);
    CongMul(c.p, l, m, x1 - w.x, x1 - w.x);
    CongSubtract(c.p, l * (x1 - w.x), m * (x1 - w.x), y1, z1);
    CongResidue(c.p, l * (x1 - w.x) - y1, m * (x1 - w.x) - z1);
  }

  /** The slope is unique. */
  lemma SlopeUnique(n: int, den: int, inv: int, l: int, m: int, num: int, num': int, den': int)
    requires Inverts(inv, den, n) && Cong(n, den, den') && Cong(n, num, num')
    requires Cong(n, l * den, num) && Cong(n, m * den', num')
    ensures Cong(n, l, m)
  {
    CongScale(n, m, den, den');
    CongTrans(n, m * den, m * den', num');
    CongSym(n, m * den, num');
    CongTrans(n, l * den, num, num');
    CongTrans(n, l * den, num', m * den);
    assert den * l == l * den && den * m == m * den;
    CongCancel(n, den, inv, l, m);
  }

  lemma ChordUnique(c: Curve, u: Point, v: Point, w: Point, u': Point, v': Point, w': Point, l: int, m: int)
    requires Prime(c.p) && ChordBy(c, u, v, w, l) && ChordBy(c, u', v', w', m) && !Cong(c.p, v.x - u.x, 0)
    requires Stands(c, u, u') && Stands(c, v, v')
    ensures w == w'
  {
    CoprimeIff(c.p, v.x - u.x);
    var inv :| Inverts(inv, v.x - u.x, c.p);
    CongRefl(c.p, v.x - u.x);
    CongSubtract(c.p, v.y, v'.y, u.y, u'.y);
    SlopeUnique(c.p, v.x - u.x, inv, l, m, v.y - u.y, v'.y - u'.y, v.x - u.x);
    ReflectedUnique(c, u.x, u.y, u'.y, v.x, l, m, w, w');
  }

  lemma TangentUnique(c: Curve, u: Point, w: Point, u': Point, w': Point, l: int, m: int)
    requires Prime(c.p) && TangentBy(c, u, w, l) && TangentBy(c, u', w', m) && !Cong(c.p, 2 * u.y, 0) && Stands(c, u, u')
    ensures w == w'
  {
    CoprimeIff(c.p, 2 * u.y);
    var inv :| Inverts(inv, 2 * u.y, c.p);
    CongScale(c.p, 2, u.y, u'.y);
    var num := 3 * (u.x * u.x) + c.a;
    CongRefl(c.p, num);
    SlopeUnique(c.p, 2 * u.y, inv, l, m, num, num, 2 * u'.y);
    ReflectedUnique(c, u.x, u.y, u'.y, u.x, l, m, w, w');
  }

  // ----- the two operations

  lemma Law2<T(!new)>(c: Curve, g: Group<T>, at: T -> Point, s: T, t: T)
    requires Chords(c, g, at) && g.mem(s) && g.mem(t)
    ensures (at(s) == Infinity <==> s == g.zero) && Reduced(c, at(s)) && OnCurve(c, at(s)) && OnCurve(c, at(t))
    ensures Opposite(c, at(s), at(g.neg(s))) && Sums(c, at(s), at(t), at(g.add(s, t)))
    ensures g.mem(g.add(s, t)) && g.mem(g.neg(s)) && g.mem(g.zero) && at(g.zero) == Infinity
    ensures at(g.add(s, t)) == Infinity <==> g.add(s, t) == g.zero
  {
    Law(g, s, t, t);
    assert PairLaw(c, g, at, s, t) && PairLaw(c, g, at, t, s) && PairLaw(c, g, at, g.zero, s) && PairLaw(c, g, at, g.add(s, t), s);
  }

  /** Distinct reduced coordinates are not congruent. */
  lemma DistinctX(c: Curve, x: int, z: int)
    requires 0 <= x < c.p && 0 <= z < c.p && x != z
    ensures !Cong(c.p, z - x, 0)
  {
    if Cong(c.p, z - x, 0) {
      CongDifference(c.p, z, x);
      ReducedEqual(c.p, z, x);
      assert false;
    }
  }

  /** Two points over one x with y1 + y2 != 0 have y1 = y2 != 0. */
  lemma SameX(c: Curve, x: int, y: int, z: int)
    requires Prime(c.p) && OnCurve(c, At(x, y)) && OnCurve(c, At(x, z)) && !Cong(c.p, y + z, 0)
    ensures Cong(c.p, y, z) && !Cong(c.p, 2 * y, 0)
  {
    CongSym(c.p, z * z, Cubic(c, x));
    CongTrans(c.p, y * y, Cubic(c, x), z * z);
    CongDifference(c.p, y * y, z * z);
    assert y * y - z * z == (y + z) * (y - z);
    CoprimeIff(c.p, y + z);
    var inv :| Inverts(inv, y + z, c.p);
    assert (y + z) * 0 == 0;
    CongCancel(c.p, y + z, inv, y - z, 0);
    CongDifference(c.p, y, z);
    if Cong(c.p, 2 * y, 0) {
      CongSubtract(c.p, 2 * y, 0, y - z, 0);
      assert false;
    }
  }

  lemma SumCong(p: int, y: int, z: int, y': int, z': int)
    requires Cong(p, y, y') && Cong(p, z, z')
    ensures Cong(p, y + z, 0) <==> Cong(p, y' + z', 0)
  {
    CongAdd(p, y, y', z, z');
    CongSym(p, y + z, y' + z');
    if Cong(p, y + z, 0) { CongTrans(p, y' + z', y + z, 0); }
    if Cong(p, y' + z', 0) { CongTrans(p, y + z, y' + z', 0); }
  }

  /** `__add__` on points that stand for group elements never fails and adds the elements. */
  method AddElements<T(!new)>(c: Curve, u: Point, v: Point, ghost g: Group<T>, ghost at: T -> Point, ghost s: T, ghost t: T)
    returns (r: Point)
    requires Chords(c, g, at) && g.mem(s) && g.mem(t) && Stands(c, u, at(s)) && Stands(c, v, at(t))
    ensures g.mem(g.add(s, t)) && Stands(c, r, at(g.add(s, t)))
  {
    Law2(c, g, at, s, t);
    Law2(c, g, at, t, s);
    StandsOnCurve(c, u, at(s));
    StandsOnCurve(c, v, at(t));
    var x := Add(c, u, v);
    if u.At? && v.At? {
      if u.x != v.x {
        DistinctX(c, u.x, v.x);
        CoprimeIff(c.p, v.x - u.x);
        ghost var l :| ChordBy(c, u, v, x.value, l);
        ghost var m :| ChordBy(c, at(s), at(t), at(g.add(s, t)), m);
        ChordUnique(c, u, v, x.value, at(s), at(t), at(g.add(s, t)), l, m);
        StandsRefl(c, x.value);
      } else {
        SumCong(c.p, u.y, v.y, at(s).y, at(t).y);
        if !Cong(c.p, u.y + v.y, 0) {
          SameX(c, u.x, u.y, v.y);
          CoprimeIff(c.p, 2 * u.y);
          ghost var l :| TangentBy(c, u, x.value, l);
          ghost var m :| TangentBy(c, at(s), at(g.add(s, t)), m);
          TangentUnique(c, u, x.value, at(s), at(g.add(s, t)), l, m);
          StandsRefl(c, x.value);
        }
      }
    }
    r := x.value;
  }

  /** `double` adds an element to itself; it fails exactly on the elements of order 2. */
  method DoubleElement<T(!new)>(c: Curve, u: Point, ghost g: Group<T>, ghost at: T -> Point, ghost s: T) returns (r: Result<Point>)
    requires Chords(c, g, at) && g.mem(s) && Stands(c, u, at(s))
    ensures g.mem(g.add(s, s))
    ensures s == g.zero || g.add(s, s) != g.zero ==> r.Ok? && Stands(c, r.value, at(g.add(s, s)))
    ensures s != g.zero && g.add(s, s) == g.zero ==> r == Raised(AssertionError)
  {
    Law2(c, g, at, s, s);
    StandsOnCurve(c, u, at(s));
    r := Double(c, u);
    if u.At? {
      SumCong(c.p, u.y, u.y, at(s).y, at(s).y);
      CoprimeIff(c.p, 2 * u.y);
      if r.Ok? {
        ghost var l :| TangentBy(c, u, r.value, l);
        ghost var m :| TangentBy(c, at(s), at(g.add(s, s)), m);
        TangentUnique(c, u, r.value, at(s), at(g.add(s, s)), l, m);
        StandsRefl(c, r.value);
      }
    }
  }
}
