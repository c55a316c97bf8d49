/** Limb points that stand for elements of a group of curve points. */
module Elements {
  import opened Field
  import opened FieldRing
  import opened Edwards
  import opened Groups
  import opened Ladder

  lemma SameTrans(u: Aff, v: Aff, w: Aff)
    requires Same(u, v) && Same(v, w)
    ensures Same(u, w)
  {
    EqmTrans(u.x, v.x, w.x);
    EqmTrans(u.y, v.y, w.y);
  }

  /** Limbs that represent u represent every equal point. */
  lemma FullEqm(p: Ext, u: Aff, v: Aff)
    requires Full(p, u) && Same(u, v)
    ensures Full(p, v)
  {
    var z :| FullZ(p, u, z);
    EqmRefl(z);
    EqmMul(u.x, v.x, z, z);
    EqmMul(u.y, v.y, z, z);
    EqmMul(u.x, v.x, u.y, v.y);
    EqmMul(u.x * u.y, v.x * v.y, z, z);
    IsTrans(p.x, u.x * z, v.x * z);
    IsTrans(p.y, u.y * z, v.y * z);
    IsTrans(p.t, u.x * u.y * z, v.x * v.y * z);
    assert FullZ(p, v, z);
  }

  /** Every affine point on the curve is an element of the group. */
  ghost predicate Covers<T(!new)>(g: Group<T>, at: T -> Aff) {
    forall v {:trigger OnCurve(v)} :: OnCurve(v) ==> exists t :: Located(g, at, v, t)
  }

  /** Coordinates determine the element. */
  ghost predicate Faithful<T(!new)>(g: Group<T>, at: T -> Aff) {
    forall p, q {:trigger Same(at(p), at(q))} :: g.mem(p) && g.mem(q) && Same(at(p), at(q)) ==> p == q
  }

  ghost predicate Located<T>(g: Group<T>, at: T -> Aff, v: Aff, t: T) {
    g.mem(t) && Same(at(t), v)
  }

  ghost predicate StandsFor<T>(g: Group<T>, at: T -> Aff, x: Ext, s: T) {
    g.mem(s) && Full(x, at(s))
  }

  /** `ge25519_add` adds the elements. */
  method AddElements<T(!new)>(x: Ext, y: Ext, ghost g: Group<T>, ghost at: T -> Aff, ghost s: T, ghost t: T) returns (r: Ext)
    requires Points(g, at) && StandsFor(g, at, x, s) && StandsFor(g, at, y, t)
    ensures StandsFor(g, at, r, g.add(s, t))
  {
    PointsLaw(g, at, s, t);
    Law(g, s, t, t);
    r := AddPoints(x, y, at(s), at(t), at(g.add(s, t)));
  }

  /** `ge25519_double` */
  method DoubleElement<T(!new)>(x: Ext, ghost g: Group<T>, ghost at: T -> Aff, ghost s: T) returns (r: Ext)
    requires Points(g, at) && StandsFor(g, at, x, s)
    ensures StandsFor(g, at, r, g.add(s, s))
  {
    PointsLaw(g, at, s, s);
    Law(g, s, s, s);
    FullIsPartial(x, at(s));
    r := Double(x, at(s), at(g.add(s, s)));
  }

  /** `memset(r, 0, sizeof(*r)); r->y[0] = 1; r->z[0] = 1` */
  method Neutral<T(!new)>(ghost g: Group<T>, ghost at: T -> Aff) returns (r: Ext)
    requires Points(g, at)
    ensures StandsFor(g, at, r, g.zero)
  {
    r := Ext(Fe(0, 0, 0, 0, 0), Fe(1, 0, 0, 0, 0), Fe(1, 0, 0, 0, 0), Fe(0, 0, 0, 0, 0));
    assert Laws(g, g.zero, g.zero, g.zero);
    PointsLaw(g, at, g.zero, g.zero);
    SmallIs(0);
    SmallIs(1);
    AffineFull(r, Aff(0, 1));
    SameSym(at(g.zero), Aff(0, 1));
    FullEqm(r, Aff(0, 1), at(g.zero));
  }

  /** Point i of a list stands for element i. */
  ghost predicate StandsAt<T>(g: Group<T>, at: T -> Aff, x: seq<Ext>, p: seq<T>, i: nat) {
    i < |x| == |p| && StandsFor(g, at, x[i], p[i])
  }

  ghost predicate AllStand<T>(g: Group<T>, at: T -> Aff, x: seq<Ext>, p: seq<T>) {
    |x| == |p| && forall i: nat {:trigger StandsAt(g, at, x, p, i)} :: i < |p| ==> StandsAt(g, at, x, p, i)
  }

  lemma StandReplaced<T>(g: Group<T>, at: T -> Aff, x: seq<Ext>, p: seq<T>, j: nat, y: Ext, s: T)
    requires AllStand(g, at, x, p) && j < |p| && StandsFor(g, at, y, s)
    ensures AllStand(g, at, x[j := y], p[j := s])
  {
    var x', p' := x[j := y], p[j := s];
    forall i: nat {:trigger StandsAt(g, at, x', p', i)} | i < |p| ensures StandsAt(g, at, x', p', i) {
      assert StandsAt(g, at, x, p, i);
    }
  }
}
