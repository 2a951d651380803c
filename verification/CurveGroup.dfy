/** Multiples of points, from the laws of a commutative group alone: a group is here any addition on points that obeys
    these laws, with (0, 1) as its neutral element and (-x, y) as the inverse of (x, y).  That the points of the curve
    are one is `EdwardsAssociative.CurveIsLawful`. */
module CurveGroup {
  import opened Field25519
  import opened PointDecoding

  datatype Group = Group(member: Point -> bool, add: (Point, Point) -> Point)

  const IDENTITY := Point(0, 1)

  function Inverse(p: Point): Point { Point(Neg(p.x), p.y) }

  /** The sum of two members is a member, in either order. */
  predicate SumLaw(g: Group, p: Point, q: Point) {
    g.member(p) && g.member(q) ==> g.member(g.add(p, q)) && g.add(p, q) == g.add(q, p)
  }

  predicate AssociativeLaw(g: Group, p: Point, q: Point, r: Point) {
    g.member(p) && g.member(q) && g.member(r) ==> g.add(g.add(p, q), r) == g.add(p, g.add(q, r))
  }

  predicate NeutralLaw(g: Group, p: Point) {
    g.member(p) ==> g.add(p, IDENTITY) == p
  }

  predicate InverseLaw(g: Group, p: Point) {
    g.member(p) ==> g.member(Inverse(p)) && g.add(p, Inverse(p)) == IDENTITY
  }

  ghost predicate Lawful(g: Group) {
    && g.member(IDENTITY)
    && (forall p, q :: SumLaw(g, p, q))
    && (forall p, q, r :: AssociativeLaw(g, p, q, r))
    && (forall p :: NeutralLaw(g, p))
    && (forall p :: InverseLaw(g, p))
  }

  lemma Associates(g: Group, p: Point, q: Point, r: Point)
    requires Lawful(g) && g.member(p) && g.member(q) && g.member(r)
    ensures g.member(g.add(p, q)) && g.member(g.add(q, r))
    ensures g.add(g.add(p, q), r) == g.add(p, g.add(q, r))
  {
    assert SumLaw(g, p, q) && SumLaw(g, q, r) && AssociativeLaw(g, p, q, r);
  }

  lemma Commutes(g: Group, p: Point, q: Point)
    requires Lawful(g) && g.member(p) && g.member(q)
    ensures g.member(g.add(p, q)) && g.add(p, q) == g.add(q, p)
  {
    assert SumLaw(g, p, q);
  }

  lemma Neutral(g: Group, p: Point)
    requires Lawful(g) && g.member(p)
    ensures g.member(IDENTITY) && g.add(p, IDENTITY) == p && g.add(IDENTITY, p) == p
  {
    assert NeutralLaw(g, p);
    Commutes(g, p, IDENTITY);
  }

  lemma Cancels(g: Group, p: Point)
    requires Lawful(g) && g.member(p)
    ensures g.member(Inverse(p)) && g.add(p, Inverse(p)) == IDENTITY && g.add(Inverse(p), p) == IDENTITY
  {
    hide Inverse;
    assert InverseLaw(g, p);
    Commutes(g, p, Inverse(p));
  }

  lemma AddCancels(g: Group, a: Point, c: Point)
    requires Lawful(g) && g.member(a) && g.member(c)
    ensures g.member(g.add(a, Inverse(c))) && g.add(g.add(a, Inverse(c)), c) == a
  {
    hide Lawful, Inverse;
    Cancels(g, c);
    Associates(g, a, Inverse(c), c);
    Neutral(g, a);
  }

  /** u = a - c exactly when u + c = a. */
  lemma DifferenceIs(g: Group, u: Point, a: Point, c: Point)
    requires Lawful(g) && g.member(u) && g.member(a) && g.member(c)
    ensures u == g.add(a, Inverse(c)) <==> g.add(u, c) == a
  {
    hide Lawful, Inverse;
    AddCancels(g, a, c);
    Cancels(g, c);
    Associates(g, u, c, Inverse(c));
    Neutral(g, u);
  }

  // ---------------------------------------------------------------- multiples

  /** `n` times `p`, for any integer `n`. */
  ghost function Times(g: Group, n: int, p: Point): Point
    decreases if n < 0 then -n else n
  {
    if n == 0 then IDENTITY
    else if n > 0 then g.add(Times(g, n - 1, p), p)
    else g.add(Times(g, n + 1, p), Inverse(p))
  }

  lemma {:induction false} TimesMember(g: Group, n: int, p: Point)
    requires Lawful(g) && g.member(p)
    ensures g.member(Times(g, n, p))
    decreases if n < 0 then -n else n
  {
    hide Lawful, Inverse;
    Neutral(g, p);
    if n > 0 {
      TimesMember(g, n - 1, p);
      Commutes(g, Times(g, n - 1, p), p);
    } else if n < 0 {
      TimesMember(g, n + 1, p);
      Cancels(g, p);
      Commutes(g, Times(g, n + 1, p), Inverse(p));
    }
  }

  lemma TimesNext(g: Group, n: int, p: Point)
    requires Lawful(g) && g.member(p)
    ensures Times(g, n + 1, p) == g.add(Times(g, n, p), p)
  {
    hide Lawful, Inverse;
    if n < 0 {
      var t := Times(g, n + 1, p);
      TimesMember(g, n + 1, p);
      Cancels(g, p);
      Associates(g, t, Inverse(p), p);
      Neutral(g, t);
    }
  }

  lemma TimesPrevious(g: Group, n: int, p: Point)
    requires Lawful(g) && g.member(p)
    ensures Times(g, n - 1, p) == g.add(Times(g, n, p), Inverse(p))
  {
    hide Lawful, Inverse;
    if n > 0 {
      var t := Times(g, n - 1, p);
      TimesMember(g, n - 1, p);
      Cancels(g, p);
      Associates(g, t, p, Inverse(p));
      Neutral(g, t);
    }
  }

  lemma {:induction false} TimesAdd(g: Group, m: int, n: int, p: Point)
    requires Lawful(g) && g.member(p)
    ensures Times(g, m + n, p) == g.add(Times(g, m, p), Times(g, n, p))
    decreases if n < 0 then -n else n
  {
    hide Lawful, Inverse;
    TimesMember(g, m, p);
    if n == 0 {
      Neutral(g, Times(g, m, p));
    } else if n > 0 {
      TimesAdd(g, m, n - 1, p);
      TimesMember(g, n - 1, p);
      TimesNext(g, m + n - 1, p);
      Associates(g, Times(g, m, p), Times(g, n - 1, p), p);
    } else {
      TimesAdd(g, m, n + 1, p);
      TimesMember(g, n + 1, p);
      Cancels(g, p);
      TimesPrevious(g, m + n + 1, p);
      Associates(g, Times(g, m, p), Times(g, n + 1, p), Inverse(p));
    }
  }

  lemma InverseIsUnique(g: Group, p: Point, q: Point)
    requires Lawful(g) && g.member(p) && g.member(q) && g.add(p, q) == IDENTITY
    ensures q == Inverse(p)
  {
    hide Lawful, Inverse;
    var i := Inverse(p);
    Cancels(g, p);
    Associates(g, i, p, q);
    Neutral(g, q);
    Neutral(g, i);
  }

  lemma TimesNegative(g: Group, n: int, p: Point)
    requires Lawful(g) && g.member(p)
    ensures Times(g, -n, p) == Inverse(Times(g, n, p))
  {
    hide Lawful, Inverse;
    TimesAdd(g, n, -n, p);
    TimesMember(g, n, p);
    TimesMember(g, -n, p);
    InverseIsUnique(g, Times(g, n, p), Times(g, -n, p));
  }

  lemma TimesOne(g: Group, p: Point)
    requires Lawful(g) && g.member(p)
    ensures Times(g, 1, p) == p
  {
    hide Lawful, Inverse;
    Neutral(g, p);
  }

  lemma {:induction false} TimesTimes(g: Group, m: int, n: int, p: Point)
    requires Lawful(g) && g.member(p)
    ensures Times(g, m, Times(g, n, p)) == Times(g, m * n, p)
    decreases if m < 0 then -m else m
  {
    hide Lawful, Inverse;
    var q := Times(g, n, p);
    TimesMember(g, n, p);
    if m == 0 {
      assert 0 * n == 0;
    } else if m > 0 {
      TimesTimes(g, m - 1, n, p);
      TimesAdd(g, (m - 1) * n, n, p);
      assert (m - 1) * n + n == m * n;
    } else {
      TimesTimes(g, m + 1, n, p);
      TimesNegative(g, n, p);
      TimesAdd(g, (m + 1) * n, -n, p);
      assert (m + 1) * n + -n == m * n;
    }
  }
}
