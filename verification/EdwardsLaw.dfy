/** The Edwards addition law on the curve: it is defined everywhere, it determines the sum, and (0, 1) and (-x, y) are
    the neutral element and the inverse. */
module EdwardsLaw {
  import opened Field25519
  import opened PointDecoding
  import opened RingLaws
  import opened SquareRoots
  import opened CurveGroup

  /** D x1 x2 y1 y2 */
  function Cross4(p: Point, q: Point): Fe { Mul(D, Mul(Mul(p.x, q.x), Mul(p.y, q.y))) }

  /** `r` satisfies the equations of the sum of `p` and `q`. */
  predicate IsSum(p: Point, q: Point, r: Point) {
    && Mul(r.x, Add(1, Cross4(p, q))) == Add(Mul(p.x, q.y), Mul(q.x, p.y))
    && Mul(r.y, Sub(1, Cross4(p, q))) == Add(Mul(p.y, q.y), Mul(p.x, q.x))
  }

  predicate MembersLaw(g: Group, p: Point) { g.member(p) <==> OnCurve(p) }

  predicate AdditionLaw(g: Group, p: Point, q: Point) {
    g.member(p) && g.member(q) ==> IsSum(p, q, g.add(p, q))
  }

  /** The members are the points of the curve, and the addition obeys the Edwards addition law. */
  ghost predicate Edwards(g: Group) {
    && (forall p :: MembersLaw(g, p))
    && (forall p, q :: AdditionLaw(g, p, q))
  }

  lemma MembersAreOnCurve(g: Group, p: Point)
    requires Edwards(g)
    ensures g.member(p) <==> OnCurve(p)
  {
    hide OnCurve;
    assert MembersLaw(g, p);
  }

  lemma SumIsSum(g: Group, p: Point, q: Point)
    requires Edwards(g) && OnCurve(p) && OnCurve(q)
    ensures IsSum(p, q, g.add(p, q))
  {
    hide OnCurve, IsSum;
    assert MembersLaw(g, p) && MembersLaw(g, q) && AdditionLaw(g, p, q);
  }

  // ---------------------------------------------------------------- the curve

  function XX(p: Point): Fe { Mul(p.x, p.x) }

  function YY(p: Point): Fe { Mul(p.y, p.y) }

  function XY(p: Point): Fe { Mul(p.x, p.y) }

  /** D x^2 y^2 */
  function DXY(p: Point): Fe { Mul(D, Mul(XX(p), YY(p))) }

  lemma CurveIs(p: Point)
    requires OnCurve(p)
    ensures Sub(YY(p), XX(p)) == Add(1, DXY(p))
  {
    hide Mul, Sub, Add;
  }

  lemma DXYIs(p: Point)
    ensures DXY(p) == Mul(D, Mul(XY(p), XY(p)))
  {
    hide Mul;
    MulPairs(p.x, p.x, p.y, p.y);
  }

  lemma Cross4Is(p: Point, q: Point)
    ensures Cross4(p, q) == Mul(D, Mul(XY(p), XY(q)))
  {
    hide Mul;
    MulPairs(p.x, q.x, p.y, q.y);
  }

  // ---------------------------------------------------------------- the denominators never vanish

  /** (y + k x)^2 = y^2 - x^2 + 2 k x y, where k^2 = -1. */
  lemma SquareOfLine(k: Fe, p: Point)
    requires Mul(k, k) == Neg(1)
    ensures var s := Add(p.y, Mul(k, p.x)); Mul(s, s) == Add(Sub(YY(p), XX(p)), Dbl(Mul(k, XY(p))))
  {
    hide Mul, Dbl, Add;
    SquareOfSum(p.y, Mul(k, p.x));
    MulPairs(k, p.x, k, p.x);
    MulNeg(XX(p), 1);
    MulOne(XX(p));
    MulCommutes(p.y, Mul(k, p.x));
    MulAssociates(k, p.x, p.y);
  }

  /** Where D m n = e and e^2 = 1, multiplying by D m^2 leads from the point of n to that of m. */
  lemma ProductOfCrosses(m: Fe, n: Fe, e: Fe)
    requires Mul(D, Mul(m, n)) == e && Mul(e, e) == 1
    ensures Mul(Mul(D, Mul(m, m)), Mul(D, Mul(n, n))) == 1
  {
    hide Mul;
    MulPairs(D, Mul(m, m), D, Mul(n, n));
    MulPairs(m, m, n, n);
    MulPairs(D, D, Mul(m, n), Mul(m, n));
  }

  lemma Transfer(p: Point, q: Point, e: Fe)
    requires OnCurve(p) && OnCurve(q) && Cross4(p, q) == e && Mul(e, e) == 1
    ensures Mul(DXY(p), Sub(YY(q), XX(q))) == Sub(YY(p), XX(p))
  {
    hide Mul, OnCurve, Cross4, XX, YY, XY, DXY, Sub;
    CurveIs(p);
    CurveIs(q);
    Cross4Is(p, q);
    DXYIs(p);
    DXYIs(q);
    ProductOfCrosses(XY(p), XY(q), e);
    MulAdd(DXY(p), 1, DXY(q));
    MulOne(DXY(p));
  }

  lemma TransferCross(m: Fe, n: Fe, e: Fe, j: Fe)
    requires Mul(D, Mul(m, n)) == e
    ensures Mul(Mul(D, Mul(m, m)), Mul(j, n)) == Mul(Mul(j, e), m)
  {
    hide Mul;
    MulAssociates(D, m, m);
    MulCommutes(j, n);
    MulPairs(Mul(D, m), m, n, j);
    MulAssociates(D, m, n);
    MulCommutes(m, j);
    MulAssociates(e, j, m);
    MulCommutes(e, j);
  }

  lemma TransferSquare(p: Point, q: Point, e: Fe, j: Fe)
    requires OnCurve(p) && OnCurve(q) && Cross4(p, q) == e && Mul(e, e) == 1 && Mul(j, j) == Neg(1)
    ensures var s2, s1 := Add(q.y, Mul(j, q.x)), Add(p.y, Mul(Mul(j, e), p.x));
      Mul(DXY(p), Mul(s2, s2)) == Mul(s1, s1)
  {
    hide Mul, OnCurve, Cross4, XX, YY, XY, DXY, Sub, Add, Dbl;
    var k := Mul(j, e);
    assert Mul(k, k) == Neg(1) by {
      MulPairs(j, e, j, e);
      MulOne(Neg(1));
    }
    SquareOfLine(j, q);
    SquareOfLine(k, p);
    var a, c := Sub(YY(q), XX(q)), Mul(j, XY(q));
    MulAdd(DXY(p), a, Dbl(c));
    Transfer(p, q, e);
    MulDbl(DXY(p), c);
    DXYIs(p);
    Cross4Is(p, q);
    TransferCross(XY(p), XY(q), e, j);
  }

  lemma LineVanishes(p: Point, q: Point, e: Fe, j: Fe)
    requires Fermat() && OnCurve(p) && OnCurve(q)
    requires Cross4(p, q) == e && Mul(e, e) == 1 && Mul(j, j) == Neg(1) && XY(p) != 0
    ensures Add(q.y, Mul(j, q.x)) == 0
  {
    hide Fermat, Mul, OnCurve, Cross4, XY, Add, Neg;
    var s2, s1 := Add(q.y, Mul(j, q.x)), Add(p.y, Mul(Mul(j, e), p.x));
    TransferSquare(p, q, e, j);
    DXYIs(p);
    hide DXY;
    var w := Mul(XY(p), s2);
    MulPairs(XY(p), s2, XY(p), s2);
    MulAssociates(D, Mul(XY(p), XY(p)), Mul(s2, s2));
    if w != 0 {
      var c := InverseOf(w);
      SquareOf(D, w, c, s1);
      NotSquare(Mul(s1, c));
    } else {
      NoZeroDivisors(XY(p), s2);
    }
  }

  /** On the curve D x1 x2 y1 y2 is never 1 or -1. */
  lemma NeverVanishes(p: Point, q: Point)
    requires Fermat() && OnCurve(p) && OnCurve(q)
    ensures Cross4(p, q) != 1 && Cross4(p, q) != Neg(1)
  {
    hide Fermat, Mul, OnCurve, Cross4, XY;
    var e := Cross4(p, q);
    if e == 1 || e == Neg(1) {
      NegSquare(1);
      MulOne(1);
      CrossNotZero(p, q);
      SqrtOfMinusOne();
      NegSquare(SQRT_M1);
      LineVanishes(p, q, e, SQRT_M1);
      LineVanishes(p, q, e, Neg(SQRT_M1));
      MulNeg(q.x, SQRT_M1);
      BothLines(q.y, Mul(SQRT_M1, q.x));
    }
  }

  lemma CrossNotZero(p: Point, q: Point)
    requires Cross4(p, q) != 0
    ensures XY(p) != 0 && q.y != 0
  {
    hide Mul, Cross4;
    Cross4Is(p, q);
    MulZero(XY(q));
    MulZero(XY(p));
    MulZero(D);
    MulZero(q.x);
  }

  lemma BothLines(y: Fe, z: Fe)
    requires Add(y, z) == 0 && Add(y, Neg(z)) == 0
    ensures y == 0
  {}

  /** The sum is unique. */
  lemma UniqueSum(p: Point, q: Point, r: Point, r': Point)
    requires Fermat() && OnCurve(p) && OnCurve(q) && IsSum(p, q, r) && IsSum(p, q, r')
    ensures r == r'
  {
    hide Fermat, Mul, OnCurve, Cross4;
    NeverVanishes(p, q);
    var u, v := Add(1, Cross4(p, q)), Sub(1, Cross4(p, q));
    assert u != 0 && v != 0;
    hide Add, Sub;
    MulCommutes(r.x, u);
    MulCommutes(r'.x, u);
    MulCommutes(r.y, v);
    MulCommutes(r'.y, v);
    Cancel(u, r.x, r'.x);
    Cancel(v, r.y, r'.y);
  }

  /** The law for a point and itself. */
  lemma DoubleIs(p: Point, r: Point)
    requires IsSum(p, p, r)
    ensures Mul(r.x, Add(1, DXY(p))) == Add(Mul(p.x, p.y), Mul(p.x, p.y))
    ensures Mul(r.y, Sub(1, DXY(p))) == Add(YY(p), XX(p))
  {
    hide Mul, Sub, Add;
  }

  // ---------------------------------------------------------------- the laws of a group

  lemma SumCommutes(p: Point, q: Point, r: Point)
    requires IsSum(p, q, r)
    ensures IsSum(q, p, r)
  {
    hide Mul;
    MulCommutes(p.x, q.x);
    MulCommutes(p.y, q.y);
  }

  lemma SumWithNeutral(p: Point)
    ensures IsSum(p, IDENTITY, p)
  {
    hide Mul;
    MulZero(p.x);
    MulZero(p.y);
    MulZero(Mul(p.y, 1));
    MulZero(D);
    MulOne(p.x);
    MulOne(p.y);
  }

  lemma NeutralOnCurve()
    ensures OnCurve(IDENTITY)
  {
    hide Mul;
    MulZero(0);
    MulZero(1);
    MulZero(D);
    MulOne(1);
  }

  lemma InverseOnCurve(p: Point)
    requires OnCurve(p)
    ensures OnCurve(Inverse(p))
  {
    hide Mul, Neg, Add, Sub;
    NegSquare(p.x);
  }

  lemma SumWithInverse(p: Point)
    requires OnCurve(p)
    ensures IsSum(p, Inverse(p), IDENTITY)
  {
    hide Mul, OnCurve;
    var q := Inverse(p);
    MulNeg(p.x, p.x);
    MulNeg(YY(p), XX(p));
    MulNeg(D, Mul(XX(p), YY(p)));
    assert Cross4(p, q) == Neg(DXY(p));
    MulNeg(p.y, p.x);
    MulZero(Add(1, Cross4(p, q)));
    MulOne(Sub(1, Cross4(p, q)));
    CurveIs(p);
  }
}
