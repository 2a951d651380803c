/** The sum of two points of the curve lies on the curve.

    For two points write a = y1^2 - x1^2 and b = y2^2 - x2^2, s1 = y1^2 + x1^2 and s2 = y2^2 + x2^2, m1 = x1 y1 and
    m2 = x2 y2, and t = D m1 m2.  The numerators of the sum are A = x1 y2 + x2 y1 and B = y1 y2 + x1 x2, its
    denominators 1 + t and 1 - t, and what has to be shown is

      (1 + t)^2 B^2 - (1 - t)^2 A^2 = (1 - t^2)^2 + D A^2 B^2. */
module EdwardsClosure {
  import opened Field25519
  import opened PointDecoding
  import opened RingLaws
  import opened SquareRoots
  import opened CurveGroup
  import opened EdwardsLaw

  function SumX(p: Point, q: Point): Fe { Add(Mul(p.x, q.y), Mul(q.x, p.y)) }

  function SumY(p: Point, q: Point): Fe { Add(Mul(p.y, q.y), Mul(p.x, q.x)) }

  /** y^2 - x^2 */
  function Minus(p: Point): Fe { Sub(YY(p), XX(p)) }

  /** y^2 + x^2 */
  function Plus(p: Point): Fe { Add(YY(p), XX(p)) }

  // ---------------------------------------------------------------- products of the numerators

  /** A B = m1 s2 + m2 s1 */
  lemma ProductOfNumerators(p: Point, q: Point)
    ensures Mul(SumX(p, q), SumY(p, q)) == Add(Mul(XY(p), Plus(q)), Mul(XY(q), Plus(p)))
  {
    hide Mul, Add;
    ProductOfSums(Mul(p.x, q.y), Mul(q.x, p.y), Mul(p.y, q.y), Mul(p.x, q.x));
    FirstProducts(p, q);
    LastProducts(p, q);
    MulAdd(XY(p), YY(q), XX(q));
    MulAdd(XY(q), YY(p), XX(p));
    Pairing(Mul(XY(p), YY(q)), Mul(XY(p), XX(q)), Mul(XY(q), XX(p)), Mul(XY(q), YY(p)));
  }

  lemma FirstProducts(p: Point, q: Point)
    ensures Mul(Mul(p.x, q.y), Mul(p.y, q.y)) == Mul(XY(p), YY(q))
    ensures Mul(Mul(q.x, p.y), Mul(p.x, q.x)) == Mul(XY(p), XX(q))
  {
    hide Mul;
    MulPairs(p.x, q.y, p.y, q.y);
    MulCommutes(p.x, q.x);
    MulPairs(q.x, p.y, q.x, p.x);
    MulCommutes(p.y, p.x);
    MulCommutes(XX(q), XY(p));
  }

  lemma LastProducts(p: Point, q: Point)
    ensures Mul(Mul(p.x, q.y), Mul(p.x, q.x)) == Mul(XY(q), XX(p))
    ensures Mul(Mul(q.x, p.y), Mul(p.y, q.y)) == Mul(XY(q), YY(p))
  {
    hide Mul;
    MulPairs(p.x, q.y, p.x, q.x);
    MulCommutes(q.y, q.x);
    MulCommutes(XX(p), XY(q));
    MulCommutes(p.y, q.y);
    MulPairs(q.x, p.y, q.y, p.y);
  }

  lemma Pairing(a: Fe, b: Fe, c: Fe, d: Fe)
    ensures Add(Add(a, b), Add(c, d)) == Add(Add(a, b), Add(d, c))
  {}

  /** B^2 + A^2 = s1 s2 + 4 m1 m2 */
  lemma SumOfNumerators(p: Point, q: Point)
    ensures var a, b := SumX(p, q), SumY(p, q);
      Add(Mul(b, b), Mul(a, a)) == Add(Mul(Plus(p), Plus(q)), Dbl(Dbl(Mul(XY(p), XY(q)))))
  {
    hide Mul, Add, Dbl;
    var n := Mul(XY(p), XY(q));
    SquareOfSum(Mul(p.x, q.y), Mul(q.x, p.y));
    SquareOfSum(Mul(p.y, q.y), Mul(p.x, q.x));
    FourSquares(p, q);
    TwoCrosses(p, q);
    ProductOfSums(YY(p), XX(p), YY(q), XX(q));
    FourAndTwo(Mul(YY(p), YY(q)), Mul(XX(p), XX(q)), Mul(XX(p), YY(q)), Mul(YY(p), XX(q)), Dbl(n));
  }

  lemma FourSquares(p: Point, q: Point)
    ensures Mul(Mul(p.y, q.y), Mul(p.y, q.y)) == Mul(YY(p), YY(q))
    ensures Mul(Mul(p.x, q.x), Mul(p.x, q.x)) == Mul(XX(p), XX(q))
    ensures Mul(Mul(p.x, q.y), Mul(p.x, q.y)) == Mul(XX(p), YY(q))
    ensures Mul(Mul(q.x, p.y), Mul(q.x, p.y)) == Mul(YY(p), XX(q))
  {
    hide Mul;
    MulPairs(p.y, q.y, p.y, q.y);
    MulPairs(p.x, q.x, p.x, q.x);
    MulPairs(p.x, q.y, p.x, q.y);
    MulPairs(q.x, p.y, q.x, p.y);
    MulCommutes(XX(q), YY(p));
  }

  lemma TwoCrosses(p: Point, q: Point)
    ensures Mul(Mul(p.x, q.y), Mul(q.x, p.y)) == Mul(XY(p), XY(q))
    ensures Mul(Mul(p.y, q.y), Mul(p.x, q.x)) == Mul(XY(p), XY(q))
  {
    hide Mul;
    MulCommutes(q.x, p.y);
    MulPairs(p.x, q.y, p.y, q.x);
    MulCommutes(q.y, q.x);
    MulPairs(p.y, q.y, p.x, q.x);
    MulCommutes(p.y, p.x);
  }

  lemma FourAndTwo(a: Fe, b: Fe, c: Fe, d: Fe, n: Fe)
    ensures Add(Add(Add(a, b), n), Add(Add(c, d), n)) == Add(Add(Add(a, b), Add(d, c)), Dbl(n))
  {}

  // ---------------------------------------------------------------- sum and difference of the numerators

  /** B + A = (y1 + x1) (y2 + x2) and B - A = (y1 - x1) (y2 - x2), so their product is a b. */
  lemma DifferenceOfNumerators(p: Point, q: Point)
    ensures var a, b := SumX(p, q), SumY(p, q); Mul(Sub(b, a), Add(b, a)) == Mul(Minus(p), Minus(q))
  {
    hide Mul, Add, Sub;
    var a, b := SumX(p, q), SumY(p, q);
    ProductOfSums(p.y, p.x, q.y, q.x);
    ProductOfDifferences(p.y, p.x, q.y, q.x);
    MulCommutes(p.y, q.x);
    SwapSum(Mul(q.x, p.y), Mul(p.x, q.y));
    MulPairs(Sub(p.y, p.x), Sub(q.y, q.x), Add(p.y, p.x), Add(q.y, q.x));
    DifferenceOfSquares(p.y, p.x);
    DifferenceOfSquares(q.y, q.x);
  }

  lemma SwapSum(a: Fe, b: Fe)
    ensures Add(a, b) == Add(b, a)
  {}

  // ---------------------------------------------------------------- the left side

  /** (1 + t) B - (1 - t) A = F + t E and (1 + t) B + (1 - t) A = E + t F, where E = B + A and F = B - A. */
  lemma LeftFactors(t: Fe, a: Fe, b: Fe)
    ensures var e, f := Add(b, a), Sub(b, a);
      && Sub(Mul(Add(1, t), b), Mul(Sub(1, t), a)) == Add(f, Mul(t, e))
      && Add(Mul(Add(1, t), b), Mul(Sub(1, t), a)) == Add(e, Mul(t, f))
  {
    hide Mul, Add, Sub;
    MulAdd(b, 1, t);
    MulSub(a, 1, t);
    MulOne(a);
    MulOne(b);
    MulAdd(t, b, a);
    MulSub(t, b, a);
    FactorSums(a, b, Mul(t, a), Mul(t, b));
  }

  lemma FactorSums(a: Fe, b: Fe, ta: Fe, tb: Fe)
    ensures Sub(Add(b, tb), Sub(a, ta)) == Add(Sub(b, a), Add(tb, ta))
    ensures Add(Add(b, tb), Sub(a, ta)) == Add(Add(b, a), Sub(tb, ta))
  {
    hide Add, Neg;
    AddPairs(b, tb, a, Neg(ta));
    NegOfDifference(a, ta);
    AddPairs(b, tb, Neg(a), ta);
  }

  lemma NegOfDifference(a: Fe, b: Fe)
    ensures Neg(Add(a, Neg(b))) == Add(Neg(a), b)
  {}

  /** (F + t E) (E + t F) = E F (1 + t^2) + t (E^2 + F^2) */
  lemma LeftProduct(t: Fe, e: Fe, f: Fe)
    ensures Mul(Add(f, Mul(t, e)), Add(e, Mul(t, f)))
         == Add(Mul(Mul(f, e), Add(1, Mul(t, t))), Mul(t, Add(Mul(e, e), Mul(f, f))))
  {
    hide Mul, Add;
    ProductOfSums(f, Mul(t, e), e, Mul(t, f));
    MulPairs(t, e, t, f);
    MulCommutes(e, f);
    MulCommutes(Mul(t, t), Mul(f, e));
    MulAdd(Mul(f, e), 1, Mul(t, t));
    MulOne(Mul(f, e));
    MulCommutes(f, Mul(t, f));
    MulAssociates(t, f, f);
    MulAssociates(t, e, e);
    MulAdd(t, Mul(e, e), Mul(f, f));
    SwapSum(Mul(t, Mul(f, f)), Mul(t, Mul(e, e)));
  }

  /** The left side: a b (1 + t^2) + t (E^2 + F^2). */
  lemma LeftSide(t: Fe, a: Fe, b: Fe)
    ensures var u, v, e, f := Add(1, t), Sub(1, t), Add(b, a), Sub(b, a);
      Sub(Mul(Mul(u, u), Mul(b, b)), Mul(Mul(v, v), Mul(a, a)))
      == Add(Mul(Mul(f, e), Add(1, Mul(t, t))), Mul(t, Add(Mul(e, e), Mul(f, f))))
  {
    hide Mul, Add, Sub;
    var u, v := Add(1, t), Sub(1, t);
    MulPairs(u, b, u, b);
    MulPairs(v, a, v, a);
    DifferenceOfSquares(Mul(u, b), Mul(v, a));
    LeftFactors(t, a, b);
    LeftProduct(t, Add(b, a), Sub(b, a));
  }

  // ---------------------------------------------------------------- the right side

  /** s^2 = (y^2 - x^2)^2 + 4 m^2 */
  lemma SquareOfPlus(p: Point)
    ensures Mul(Plus(p), Plus(p)) == Add(Mul(Minus(p), Minus(p)), Dbl(Dbl(Mul(XY(p), XY(p)))))
  {
    hide Mul, Add, Sub, Dbl;
    SumFromDifference(YY(p), XX(p));
    MulCommutes(YY(p), XX(p));
    MulPairs(p.x, p.x, p.y, p.y);
  }

  /** D m^2 s^2 for the other point's s: D m1^2 s2^2 = D m1^2 b^2 + 4 t m1 m2. */
  lemma OneTerm(m: Fe, n: Fe, s: Fe, b: Fe)
    requires Mul(s, s) == Add(Mul(b, b), Dbl(Dbl(Mul(n, n))))
    ensures Mul(D, Mul(Mul(m, s), Mul(m, s)))
         == Add(Mul(Mul(D, Mul(m, m)), Mul(b, b)), Dbl(Dbl(Mul(Mul(D, Mul(m, n)), Mul(m, n)))))
  {
    hide Mul, Add, Dbl;
    var w := Mul(D, Mul(m, m));
    MulPairs(m, s, m, s);
    MulAssociates(D, Mul(m, m), Mul(s, s));
    MulAdd(w, Mul(b, b), Dbl(Dbl(Mul(n, n))));
    MulDbl(w, Dbl(Mul(n, n)));
    MulDbl(w, Mul(n, n));
    MulAssociates(D, Mul(m, m), Mul(n, n));
    MulPairs(m, m, n, n);
    MulAssociates(D, Mul(m, n), Mul(m, n));
  }

  lemma MixedTerm(m: Fe, n: Fe, s: Fe, r: Fe)
    ensures Mul(D, Mul(Mul(m, s), Mul(n, r))) == Mul(Mul(D, Mul(m, n)), Mul(r, s))
  {
    hide Mul;
    MulPairs(m, s, n, r);
    MulCommutes(s, r);
    MulAssociates(D, Mul(m, n), Mul(r, s));
  }

  /** D (m1 s2 + m2 s1)^2 = D m1^2 b^2 + D m2^2 a^2 + t (2 s1 s2 + 8 m1 m2) */
  lemma RightTerm(m: Fe, n: Fe, r: Fe, s: Fe, a: Fe, b: Fe)
    requires Mul(r, r) == Add(Mul(a, a), Dbl(Dbl(Mul(m, m))))
    requires Mul(s, s) == Add(Mul(b, b), Dbl(Dbl(Mul(n, n))))
    ensures var k, t := Add(Mul(m, s), Mul(n, r)), Mul(D, Mul(m, n));
      Mul(D, Mul(k, k))
      == Add(Add(Mul(Mul(D, Mul(m, m)), Mul(b, b)), Mul(Mul(D, Mul(n, n)), Mul(a, a))),
             Mul(t, Dbl(Add(Mul(r, s), Dbl(Dbl(Mul(m, n)))))))
  {
    hide Mul, Add, Dbl;
    var x, y, t := Mul(m, s), Mul(n, r), Mul(D, Mul(m, n));
    SquareOfSum(x, y);
    MulAdd(D, Add(Mul(x, x), Mul(y, y)), Dbl(Mul(x, y)));
    MulAdd(D, Mul(x, x), Mul(y, y));
    MulDbl(D, Mul(x, y));
    OneTerm(m, n, s, b);
    OneTerm(n, m, r, a);
    MulCommutes(m, n);
    MixedTerm(m, n, s, r);
    MulDbl(t, Add(Mul(r, s), Dbl(Dbl(Mul(m, n)))));
    MulAdd(t, Mul(r, s), Dbl(Dbl(Mul(m, n))));
    MulDbl(t, Dbl(Mul(m, n)));
    MulDbl(t, Mul(m, n));
    Collect(Mul(Mul(D, Mul(m, m)), Mul(b, b)), Mul(Mul(D, Mul(n, n)), Mul(a, a)),
      Dbl(Dbl(Mul(t, Mul(m, n)))), Mul(t, Mul(r, s)));
  }

  lemma Collect(a: Fe, b: Fe, n: Fe, w: Fe)
    ensures Add(Add(Add(a, n), Add(b, n)), Dbl(w)) == Add(Add(a, b), Dbl(Add(w, n)))
  {
    hide Add;
    AddPairs(a, n, b, n);
    AddPairs(w, n, w, n);
    SwapSum(Dbl(w), Dbl(n));
    Regroup3(Add(a, b), Dbl(n), Dbl(w));
  }

  // ---------------------------------------------------------------- the two sides

  /** c (1 + d)^2 = c + 2 c d + c d d */
  lemma ProductWithSquare(c: Fe, d: Fe)
    ensures var w := Mul(c, d);
      Mul(c, Mul(Add(1, d), Add(1, d))) == Add(Add(c, Mul(w, d)), Dbl(w))
  {
    hide Mul, Add, Dbl;
    SquareOfSum(1, d);
    MulOne(1);
    MulOne(d);
    MulAdd(c, Add(1, Mul(d, d)), Dbl(d));
    MulAdd(c, 1, Mul(d, d));
    MulOne(c);
    MulDbl(c, d);
    MulAssociates(c, d, d);
  }

  /** (1 + c) (1 + d) (1 + c d) = (1 - c d)^2 + c (1 + d)^2 + d (1 + c)^2 */
  lemma TwoSides(c: Fe, d: Fe)
    ensures var a, b, w := Add(1, c), Add(1, d), Mul(c, d);
      Mul(Mul(a, b), Add(1, w))
      == Add(Mul(Sub(1, w), Sub(1, w)), Add(Mul(c, Mul(b, b)), Mul(d, Mul(a, a))))
  {
    hide Mul, Add, Dbl, Sub;
    var a, b, w := Add(1, c), Add(1, d), Mul(c, d);
    ProductWithSquare(c, d);
    ProductWithSquare(d, c);
    MulCommutes(d, c);
    ProductOfSums(1, c, 1, d);
    MulOne(1);
    MulOne(c);
    MulOne(d);
    MulAdd(w, c, d);
    SwapSum(c, d);
    var k := Add(c, d);
    MulAdd(Add(1, w), Add(1, w), k);
    SquareOfSum(1, w);
    MulOne(w);
    MulAdd(k, 1, w);
    MulOne(k);
    MulCommutes(w, k);
    MulCommutes(k, Add(1, w));
    SquareOfDifference(1, w);
    LastStep(c, d, w, Mul(w, w), Mul(w, c), Mul(w, d));
    MulCommutes(Add(Add(1, w), k), Add(1, w));
  }

  lemma LastStep(c: Fe, d: Fe, w: Fe, ww: Fe, wc: Fe, wd: Fe)
    ensures Add(Add(Add(1, ww), Dbl(w)), Add(Add(c, d), Add(wc, wd)))
         == Add(Sub(Add(1, ww), Dbl(w)), Add(Add(Add(c, wd), Dbl(w)), Add(Add(d, wc), Dbl(w))))
  {
    hide Add, Sub, Dbl;
    AddPairs(Add(c, wd), Dbl(w), Add(d, wc), Dbl(w));
    AddPairs(c, wd, d, wc);
    SwapSum(wd, wc);
    MoveOver(Add(1, ww), Dbl(w), Add(Add(c, d), Add(wc, wd)));
  }

  lemma MoveOver(g: Fe, x: Fe, k: Fe)
    ensures Add(Add(g, x), k) == Add(Sub(g, x), Add(k, Add(x, x)))
  {}

  /** The equation that has to be shown. */
  lemma SumEquation(p: Point, q: Point)
    requires OnCurve(p) && OnCurve(q)
    ensures var t, a, b := Cross4(p, q), SumX(p, q), SumY(p, q);
      var u, v, n := Add(1, t), Sub(1, t), Mul(a, b);
      var w := Sub(1, Mul(t, t));
      Sub(Mul(Mul(u, u), Mul(b, b)), Mul(Mul(v, v), Mul(a, a))) == Add(Mul(w, w), Mul(D, Mul(n, n)))
  {
    hide Mul, Add, Sub, Dbl, OnCurve, SumX, SumY, Minus, Plus, XX, YY, XY, DXY, Cross4;
    var t, a, b := Cross4(p, q), SumX(p, q), SumY(p, q);
    LeftSide(t, a, b);
    DifferenceOfNumerators(p, q);
    SumOfBoth(b, a);
    SumOfNumerators(p, q);
    ProductOfNumerators(p, q);
    SquareOfPlus(p);
    SquareOfPlus(q);
    Cross4Is(p, q);
    DXYIs(p);
    DXYIs(q);
    RightTerm(XY(p), XY(q), Plus(p), Plus(q), Minus(p), Minus(q));
    MinusIs(p);
    MinusIs(q);
    CrossSquared(p, q);
    TwoSides(DXY(p), DXY(q));
    var w := Sub(1, Mul(t, t));
    Regroup3(Mul(w, w), Add(Mul(DXY(p), Mul(Minus(q), Minus(q))), Mul(DXY(q), Mul(Minus(p), Minus(p)))),
      Mul(t, Dbl(Add(Mul(b, b), Mul(a, a)))));
  }

  lemma Regroup3(a: Fe, b: Fe, c: Fe)
    ensures Add(Add(a, b), c) == Add(a, Add(b, c))
  {}

  lemma MinusIs(p: Point)
    requires OnCurve(p)
    ensures Minus(p) == Add(1, DXY(p))
  {
    hide OnCurve, XX, YY, DXY, Add, Sub;
    CurveIs(p);
  }

  lemma CrossSquared(p: Point, q: Point)
    ensures Mul(Cross4(p, q), Cross4(p, q)) == Mul(DXY(p), DXY(q))
  {
    hide Mul, Cross4, DXY, XY;
    Cross4Is(p, q);
    DXYIs(p);
    DXYIs(q);
    var m, n := XY(p), XY(q);
    MulPairs(D, Mul(m, n), D, Mul(m, n));
    MulPairs(m, n, m, n);
    MulPairs(D, D, Mul(m, m), Mul(n, n));
  }

  // ---------------------------------------------------------------- the sum

  /** Clearing the denominators of the equation of the curve. */
  lemma ClearedSquare(x: Fe, u: Fe, a: Fe)
    requires Mul(x, u) == a
    ensures Mul(Mul(u, u), Mul(x, x)) == Mul(a, a)
  {
    hide Mul;
    MulCommutes(Mul(u, u), Mul(x, x));
    MulPairs(x, x, u, u);
  }

  lemma ClearedLeft(uu: Fe, vv: Fe, xx: Fe, yy: Fe, aa: Fe, bb: Fe)
    requires Mul(uu, xx) == aa && Mul(vv, yy) == bb
    ensures Mul(Mul(uu, vv), Sub(yy, xx)) == Sub(Mul(uu, bb), Mul(vv, aa))
  {
    hide Mul, Sub;
    MulSub(Mul(uu, vv), yy, xx);
    MulAssociates(uu, vv, yy);
    MulCommutes(uu, vv);
    MulAssociates(vv, uu, xx);
  }

  lemma ClearedRight(uu: Fe, vv: Fe, xx: Fe, yy: Fe, aa: Fe, bb: Fe)
    requires Mul(uu, xx) == aa && Mul(vv, yy) == bb
    ensures var w := Mul(uu, vv); Mul(w, Add(1, Mul(D, Mul(xx, yy)))) == Add(w, Mul(D, Mul(aa, bb)))
  {
    hide Mul, Add;
    var w := Mul(uu, vv);
    MulAdd(w, 1, Mul(D, Mul(xx, yy)));
    MulOne(w);
    MulCommutes(w, Mul(D, Mul(xx, yy)));
    MulAssociates(D, Mul(xx, yy), w);
    MulCommutes(Mul(xx, yy), w);
    MulPairs(uu, vv, xx, yy);
  }

  lemma ProductOfDenominators(t: Fe)
    ensures var u, v, w := Add(1, t), Sub(1, t), Sub(1, Mul(t, t));
      Mul(Mul(u, u), Mul(v, v)) == Mul(w, w)
  {
    hide Mul, Add, Sub;
    var u, v := Add(1, t), Sub(1, t);
    MulPairs(u, u, v, v);
    MulCommutes(u, v);
    DifferenceOfSquares(1, t);
    MulOne(1);
  }

  /** The sum of two points of the curve is a point of the curve. */
  lemma SumOnCurve(p: Point, q: Point, r: Point)
    requires Fermat() && OnCurve(p) && OnCurve(q) && IsSum(p, q, r)
    ensures OnCurve(r)
  {
    var t := Cross4(p, q);
    NeverVanishes(p, q);
    var u, v := Add(1, t), Sub(1, t);
    assert u != 0 && v != 0;
    hide Fermat, Mul, Add, Sub, OnCurve, Cross4;
    SumEquation(p, q);
    var a, b := SumX(p, q), SumY(p, q);
    ClearedSquare(r.x, u, a);
    ClearedSquare(r.y, v, b);
    ClearedLeft(Mul(u, u), Mul(v, v), XX(r), YY(r), Mul(a, a), Mul(b, b));
    ClearedRight(Mul(u, u), Mul(v, v), XX(r), YY(r), Mul(a, a), Mul(b, b));
    MulPairs(a, a, b, b);
    ProductOfDenominators(t);
    var w := Mul(Mul(u, u), Mul(v, v));
    NotZeroSquares(u, v);
    Cancel(w, Sub(YY(r), XX(r)), Add(1, DXY(r)));
    OnCurveIs(r);
  }

  lemma OnCurveIs(r: Point)
    ensures OnCurve(r) <==> Sub(YY(r), XX(r)) == Add(1, DXY(r))
  {
    hide Mul, Add, Sub;
  }

  lemma NotZeroSquares(u: Fe, v: Fe)
    requires Fermat() && u != 0 && v != 0
    ensures Mul(Mul(u, u), Mul(v, v)) != 0
  {
    hide Fermat, Mul;
    if Mul(Mul(u, u), Mul(v, v)) == 0 {
      NoZeroDivisors(Mul(u, u), Mul(v, v));
      if Mul(u, u) == 0 {
        NoZeroDivisors(u, u);
      } else {
        NoZeroDivisors(v, v);
      }
    }
  }

  // ---------------------------------------------------------------- the group

  lemma SumLawHolds(g: Group, p: Point, q: Point)
    requires Fermat() && Edwards(g)
    ensures SumLaw(g, p, q)
  {
    hide Fermat, Edwards, OnCurve, IsSum;
    MembersAreOnCurve(g, p);
    MembersAreOnCurve(g, q);
    if OnCurve(p) && OnCurve(q) {
      var r, r' := g.add(p, q), g.add(q, p);
      SumIsSum(g, p, q);
      SumIsSum(g, q, p);
      SumCommutes(q, p, r');
      UniqueSum(p, q, r, r');
      SumOnCurve(p, q, r);
      MembersAreOnCurve(g, r);
    }
  }

  lemma NeutralLawHolds(g: Group, p: Point)
    requires Fermat() && Edwards(g)
    ensures NeutralLaw(g, p)
  {
    hide Fermat, Edwards, OnCurve, IsSum;
    MembersAreOnCurve(g, p);
    NeutralOnCurve();
    if OnCurve(p) {
      SumIsSum(g, p, IDENTITY);
      SumWithNeutral(p);
      UniqueSum(p, IDENTITY, p, g.add(p, IDENTITY));
    }
  }

  lemma InverseLawHolds(g: Group, p: Point)
    requires Fermat() && Edwards(g)
    ensures InverseLaw(g, p)
  {
    hide Fermat, Edwards, OnCurve, IsSum, Inverse;
    MembersAreOnCurve(g, p);
    MembersAreOnCurve(g, Inverse(p));
    if OnCurve(p) {
      InverseOnCurve(p);
      SumIsSum(g, p, Inverse(p));
      SumWithInverse(p);
      UniqueSum(p, Inverse(p), IDENTITY, g.add(p, Inverse(p)));
    }
  }

  // ---------------------------------------------------------------- such an addition

  /** The quotient, by a power. */
  function Quotient(a: Fe, u: Fe): Fe { Mul(a, Pow(u, P - 2)) }

  function EdwardsAdd(p: Point, q: Point): Point {
    Point(Quotient(SumX(p, q), Add(1, Cross4(p, q))), Quotient(SumY(p, q), Sub(1, Cross4(p, q))))
  }

  /** The points of the curve with the Edwards addition law. */
  const CURVE: Group := Group(OnCurve, EdwardsAdd)

  lemma QuotientIs(a: Fe, u: Fe)
    requires Fermat() && u != 0
    ensures Mul(Quotient(a, u), u) == a
  {
    PowerOf(u);
    var c := Pow(u, P - 2);
    assert Pow(u, P - 1) == Mul(u, c);
    hide Fermat, Mul, Pow;
    MulAssociates(a, c, u);
    MulCommutes(c, u);
    MulOne(a);
  }

  /** The denominators do not vanish, so the law defines an addition. */
  lemma CurveIsEdwards()
    requires Fermat()
    ensures Edwards(CURVE)
  {
    forall p, q
      ensures AdditionLaw(CURVE, p, q)
    {
      hide Fermat, OnCurve, IsSum;
      if OnCurve(p) && OnCurve(q) {
        AddIsSum(p, q);
      }
    }
  }

  lemma AddIsSum(p: Point, q: Point)
    requires Fermat() && OnCurve(p) && OnCurve(q)
    ensures IsSum(p, q, EdwardsAdd(p, q))
  {
    NeverVanishes(p, q);
    var u, v := Add(1, Cross4(p, q)), Sub(1, Cross4(p, q));
    assert u != 0 && v != 0;
    hide Fermat, OnCurve, Mul, Pow, Add, Sub, Quotient;
    QuotientIs(SumX(p, q), u);
    QuotientIs(SumY(p, q), v);
  }
}
