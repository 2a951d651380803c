/** Elligator 2, `ge25519_from_uniform` of external/VRF_functions/ed25519_ref10.cpp: a map from strings to points that
    never fails.  A string r gives u = -A / (1 + 2 r^2) or its companion -A - u, whichever lies on the Montgomery curve
    v^2 = u^3 + A u^2 + u, and from there y = (u - 1) / (u + 1) on the Edwards curve. */
module Elligator {
  import opened Field25519
  import opened PointDecoding
  import opened RingLaws
  import opened SquareRoots
  import opened PointRoundTrip
  import opened EdwardsClosure
  import opened EdwardsAssociative

  // ---------------------------------------------------------------- squares

  const HALF: nat := (P - 1) / 2

  /** `chi25519` */
  function Chi(z: Fe): Fe { Pow(z, HALF) }

  ghost predicate IsSquare(z: Fe) { exists k: Fe :: Mul(k, k) == z }

  lemma Rooted(k: Fe)
    ensures IsSquare(Mul(k, k))
  {
    hide Mul;
  }

  lemma {:induction false} PowMul(a: Fe, b: Fe, n: nat)
    ensures Pow(Mul(a, b), n) == Mul(Pow(a, n), Pow(b, n))
    decreases n
  {
    hide Mul;
    if n == 0 {
      MulOne(1);
    } else {
      PowMul(a, b, n - 1);
      MulPairs(a, b, Pow(a, n - 1), Pow(b, n - 1));
    }
  }

  lemma {:induction false} PowZero(n: nat)
    requires n > 0
    ensures Pow(0, n) == 0
  {
    hide Mul;
    MulZero(Pow(0, n - 1));
  }

  lemma Halves()
    ensures 2 * HALF == P - 1 && 2 * ((P - 1) / 4) == HALF && 2 * ((P + 3) / 8) == (P - 1) / 4 + 1
  {}

  lemma ChiOfSquare(k: Fe)
    requires Fermat() && k != 0
    ensures Chi(Mul(k, k)) == 1
  {
    hide Fermat, Mul, Pow;
    PowMul(k, k, HALF);
    PowAdd(k, HALF, HALF);
    Halves();
    PowerOf(k);
  }

  /** A root of a number with Chi 1. */
  lemma RootOfResidue(z: Fe) returns (k: Fe)
    requires Fermat() && Chi(z) == 1
    ensures Mul(k, k) == z
  {
    hide Fermat, Mul, Pow, Neg;
    var f, r := Pow(z, (P - 1) / 4), Pow(z, (P + 3) / 8);
    Halves();
    PowAdd(z, (P - 1) / 4, (P - 1) / 4);
    SquareIsOne(f);
    NegFlips(1);
    PowAdd(z, (P + 3) / 8, (P + 3) / 8);
    PowAdd(z, (P - 1) / 4, 1);
    PowOne(z);
    MulOne(z);
    if f == 1 {
      k := r;
    } else {
      k := Mul(SQRT_M1, r);
      SqrtOfMinusOne();
      MulPairs(SQRT_M1, r, SQRT_M1, r);
      MulNeg(z, 1);
      NegSquare(1);
      MulAssociates(Neg(1), Neg(1), z);
      MulOne(1);
    }
  }

  /** Euler's criterion. */
  lemma Euler(z: Fe)
    requires Fermat()
    ensures z == 0 ==> Chi(z) == 0
    ensures z != 0 ==> Chi(z) == if IsSquare(z) then 1 else Neg(1)
    ensures z == 0 ==> IsSquare(z)
  {
    hide Fermat, Mul, Pow, Neg;
    if z == 0 {
      PowZero(HALF);
      MulZero(0);
      Rooted(0);
    } else {
      HalfPower(z);
      if IsSquare(z) {
        var k: Fe :| Mul(k, k) == z;
        MulZero(0);
        ChiOfSquare(k);
      } else if Chi(z) == 1 {
        var k := RootOfResidue(z);
        Rooted(k);
      }
    }
  }

  /** 2 is not a square: 2 i = (1 + i)^2, and i is none. */
  lemma ChiOfTwo()
    requires Fermat()
    ensures Chi(2) == Neg(1)
  {
    OneAndI();
    ChiOfI();
    hide Fermat, Mul, Pow, Neg;
    var k := Add(1, SQRT_M1);
    assert k != 0;
    ChiOfSquare(k);
    PowMul(2, SQRT_M1, HALF);
    MulNeg(Chi(2), 1);
    MulOne(Chi(2));
    NegTwice(Chi(2));
  }

  lemma OneAndI()
    ensures var k := Add(1, SQRT_M1); Mul(k, k) == Mul(2, SQRT_M1) && k != 0
  {
    hide Mul;
    SquareOfSum(1, SQRT_M1);
    MulOne(1);
    MulOne(SQRT_M1);
    SqrtOfMinusOne();
    TwoIsSum(SQRT_M1);
  }

  lemma TwoIsSum(a: Fe)
    ensures Mul(2, a) == Dbl(a) && Add(Add(1, Neg(1)), Dbl(a)) == Dbl(a)
  {
    hide Mul;
    assert Add(1, 1) == 2;
    MulAdd(a, 1, 1);
    MulOne(a);
  }

  lemma ChiOfI()
    requires Fermat()
    ensures Chi(SQRT_M1) == Neg(1)
  {
    hide Fermat, Mul, Pow, Neg;
    Euler(SQRT_M1);
    if IsSquare(SQRT_M1) {
      var k: Fe :| Mul(k, k) == SQRT_M1;
      NoEighthRoot(k);
    }
  }

  // ---------------------------------------------------------------- the Montgomery curve

  /** `curve25519_A` */
  const A: Fe := 486662

  /** u^2 + A u + 1 */
  function Quad(u: Fe): Fe { Add(Mul(u, Add(u, A)), 1) }

  /** u^3 + A u^2 + u, as the code computes it. */
  function Cubic(u: Fe): Fe {
    var u2 := Mul(u, u);
    Add(Mul(u2, A), Add(Mul(u, u2), u))
  }

  lemma CubicIs(u: Fe)
    ensures Cubic(u) == Mul(u, Quad(u))
  {
    hide Mul, Add;
    var u2 := Mul(u, u);
    MulAdd(u, Mul(u, Add(u, A)), 1);
    MulAdd(u, u, A);
    MulAdd(u, u2, Mul(u, A));
    MulAssociates(u, u, A);
    MulOne(u);
    Regroup3(Mul(u2, A), Mul(u, u2), u);
    SwapSum(Mul(u2, A), Mul(u, u2));
  }

  /** -A - u has the same quadratic factor as u. */
  lemma Companion(u: Fe)
    ensures Quad(Sub(Neg(u), A)) == Quad(u)
  {
    CompanionSum(u);
    hide Mul, Add, Sub, Neg;
    var u' := Sub(Neg(u), A);
    MulNeg(u', u);
    MulNeg(u, Add(u, A));
    MulCommutes(u, Add(u, A));
    NegTwice(Mul(Add(u, A), u));
  }

  lemma CompanionSum(u: Fe)
    ensures Add(Sub(Neg(u), A), A) == Neg(u) && Sub(Neg(u), A) == Neg(Add(u, A))
  {}

  /** u = -A / (1 + 2 r^2), as the code computes it. */
  function FirstU(r: Fe): Fe { Neg(Quotient(A, Add(Dbl(Mul(r, r)), 1))) }

  /** The one of u and -A - u that the code takes. */
  function ChosenU(r: Fe): Fe {
    var u := FirstU(r);
    if Chi(Cubic(u)) == Neg(1) then Sub(Neg(u), A) else u
  }

  lemma QuotientByZero(a: Fe)
    ensures Quotient(a, 0) == 0
  {
    hide Mul, Pow;
    PowZero(P - 2);
    MulZero(a);
  }

  /** u (1 + 2 r^2) = -A, unless the code divides by zero. */
  lemma FirstUIs(r: Fe)
    requires Fermat()
    ensures var w := Add(Dbl(Mul(r, r)), 1); if w == 0 then FirstU(r) == 0 else Mul(FirstU(r), w) == Neg(A)
  {
    var w := Add(Dbl(Mul(r, r)), 1);
    hide Fermat, Mul, Pow, Add, Neg, Dbl;
    if w == 0 {
      QuotientByZero(A);
      NegFlips(0);
    } else {
      QuotientIs(A, w);
      MulNeg(w, Quotient(A, w));
    }
  }

  /** -A - u = 2 r^2 u */
  lemma CompanionIs(r: Fe)
    requires Fermat() && FirstU(r) != 0
    ensures var u := FirstU(r); Sub(Neg(u), A) == Mul(Dbl(Mul(r, r)), u)
  {
    hide Fermat, Mul, Pow, Add, Neg, Dbl, FirstU;
    var u, k := FirstU(r), Dbl(Mul(r, r));
    FirstUIs(r);
    MulAdd(u, k, 1);
    MulOne(u);
    MulCommutes(u, k);
    SumToMinusA(Mul(k, u), u, A);
  }

  lemma SumToMinusA(x: Fe, u: Fe, a: Fe)
    requires Add(x, u) == Neg(a)
    ensures x == Sub(Neg(u), a)
  {}

  /** Whatever r is, the chosen u lies on the Montgomery curve. */
  lemma ChosenOnMontgomery(r: Fe) returns (v: Fe)
    requires Fermat()
    ensures Mul(v, v) == Cubic(ChosenU(r))
  {
    hide Fermat, Mul, Pow, Neg, Cubic, FirstU;
    var u := FirstU(r);
    Euler(Cubic(u));
    if Chi(Cubic(u)) == Neg(1) {
      CubicOfZero(u);
      v := CompanionRoot(r);
    } else {
      v :| Mul(v, v) == Cubic(u);
    }
  }

  /** The code takes u where u is on the curve and its companion where u is not. */
  lemma ChosenIs(r: Fe)
    requires Fermat()
    ensures var u := FirstU(r); ChosenU(r) == if IsSquare(Cubic(u)) then u else Sub(Neg(u), A)
    ensures IsSquare(Cubic(ChosenU(r)))
  {
    OneIsNotMinusOne();
    hide Fermat, Mul, Pow, Neg, Sub, Cubic, FirstU;
    Euler(Cubic(FirstU(r)));
    var v := ChosenOnMontgomery(r);
    Rooted(v);
  }

  lemma OneIsNotMinusOne()
    ensures Neg(1) != 1 && Neg(1) != 0
  {}

  lemma CubicOfZero(u: Fe)
    requires Fermat() && Chi(Cubic(u)) == Neg(1)
    ensures u != 0
  {
    OneIsNotMinusOne();
    hide Fermat, Mul, Neg, Pow;
    CubicIs(u);
    MulZero(Quad(u));
    Euler(Cubic(u));
  }

  /** Where u is not on the curve its companion is: their cubics differ by the factor 2 r^2, and 2 is not a square. */
  lemma CompanionRoot(r: Fe) returns (v: Fe)
    requires Fermat() && FirstU(r) != 0 && Chi(Cubic(FirstU(r))) == Neg(1)
    ensures Mul(v, v) == Cubic(Sub(Neg(FirstU(r)), A))
  {
    hide Fermat, Mul, Pow, Neg, Cubic, FirstU, Sub, Quad;
    var u := FirstU(r);
    var c, u' := Cubic(u), Sub(Neg(u), A);
    ChiOfTwo();
    PowMul(2, c, HALF);
    NegSquare(1);
    MulOne(1);
    var k := RootOfResidue(Mul(2, c));
    v := Mul(r, k);
    CubicIs(u);
    CubicIs(u');
    Companion(u);
    CompanionIs(r);
    MulPairs(r, k, r, k);
    var rr := Mul(r, r);
    TwoIsSum(rr);
    MulAssociates(Mul(2, rr), u, Quad(u));
    MulCommutes(2, rr);
    MulAssociates(rr, 2, c);
  }

  // ---------------------------------------------------------------- from there to the Edwards curve

  /** (u - 1) / (u + 1), as the code computes it. */
  function EdwardsY(u: Fe): Fe { Quotient(Sub(u, 1), Add(u, 1)) }

  /** (u + 1) y = u - 1, unless the code divides by zero. */
  lemma EdwardsYIs(u: Fe)
    requires Fermat()
    ensures if Add(u, 1) == 0 then EdwardsY(u) == 0 else Mul(EdwardsY(u), Add(u, 1)) == Sub(u, 1)
  {
    hide Fermat, Mul, Add, Sub, Quotient;
    if Add(u, 1) == 0 {
      QuotientByZero(Sub(u, 1));
    } else {
      QuotientIs(Sub(u, 1), Add(u, 1));
    }
  }

  /** A root of -(A + 2). */
  const ROOT_A2: Fe := 6853475219497561581579357271197624642482790079785650197046958215289687604742

  lemma Constants()
    ensures Mul(D, 486664) == Neg(486660) && Mul(ROOT_A2, ROOT_A2) == Neg(486664)
  {
    hide Mul;
    MulBy(D, 486664, 311819, P - 486660);
    MulBy(ROOT_A2, ROOT_A2, 811283791382358746632043060404886085348275560480460852077875517660499758171, P - 486664);
  }

  /** (u - 1)^2 - (u + 1)^2 = -4 u */
  lemma DifferenceOfBoth(u: Fe)
    ensures Sub(Mul(Sub(u, 1), Sub(u, 1)), Mul(Add(u, 1), Add(u, 1))) == Neg(Dbl(Dbl(u)))
  {
    hide Mul, Dbl;
    SumFromDifference(u, 1);
    MulOne(u);
  }

  /** (y^2 - 1) (u + 1)^2 = -4 u */
  lemma NumeratorIs(u: Fe, y: Fe)
    requires Mul(y, Add(u, 1)) == Sub(u, 1)
    ensures var s := Add(u, 1); Mul(Numerator(y), Mul(s, s)) == Neg(Dbl(Dbl(u)))
  {
    hide Mul, Add, Sub, Dbl, Neg;
    var s := Add(u, 1);
    MulSub(Mul(s, s), Mul(y, y), 1);
    MulPairs(y, y, s, s);
    MulOne(Mul(s, s));
    DifferenceOfBoth(u);
  }

  /** (A + 2) (D y^2 + 1) (u + 1)^2 = 4 (u^2 + A u + 1) */
  lemma DenominatorIs(u: Fe, y: Fe)
    requires Mul(y, Add(u, 1)) == Sub(u, 1)
    ensures var s := Add(u, 1); Mul(Mul(486664, Denominator(y)), Mul(s, s)) == Dbl(Dbl(Quad(u)))
  {
    Constants();
    hide Mul, Add, Sub, Dbl, Neg, Quad;
    var s, yy := Add(u, 1), Mul(y, y);
    var p, m := Mul(s, s), Mul(Sub(u, 1), Sub(u, 1));
    MulAssociates(486664, Denominator(y), p);
    MulAdd(p, Mul(yy, D), 1);
    MulOne(p);
    MulCommutes(yy, D);
    MulAssociates(D, yy, p);
    MulPairs(y, y, s, s);
    MulAdd(486664, Mul(D, m), p);
    MulCommutes(486664, D);
    MulAssociates(486664, D, m);
    MulNeg(m, 486660);
    WithConstants(u, p, m);
  }

  /** (A + 2) p - (A - 2) m = 4 (u^2 + A u + 1), where p = (u + 1)^2 and m = (u - 1)^2 */
  lemma WithConstants(u: Fe, p: Fe, m: Fe)
    requires p == Mul(Add(u, 1), Add(u, 1)) && m == Mul(Sub(u, 1), Sub(u, 1))
    ensures Add(Neg(Mul(486660, m)), Mul(486664, p)) == Dbl(Dbl(Quad(u)))
  {
    SquaresOfBoth(u);
    hide Mul, Dbl, Quad;
    var n := Add(Mul(u, u), 1);
    var a, b := Mul(486660, n), Mul(486660, Dbl(u));
    SplitConstant(p);
    MulSub(486660, n, Dbl(u));
    MulAdd(486660, n, Dbl(u));
    TwiceMiddle(a, b, Dbl(Dbl(p)));
    QuadParts(u, n, p, b);
  }

  lemma SquaresOfBoth(u: Fe)
    ensures var n := Add(Mul(u, u), 1);
      && Mul(Add(u, 1), Add(u, 1)) == Add(n, Dbl(u)) && Mul(Sub(u, 1), Sub(u, 1)) == Sub(n, Dbl(u))
  {
    hide Mul, Dbl;
    SquareOfSum(u, 1);
    SquareOfDifference(u, 1);
    MulOne(1);
    MulOne(u);
  }

  /** 486664 p = 486660 p + 4 p */
  lemma SplitConstant(p: Fe)
    ensures Mul(486664, p) == Add(Mul(486660, p), Dbl(Dbl(p)))
  {
    hide Mul;
    assert Add(486660, Dbl(Dbl(1))) == 486664;
    MulAdd(p, 486660, Dbl(Dbl(1)));
    MulDbl(p, Dbl(1));
    MulDbl(p, 1);
    MulOne(p);
  }

  lemma TwiceMiddle(a: Fe, b: Fe, c: Fe)
    ensures Add(Neg(Sub(a, b)), Add(Add(a, b), c)) == Add(Dbl(b), c)
  {
    hide Add;
    NegOfDifference(a, b);
    Regroup3(Add(Neg(a), b), Add(a, b), c);
    AddPairs(Neg(a), b, a, b);
    Nothing(a, Dbl(b));
  }

  lemma Nothing(a: Fe, b: Fe)
    ensures Add(Add(Neg(a), a), b) == b
  {}

  /** 2 (486660 2 u) + 4 (n + 2 u) = 4 (n + 486662 u) */
  lemma QuadParts(u: Fe, n: Fe, p: Fe, b: Fe)
    requires n == Add(Mul(u, u), 1) && p == Add(n, Dbl(u)) && b == Mul(486660, Dbl(u))
    ensures Add(Dbl(b), Dbl(Dbl(p))) == Dbl(Dbl(Quad(u)))
  {
    hide Mul, Dbl;
    MulDbl(486660, u);
    var k := Mul(486660, u);
    assert Add(486660, 2) == A;
    MulAdd(u, 486660, 2);
    TwoIsSum(u);
    MulCommutes(A, u);
    MulAdd(u, u, A);
    hide Add;
    DblSum(Dbl(k), p);
    DblOfSum(k, p);
    QuadOrder(Mul(u, u), k, Dbl(u));
  }

  lemma DblSum(a: Fe, b: Fe)
    ensures Add(Dbl(a), Dbl(b)) == Dbl(Add(a, b))
  {
    hide Add;
    AddPairs(a, a, b, b);
  }

  lemma DblOfSum(k: Fe, p: Fe)
    ensures Add(Dbl(Dbl(k)), Dbl(Dbl(p))) == Dbl(Dbl(Add(k, p)))
  {
    hide Add, Dbl;
    DblSum(Dbl(k), Dbl(p));
    DblSum(k, p);
  }

  lemma QuadOrder(uu: Fe, k: Fe, t: Fe)
    ensures Add(k, Add(Add(uu, 1), t)) == Add(Add(uu, Add(k, t)), 1)
  {
    hide Add;
    SwapSum(k, Add(Add(uu, 1), t));
    Regroup3(Add(uu, 1), t, k);
    SwapSum(t, k);
    Regroup3(uu, 1, Add(k, t));
    SwapSum(1, Add(k, t));
    Regroup3(uu, Add(k, t), 1);
  }

  // ---------------------------------------------------------------- the point

  /** u = -1 and u = 0 give y = 0 and y = -1, which are on the curve with x = sqrt(-1) and x = 0. */
  lemma SpecialPoints(u: Fe) returns (x: Fe)
    requires Fermat() && (Add(u, 1) == 0 || u == 0)
    ensures OnCurve(Point(x, EdwardsY(u)))
  {
    if Add(u, 1) == 0 {
      x := SQRT_M1;
      hide Fermat, OnCurve, Mul, Pow;
      QuotientByZero(Sub(u, 1));
      PointAtZero();
    } else {
      x := 0;
      hide Fermat, OnCurve, Mul, Pow;
      assert Sub(0, 1) == Neg(1) && Add(0, 1) == 1;
      QuotientIs(Neg(1), 1);
      MulOne(EdwardsY(0));
      PointAtMinusOne();
    }
  }

  lemma PointAtZero()
    ensures OnCurve(Point(SQRT_M1, 0))
  {
    hide Mul;
    MulZero(0);
    SqrtOfMinusOne();
    MulZero(Neg(1));
    MulZero(D);
    assert Sub(0, Neg(1)) == 1 && Add(1, 0) == 1;
  }

  lemma PointAtMinusOne()
    ensures OnCurve(Point(0, Neg(1)))
  {
    hide Mul;
    MulZero(0);
    NegSquare(1);
    MulOne(1);
    MulZero(1);
    MulZero(D);
    assert Sub(1, 0) == 1 && Add(1, 0) == 1;
  }

  /** v is not zero: the quadratic has no root, as the denominator of x^2 has none. */
  lemma RootNotZero(u: Fe, v: Fe)
    requires Fermat() && u != 0 && Add(u, 1) != 0 && Mul(v, v) == Cubic(u)
    ensures v != 0 && Quad(u) != 0
  {
    var s, y := Add(u, 1), EdwardsY(u);
    hide Fermat, Mul, Add, Sub, Quad, Cubic, Quotient, Dbl;
    QuotientIs(Sub(u, 1), s);
    DenominatorIs(u, y);
    DenominatorNotZero(y);
    hide Denominator;
    ProductNotZero(s, s);
    ProductNotZero(486664, Denominator(y));
    ProductNotZero(Mul(486664, Denominator(y)), Mul(s, s));
    DoubleOfZero();
    CubicIs(u);
    ProductNotZero(u, Quad(u));
    MulZero(0);
  }

  lemma DoubleOfZero()
    ensures Dbl(Dbl(0)) == 0
  {}

  /** x = sqrt(-(A + 2)) u / v has x^2 (u^2 + A u + 1) = -(A + 2) u. */
  lemma SquareOfX(u: Fe, v: Fe)
    requires Fermat() && u != 0 && v != 0 && Mul(v, v) == Cubic(u)
    ensures var x := Quotient(Mul(ROOT_A2, u), v); Mul(Mul(x, x), Quad(u)) == Neg(Mul(486664, u))
  {
    Constants();
    hide Fermat, Mul, Quad, Cubic, Quotient, Neg;
    var x := Quotient(Mul(ROOT_A2, u), v);
    QuotientIs(Mul(ROOT_A2, u), v);
    MulPairs(x, v, x, v);
    MulPairs(ROOT_A2, u, ROOT_A2, u);
    CubicIs(u);
    var xx := Mul(x, x);
    MulNeg(Mul(u, u), 486664);
    MulAssociates(xx, u, Quad(u));
    MulCommutes(xx, u);
    MulAssociates(u, xx, Quad(u));
    MulAssociates(486664, u, u);
    MulCommutes(Mul(486664, u), u);
    MulNeg(u, Mul(486664, u));
    Cancel(u, Mul(xx, Quad(u)), Neg(Mul(486664, u)));
  }

  /** A point of the Montgomery curve gives one of the Edwards curve. */
  lemma ToEdwards(u: Fe, v: Fe) returns (x: Fe)
    requires Fermat() && Mul(v, v) == Cubic(u)
    ensures OnCurve(Point(x, EdwardsY(u)))
  {
    if Add(u, 1) == 0 || u == 0 {
      x := SpecialPoints(u);
    } else {
      hide Fermat, Mul, Add, Sub, Quad, Cubic, Quotient, OnCurve, Neg;
      RootNotZero(u, v);
      x := Quotient(Mul(ROOT_A2, u), v);
      SquareOfX(u, v);
      EquationHolds(u, x);
    }
  }

  lemma EquationHolds(u: Fe, x: Fe)
    requires Fermat() && Add(u, 1) != 0 && Mul(Mul(x, x), Quad(u)) == Neg(Mul(486664, u))
    ensures OnCurve(Point(x, EdwardsY(u)))
  {
    hide Fermat, Mul, Add, Sub, Quad, Quotient, OnCurve, Neg, Dbl;
    var s, y, xx := Add(u, 1), EdwardsY(u), Mul(x, x);
    QuotientIs(Sub(u, 1), s);
    NumeratorIs(u, y);
    DenominatorIs(u, y);
    hide Numerator, Denominator;
    var p, n, d := Mul(s, s), Numerator(y), Denominator(y);
    ProductNotZero(s, s);
    ProductNotZero(486664, p);
    // (A + 2) s^2 x^2 d = x^2 4 Q = -4 (A + 2) u = (A + 2) s^2 n
    LeftSide(xx, d, p);
    FourTimesMul(xx, Quad(u));
    MulAssociates(486664, p, n);
    MulCommutes(p, n);
    MulNeg(486664, Dbl(Dbl(u)));
    FourTimesMul(486664, u);
    NegOfDouble(Mul(486664, u));
    Cancel(Mul(486664, p), Mul(xx, d), n);
    CurveEquation(Point(x, y));
  }

  lemma LeftSide(xx: Fe, d: Fe, p: Fe)
    ensures Mul(Mul(486664, p), Mul(xx, d)) == Mul(xx, Mul(Mul(486664, d), p))
  {
    hide Mul;
    MulCommutes(xx, d);
    MulPairs(486664, p, d, xx);
    MulCommutes(p, xx);
    MulCommutes(Mul(486664, d), Mul(xx, p));
    MulAssociates(xx, p, Mul(486664, d));
    MulCommutes(p, Mul(486664, d));
  }

  lemma FourTimesMul(a: Fe, b: Fe)
    ensures Mul(a, Dbl(Dbl(b))) == Dbl(Dbl(Mul(a, b)))
  {
    hide Mul, Dbl;
    MulDbl(a, Dbl(b));
    MulDbl(a, b);
  }

  lemma NegOfDouble(a: Fe)
    ensures Dbl(Dbl(Neg(a))) == Neg(Dbl(Dbl(a)))
  {}

  /** Whatever r is, the y of Elligator 2 is the y of a point of the curve. */
  lemma ElligatorOnCurve(r: Fe) returns (x: Fe)
    requires Fermat()
    ensures OnCurve(Point(x, EdwardsY(ChosenU(r))))
  {
    hide Fermat, Mul, OnCurve, EdwardsY, ChosenU, Cubic;
    var v := ChosenOnMontgomery(r);
    x := ToEdwards(ChosenU(r), v);
  }
}
