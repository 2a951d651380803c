/** Squares in the field: what follows from Fermat's little theorem for 2^255 - 19, above all that the constant of the
    curve is not a square. */
module SquareRoots {
  import opened Arithmetic
  import opened Field25519
  import opened PointDecoding
  import opened RingLaws

  predicate PowerIsOne(a: Fe) { Pow(a, P - 1) == 1 }

  /** Fermat's little theorem. */
  ghost predicate Fermat() {
    forall a: Fe :: a != 0 ==> PowerIsOne(a)
  }

  lemma NoZeroDivisors(a: Fe, b: Fe)
    requires Fermat() && Mul(a, b) == 0
    ensures a == 0 || b == 0
  {
    hide Mul;
    if a != 0 {
      var c := Pow(a, P - 2);
      assert PowerIsOne(a);
      assert Mul(a, c) == 1;
      MulCommutes(a, c);
      MulAssociates(c, a, b);
      MulOne(b);
      MulZero(c);
    }
  }

  /** Numbers with the same square are equal up to sign. */
  lemma SameSquare(a: Fe, b: Fe)
    requires Fermat() && Mul(a, a) == Mul(b, b)
    ensures a == b || a == Neg(b)
  {
    hide Fermat, Mul;
    DifferenceOfSquares(a, b);
    NoZeroDivisors(Sub(a, b), Add(a, b));
  }

  /** A factor other than zero may be cancelled. */
  lemma Cancel(v: Fe, a: Fe, b: Fe)
    requires Fermat() && v != 0 && Mul(v, a) == Mul(v, b)
    ensures a == b
  {
    hide Fermat, Mul;
    MulSub(v, a, b);
    NoZeroDivisors(v, Sub(a, b));
  }

  lemma ProductNotZero(a: Fe, b: Fe)
    requires Fermat() && a != 0 && b != 0
    ensures Mul(a, b) != 0
  {
    hide Fermat, Mul;
    if Mul(a, b) == 0 {
      NoZeroDivisors(a, b);
    }
  }

  lemma InverseOf(w: Fe) returns (c: Fe)
    requires Fermat() && w != 0
    ensures Mul(w, c) == 1
  {
    hide Mul;
    assert PowerIsOne(w);
    c := Pow(w, P - 2);
  }

  /** Only 1 and -1 have the square 1. */
  lemma SquareIsOne(y: Fe)
    requires Fermat()
    ensures Mul(y, y) == 1 <==> y == 1 || y == P - 1
  {
    hide Fermat, Mul;
    MulOne(1);
    NegSquare(1);
    if Mul(y, y) == 1 {
      SameSquare(y, 1);
    }
  }

  // ---------------------------------------------------------------- the constant of the curve

  lemma {:induction false} PowPow(z: Fe, m: nat, n: nat)
    ensures Pow(Pow(z, m), n) == Pow(z, m * n)
    decreases n
  {
    hide Mul;
    if n > 0 {
      PowPow(z, m, n - 1);
      PowAdd(z, m, m * (n - 1));
      Distributes(m, n - 1, 1);
    }
  }

  lemma {:induction false} OddPower(k: nat)
    ensures Pow(Neg(1), 2 * k) == 1 && Pow(Neg(1), 2 * k + 1) == Neg(1)
    decreases k
  {
    hide Mul, Neg;
    assert Pow(Neg(1), 2 * k + 1) == Mul(Neg(1), Pow(Neg(1), 2 * k));
    MulOne(Neg(1));
    if k > 0 {
      OddPower(k - 1);
      NegSquare(1);
      MulOne(1);
      assert Pow(Neg(1), 2 * k) == Mul(Neg(1), Pow(Neg(1), 2 * (k - 1) + 1));
    }
  }

  /** sqrt(-1) is not a square: its root would be a root of unity of order 8, and 8 does not divide p - 1. */
  lemma NoEighthRoot(z: Fe)
    requires Fermat()
    ensures Mul(z, z) != SQRT_M1
  {
    hide Fermat, Mul, Pow;
    if Mul(z, z) == SQRT_M1 {
      MulZero(0);
      PowOne(z);
      PowAdd(z, 1, 1);
      PowAdd(z, 2, 2);
      SqrtOfMinusOne();
      PowPow(z, 4, (P - 1) / 4);
      OddPower((P - 1) / 8);
      PowerOf(z);
    }
  }

  lemma PowerOf(a: Fe)
    requires Fermat() && a != 0
    ensures Pow(a, P - 1) == 1
  {
    hide Pow;
    assert PowerIsOne(a);
  }

  /** The product of sqrt(-1) and D is the square of this number. */
  const ROOT_OF_ID: Fe := 55317625704484474054323040104211100889138369048739196775942058122275509756997

  lemma ProductIsSquare()
    ensures Mul(ROOT_OF_ID, ROOT_OF_ID) == Mul(SQRT_M1, D)
  {
    hide Mul;
    var r: Fe := 1037015203179339716443241900059968288170800499124236367799556346116829421277;
    MulBy(ROOT_OF_ID, ROOT_OF_ID, 52854037503544509985633956069127594115625881577752731878550932935341821229868, r);
    MulBy(SQRT_M1, D, 12610301441004336682909735400361496168314057462634152989633177409920340529567, r);
  }

  /** The constant of the curve is not a square, because sqrt(-1) is none. */
  lemma NotSquare(a: Fe)
    requires Fermat()
    ensures Mul(a, a) != D
  {
    hide Fermat, Mul;
    if Mul(a, a) == D {
      MulZero(0);
      var b := InverseOf(a);
      ProductIsSquare();
      RootOfQuotient(a, b, ROOT_OF_ID, SQRT_M1, D);
      NoEighthRoot(Mul(ROOT_OF_ID, b));
    }
  }

  /** c^2 = i d and a^2 = d make i the square of c / a. */
  lemma RootOfQuotient(a: Fe, b: Fe, c: Fe, i: Fe, d: Fe)
    requires Mul(a, b) == 1 && Mul(a, a) == d && Mul(c, c) == Mul(i, d)
    ensures var z := Mul(c, b); Mul(z, z) == i
  {
    hide Mul;
    MulPairs(c, b, c, b);
    MulAssociates(i, d, Mul(b, b));
    MulPairs(a, a, b, b);
    MulOne(1);
    MulOne(i);
  }

  /** Nor is -1 / d: d w^2 is never -1 nor 1. */
  lemma NeverOne(w: Fe)
    requires Fermat()
    ensures Mul(D, Mul(w, w)) != 1 && Mul(D, Mul(w, w)) != Neg(1)
  {
    hide Fermat, Mul, Neg;
    if Mul(D, Mul(w, w)) == 1 {
      NotZero(w);
      var c := InverseOf(w);
      MulOne(1);
      SquareOf(D, w, c, 1);
      NotSquare(Mul(1, c));
    } else if Mul(D, Mul(w, w)) == Neg(1) {
      NotZero(w);
      var c := InverseOf(w);
      SqrtOfMinusOne();
      SquareOf(D, w, c, SQRT_M1);
      NotSquare(Mul(SQRT_M1, c));
    }
  }

  lemma NotZero(w: Fe)
    requires Mul(D, Mul(w, w)) == 1 || Mul(D, Mul(w, w)) == Neg(1)
    ensures w != 0
  {
    hide Mul;
    MulZero(0);
    MulZero(D);
  }

  /** d w^2 = e^2 and w c = 1 make d the square of e c. */
  lemma SquareOf(d: Fe, w: Fe, c: Fe, e: Fe)
    requires Mul(d, Mul(w, w)) == Mul(e, e) && Mul(w, c) == 1
    ensures var k := Mul(e, c); Mul(k, k) == d
  {
    hide Mul;
    MulPairs(e, c, e, c);
    MulAssociates(d, Mul(w, w), Mul(c, c));
    MulPairs(w, w, c, c);
    MulOne(1);
    MulOne(d);
  }

  /** The denominator of x^2 is never zero. */
  lemma DenominatorNotZero(y: Fe)
    requires Fermat()
    ensures Denominator(y) != 0
  {
    hide Fermat, Mul;
    NeverOne(y);
    MulCommutes(D, Mul(y, y));
  }
}
