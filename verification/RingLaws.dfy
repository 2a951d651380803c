/** Identities of squares and products in the field, written out from the laws of the ring. */
module RingLaws {
  import opened Field25519

  function Dbl(a: Fe): Fe { Add(a, a) }

  lemma MulDbl(a: Fe, b: Fe)
    ensures Mul(a, Dbl(b)) == Dbl(Mul(a, b)) && Mul(Dbl(b), a) == Dbl(Mul(b, a))
  {
    hide Mul, Add;
    MulAdd(a, b, b);
  }

  lemma SquareOfSum(a: Fe, b: Fe)
    ensures Mul(Add(a, b), Add(a, b)) == Add(Add(Mul(a, a), Mul(b, b)), Dbl(Mul(a, b)))
  {
    hide Mul, Add, Dbl;
    MulAdd(Add(a, b), a, b);
    MulAdd(a, a, b);
    MulAdd(b, a, b);
    MulCommutes(a, b);
    Corners(Mul(a, a), Mul(a, b), Mul(b, b));
  }

  lemma Corners(a: Fe, b: Fe, c: Fe)
    ensures Add(Add(a, b), Add(b, c)) == Add(Add(a, c), Dbl(b))
  {}

  lemma SquareOfDifference(a: Fe, b: Fe)
    ensures Mul(Sub(a, b), Sub(a, b)) == Sub(Add(Mul(a, a), Mul(b, b)), Dbl(Mul(a, b)))
  {
    hide Mul;
    SquareOfSum(a, Neg(b));
    MulNeg(a, b);
    MulNeg(Neg(b), b);
    MulNeg(b, b);
  }

  lemma DifferenceOfSquares(a: Fe, b: Fe)
    ensures Mul(Sub(a, b), Add(a, b)) == Sub(Mul(a, a), Mul(b, b))
  {
    hide Mul, Add, Sub;
    MulAdd(Sub(a, b), a, b);
    MulSub(a, a, b);
    MulSub(b, a, b);
    MulCommutes(a, b);
    Telescopes(Mul(a, a), Mul(a, b), Mul(b, b));
  }

  lemma Telescopes(a: Fe, b: Fe, c: Fe)
    ensures Add(Sub(a, b), Sub(b, c)) == Sub(a, c)
  {}

  /** (a + b)^2 = (a - b)^2 + 4 a b */
  lemma SumFromDifference(a: Fe, b: Fe)
    ensures Mul(Add(a, b), Add(a, b)) == Add(Mul(Sub(a, b), Sub(a, b)), Dbl(Dbl(Mul(a, b))))
  {
    hide Mul, Sub, Add;
    SquareOfSum(a, b);
    SquareOfDifference(a, b);
    FourTimes(Add(Mul(a, a), Mul(b, b)), Dbl(Mul(a, b)));
  }

  lemma FourTimes(q: Fe, w: Fe)
    ensures Add(q, w) == Add(Sub(q, w), Dbl(w))
  {}

  /** (a + b)^2 + (a - b)^2 = 2 (a^2 + b^2) */
  lemma SumOfBoth(a: Fe, b: Fe)
    ensures Add(Mul(Add(a, b), Add(a, b)), Mul(Sub(a, b), Sub(a, b))) == Dbl(Add(Mul(a, a), Mul(b, b)))
  {
    hide Mul, Sub, Add;
    SquareOfSum(a, b);
    SquareOfDifference(a, b);
    BothSides(Add(Mul(a, a), Mul(b, b)), Dbl(Mul(a, b)));
  }

  lemma BothSides(q: Fe, w: Fe)
    ensures Add(Add(q, w), Sub(q, w)) == Dbl(q)
  {}

  /** (a + b) (c + d) */
  lemma ProductOfSums(a: Fe, b: Fe, c: Fe, d: Fe)
    ensures Mul(Add(a, b), Add(c, d)) == Add(Add(Mul(a, c), Mul(b, d)), Add(Mul(a, d), Mul(b, c)))
  {
    hide Mul, Add;
    MulAdd(Add(a, b), c, d);
    MulAdd(c, a, b);
    MulAdd(d, a, b);
    Cross(Mul(a, c), Mul(b, c), Mul(a, d), Mul(b, d));
  }

  lemma Cross(a: Fe, b: Fe, c: Fe, d: Fe)
    ensures Add(Add(a, b), Add(c, d)) == Add(Add(a, d), Add(c, b))
  {}

  /** (a - b) (c - d) */
  lemma ProductOfDifferences(a: Fe, b: Fe, c: Fe, d: Fe)
    ensures Mul(Sub(a, b), Sub(c, d)) == Sub(Add(Mul(a, c), Mul(b, d)), Add(Mul(a, d), Mul(b, c)))
  {
    hide Mul, Add, Neg;
    ProductOfSums(a, Neg(b), c, Neg(d));
    MulNeg(a, d);
    MulNeg(c, b);
    MulNeg(Neg(b), d);
    MulNeg(d, b);
    Signs(Add(Mul(a, c), Mul(b, d)), Mul(b, d), Mul(a, d), Mul(b, c));
  }

  lemma Signs(s: Fe, b: Fe, c: Fe, d: Fe)
    ensures Neg(Neg(b)) == b
    ensures Add(s, Add(Neg(c), Neg(d))) == Sub(s, Add(c, d))
  {}
}
