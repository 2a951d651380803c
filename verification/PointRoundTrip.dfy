/** The round trip of points: every point of the curve is encoded as a string that decodes to it, so the strings
    that are accepted are exactly the reduced strings of the curve's y coordinates.  All that is taken as given is
    Fermat's little theorem for 2^255 - 19. */
module PointRoundTrip {
  import opened Wrappers
  import opened Arithmetic
  import opened Bits
  import opened Field25519
  import opened PointCodec
  import opened PointDecoding
  import opened SquareRoots

  // ---------------------------------------------------------------- monomials

  /** v^a x^b */
  function Mono(v: Fe, x: Fe, a: nat, b: nat): Fe { Mul(Pow(v, a), Pow(x, b)) }

  lemma MonoMul(v: Fe, x: Fe, a: nat, b: nat, c: nat, d: nat)
    ensures Mul(Mono(v, x, a, b), Mono(v, x, c, d)) == Mono(v, x, a + c, b + d)
  {
    hide Pow, Mul;
    PowAdd(v, a, c);
    PowAdd(x, b, d);
    MulPairs(Pow(v, a), Pow(x, b), Pow(v, c), Pow(x, d));
  }

  lemma {:induction false} MonoPow(v: Fe, x: Fe, a: nat, b: nat, n: nat)
    ensures Pow(Mono(v, x, a, b), n) == Mono(v, x, a * n, b * n)
    decreases n
  {
    hide Mul, Mono;
    if n == 0 {
      MonoOne(v, x);
    } else {
      MonoPow(v, x, a, b, n - 1);
      MonoMul(v, x, a, b, a * (n - 1), b * (n - 1));
      Distributes(a, n - 1, 1);
      Distributes(b, n - 1, 1);
    }
  }

  lemma MonoOne(v: Fe, x: Fe)
    ensures Mono(v, x, 0, 0) == 1
  {
    hide Mul;
    MulOne(1);
  }

  lemma MonoV(v: Fe, x: Fe, a: nat)
    ensures Mono(v, x, a, 0) == Pow(v, a)
  {
    hide Mul;
    MulOne(Pow(v, a));
  }

  /** u = v x^2 as a monomial. */
  lemma MonoU(v: Fe, x: Fe)
    ensures Mono(v, x, 1, 2) == Mul(v, Mul(x, x))
  {
    hide Mul, Pow;
    PowOne(v);
    PowOne(x);
    PowAdd(x, 1, 1);
  }

  lemma CandidateBase(u: Fe, v: Fe, x: Fe)
    requires u == Mul(v, Mul(x, x))
    ensures var v3 := Mul(Mul(v, v), v);
      v3 == Mono(v, x, 3, 0) && u == Mono(v, x, 1, 2) && Mul(Mul(Mul(v3, v3), v), u) == Mono(v, x, 8, 2)
  {
    hide Mul, Pow, Mono;
    MonoU(v, x);
    MonoV(v, x, 1);
    MonoV(v, x, 3);
    PowOne(v);
    PowAdd(v, 1, 1);
    PowAdd(v, 2, 1);
    MonoMul(v, x, 3, 0, 3, 0);
    MonoMul(v, x, 6, 0, 1, 0);
    MonoMul(v, x, 7, 0, 1, 2);
  }

  /** For u = v x^2 the candidate is a power of x. */
  lemma CandidateOfSquare(u: Fe, v: Fe, x: Fe)
    requires Fermat() && v != 0 && u == Mul(v, Mul(x, x))
    ensures RootCandidate(u, v) == Pow(x, 2 * RootExponent() + 2)
  {
    var e := RootExponent();
    assert PowerIsOne(v);
    hide Fermat, Mul, Pow, Mono, RootExponent;
    Exponents();
    CandidateBase(u, v, x);
    MonoPow(v, x, 8, 2, e);
    MonoMul(v, x, 8 * e, 2 * e, 3, 0);
    MonoMul(v, x, 8 * e + 3, 2 * e, 1, 2);
    assert RootCandidate(u, v) == Mono(v, x, P - 1, 2 * e + 2);
    MonoX(v, x, P - 1, 2 * e + 2);
  }

  lemma MonoX(v: Fe, x: Fe, a: nat, b: nat)
    requires Pow(v, a) == 1
    ensures Mono(v, x, a, b) == Pow(x, b)
  {
    hide Mul, Pow;
    MulOne(Pow(x, b));
  }

  lemma Exponents()
    ensures 8 * RootExponent() + 4 == P - 1
    ensures 4 * RootExponent() + 2 == (P - 1) / 2
  {
    hide Pow2;
    Weights();
    Pow2Add(252, 3);
    Pow2Small();
  }

  // ---------------------------------------------------------------- the root

  /** A power with exponent (p - 1) / 2 is 1 or -1. */
  lemma HalfPower(x: Fe)
    requires Fermat() && x != 0
    ensures Pow(x, (P - 1) / 2) == 1 || Pow(x, (P - 1) / 2) == Neg(1)
  {
    assert PowerIsOne(x);
    hide Fermat, Pow, Neg, Mul;
    var h := Pow(x, (P - 1) / 2);
    PowAdd(x, (P - 1) / 2, (P - 1) / 2);
    MulOne(1);
    SameSquare(h, 1);
  }

  /** For u = v x^2 one of the two roots fits. */
  lemma RootFound(u: Fe, v: Fe, x: Fe)
    requires Fermat() && v != 0 && u == Mul(v, Mul(x, x))
    ensures var r := RootCandidate(u, v); var vxx := Mul(Mul(r, r), v); Sub(vxx, u) == 0 || Add(vxx, u) == 0
  {
    hide Fermat, Mul, Sub, Add, RootCandidate, Pow, RootExponent;
    var h := Pow(x, 4 * RootExponent() + 2);
    CandidateFits(u, v, x);
    Exponents();
    if x == 0 {
      MulZero(0);
      MulZero(v);
      MulZero(h);
      SignTimes(1, 0);
      MulZero(1);
    } else {
      HalfPower(x);
      SignTimes(h, u);
    }
  }

  lemma CandidateFits(u: Fe, v: Fe, x: Fe)
    requires Fermat() && v != 0 && u == Mul(v, Mul(x, x))
    ensures var r := RootCandidate(u, v); Mul(Mul(r, r), v) == Mul(Pow(x, 4 * RootExponent() + 2), u)
  {
    hide Fermat, Mul, RootCandidate, Pow, RootExponent;
    var e := RootExponent();
    CandidateOfSquare(u, v, x);
    PowAdd(x, 2 * e + 2, 2 * e + 2);
    PowAdd(x, 4 * e + 2, 2);
    PowOne(x);
    PowAdd(x, 1, 1);
    MulAssociates(Pow(x, 4 * e + 2), Mul(x, x), v);
    MulCommutes(Mul(x, x), v);
  }

  lemma SignTimes(h: Fe, u: Fe)
    requires h == 1 || h == Neg(1)
    ensures Sub(Mul(h, u), u) == 0 || Add(Mul(h, u), u) == 0
  {
    hide Mul;
    MulOne(u);
    MulNeg(u, 1);
  }

  // ---------------------------------------------------------------- points

  /** From the equation of the curve to v x^2 = u. */
  lemma FromCurve(p: Point)
    requires OnCurve(p)
    ensures Numerator(p.y) == Mul(Denominator(p.y), Mul(p.x, p.x))
  {
    hide OnCurve, Mul;
    CurveEquation(p);
    MulCommutes(Mul(p.x, p.x), Denominator(p.y));
  }

  /** The denominator is never zero on the curve. */
  lemma DenominatorOnCurve(p: Point)
    requires OnCurve(p)
    ensures Denominator(p.y) != 0
  {
    hide OnCurve, Mul;
    FromCurve(p);
    MulZero(Mul(p.x, p.x));
    MulOne(D);
  }

  lemma RootOnCurve(p: Point)
    requires Fermat() && OnCurve(p)
    ensures RootOf(p.y).ok
  {
    hide Fermat, OnCurve, RootCandidate, Numerator, Denominator, Mul, Sub, Add;
    FromCurve(p);
    DenominatorOnCurve(p);
    RootFound(Numerator(p.y), Denominator(p.y), p.x);
  }

  /** The root that is found is x or -x. */
  lemma RootIs(p: Point)
    requires Fermat() && OnCurve(p)
    ensures RootOf(p.y).x == p.x || RootOf(p.y).x == Neg(p.x)
  {
    hide Fermat, OnCurve, RootOf, Numerator, Denominator, Mul, Neg;
    var v, z := Denominator(p.y), RootOf(p.y).x;
    RootOnCurve(p);
    RootFits(p.y);
    FromCurve(p);
    DenominatorOnCurve(p);
    MulCommutes(v, Mul(z, z));
    Cancel(v, Mul(z, z), Mul(p.x, p.x));
    SameSquare(z, p.x);
  }

  /** Of x and -x the sign picks x. */
  lemma SignPicks(z: Fe, x: Fe)
    requires z == x || z == Neg(x)
    ensures WithSign(z, x % 2) == x
  {
    hide Neg;
    NegFlips(x);
    NegFlips(z);
  }

  /** Encoding a point of the curve and decoding it gives the point back. */
  lemma RoundTrip(p: Point)
    requires Fermat() && OnCurve(p)
    ensures StringToPoint(ToBytes(p)) == Some(p)
  {
    hide Fermat, OnCurve, RootOf, WithSign, ToBytes, YOf, SignOf, Rem;
    EncodedParts(p);
    RemSmall(p.y);
    RootOnCurve(p);
    RootIs(p);
    SignPicks(RootOf(p.y).x, p.x);
  }

  /** A string is accepted if and only if it is reduced and the curve has a point with its y. */
  lemma AcceptedExactly(s: String32)
    requires Fermat()
    ensures StringToPoint(s).Some? <==> Canonical(s) && exists x: Fe :: OnCurve(Point(x, YOf(s)))
  {
    hide Fermat, OnCurve, RootOf, WithSign, YOf, SignOf, Rem;
    if Canonical(s) {
      RemSmall(YOf(s));
      if StringToPoint(s).Some? {
        DecodedOnCurve(s);
        assert OnCurve(Point(FromBytes(s).point.x, YOf(s)));
      }
      if x: Fe :| OnCurve(Point(x, YOf(s))) {
        RootOnCurve(Point(x, YOf(s)));
      }
    }
  }

  /** Different points of the curve are encoded differently. */
  lemma EncodedDifferently(p: Point, q: Point)
    requires Fermat() && OnCurve(p) && OnCurve(q) && ToBytes(p) == ToBytes(q)
    ensures p == q
  {
    hide Fermat, OnCurve, StringToPoint, ToBytes;
    RoundTrip(p);
    RoundTrip(q);
  }
}
