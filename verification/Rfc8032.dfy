/** Where the decoding of points departs from section 5.1.3 of RFC 8032: on two strings and no others. */
module Rfc8032 {
  import opened Wrappers
  import opened Bytes
  import opened Field25519
  import opened PointCodec
  import opened PointDecoding
  import opened SquareRoots
  import opened PointRoundTrip
  import opened SmallOrder
  import opened SmallOrderPoints

  /** Section 5.1.3 of RFC 8032, step by step: y is reduced, x is recovered, a zero x must not have the sign bit, and
      the sign bit chooses between x and -x. */
  function RfcPoint(s: String32): Option<Point> {
    var y, sign := YOf(s), SignOf(s);
    if y >= P then None
    else
      var root := RootOf(y);
      if !root.ok || (root.x == 0 && sign == 1) then None
      else if sign != root.x % 2 then Some(Point(Neg(root.x), y))
      else Some(Point(root.x, y))
  }

  // ---------------------------------------------------------------- when x is zero

  /** A y coordinate whose points have x = 0. */
  predicate OnAxisY(y: nat) { y == 1 || y == P - 1 }

  lemma {:induction false} PowerNotZero(w: Fe, n: nat)
    requires Fermat() && w != 0
    ensures Pow(w, n) != 0
    decreases n
  {
    hide Fermat, Mul;
    if n > 0 {
      PowerNotZero(w, n - 1);
      if Mul(w, Pow(w, n - 1)) == 0 {
        NoZeroDivisors(w, Pow(w, n - 1));
      }
    }
  }

  lemma CandidateNotZero(u: Fe, v: Fe)
    requires Fermat() && u != 0 && v != 0
    ensures RootCandidate(u, v) != 0
  {
    hide Fermat, Mul, Pow, RootExponent;
    var v3 := Mul(Mul(v, v), v);
    ProductNotZero(v, v);
    ProductNotZero(Mul(v, v), v);
    ProductNotZero(v3, v3);
    ProductNotZero(Mul(v3, v3), v);
    var w := Mul(Mul(Mul(v3, v3), v), u);
    ProductNotZero(Mul(Mul(v3, v3), v), u);
    PowerNotZero(w, RootExponent());
    ProductNotZero(Pow(w, RootExponent()), v3);
    ProductNotZero(Mul(Pow(w, RootExponent()), v3), u);
  }

  lemma NumeratorIsZero(y: Fe)
    requires Fermat()
    ensures Numerator(y) == 0 <==> OnAxisY(y)
  {
    hide Fermat, Mul;
    SquareIsOne(y);
  }

  lemma RootOfZero(y: Fe)
    requires Numerator(y) == 0
    ensures RootOf(y) == Root(true, 0)
  {
    hide Mul, RootCandidate, Denominator, Numerator;
    var v := Denominator(y);
    CandidateOfZero(v);
    MulZero(0);
    MulZero(v);
  }

  lemma RootNotZero(y: Fe)
    requires Fermat() && Numerator(y) != 0
    ensures RootOf(y).x != 0
  {
    hide Fermat, Mul, RootCandidate, Denominator, Numerator;
    var x := RootCandidate(Numerator(y), Denominator(y));
    DenominatorNotZero(y);
    CandidateNotZero(Numerator(y), Denominator(y));
    ProductNotZero(x, SQRT_M1);
  }

  /** The x coordinate that a string decodes to is zero if and only if its y coordinate is 1 or -1. */
  lemma ZeroX(s: String32)
    requires Fermat() && Canonical(s)
    ensures FromBytes(s).point.x == 0 <==> OnAxisY(YOf(s))
    ensures OnAxisY(YOf(s)) ==> FromBytes(s) == Decoded(true, Point(0, YOf(s)))
  {
    hide Fermat, RootOf, Numerator, YOf, SignOf, Rem;
    var y := YOf(s);
    RemSmall(y);
    NumeratorIsZero(y);
    if Numerator(y) == 0 {
      RootOfZero(y);
    } else {
      RootNotZero(y);
    }
  }

  // ---------------------------------------------------------------- the two strings

  /** y is 1 or -1 and the sign bit is set. */
  predicate Misread(s: String32) { SignOf(s) == 1 && OnAxisY(YOf(s)) }

  /** There are two such strings. */
  lemma MisreadStrings(s: String32)
    ensures Misread(s) <==> s == FlipSign(ONE_STRING) || s == FlipSign(MINUS_ONE_STRING)
  {
    hide YOf, SignOf, FlipSign;
    OneParts();
    FlippedParts(ONE_STRING);
    FlippedParts(MINUS_ONE_STRING);
    if Misread(s) {
      if YOf(s) == 1 {
        PartsDetermine(s, FlipSign(ONE_STRING));
      } else {
        PartsDetermine(s, FlipSign(MINUS_ONE_STRING));
      }
    }
  }

  lemma OneParts()
    ensures YOf(ONE_STRING) == 1 && SignOf(ONE_STRING) == 0
    ensures YOf(MINUS_ONE_STRING) == P - 1 && SignOf(MINUS_ONE_STRING) == 0
  {
    hide EightWords, YOf, SignOf;
    OneEntry();
    MinusOneEntry();
    LastBytes();
    PartsOfEntry(ONE_STRING, 1);
    PartsOfEntry(MINUS_ONE_STRING, P - 1);
  }

  lemma LastBytes()
    ensures ONE_STRING[31] == 0 && MINUS_ONE_STRING[31] == 0x7f
  {}

  lemma PartsOfEntry(s: String32, v: nat)
    requires EightWords(s) == v && s[31] < 128
    ensures YOf(s) == v && SignOf(s) == 0
  {
    hide EightWords, YOf, LittleEndian;
    ValueOfWords(s);
    StringValue(s);
  }

  /** A string gives back a point with its y, and with its sign if and only if it is neither of the two. */
  lemma DecodedParts(s: String32)
    requires Fermat() && Canonical(s)
    ensures var p := FromBytes(s).point; p.y == YOf(s) && (p.x % 2 == SignOf(s) <==> !Misread(s))
  {
    hide Fermat, RootOf, WithSign, YOf, SignOf, Rem, OnAxisY;
    ZeroX(s);
    RemSmall(YOf(s));
    StringValue(s);
    SignOfChosen(RootOf(YOf(s)).x, SignOf(s));
  }

  lemma SignOfChosen(x: Fe, sign: nat)
    requires sign < 2
    ensures var c := WithSign(x, sign); c % 2 == sign <==> !(c == 0 && sign == 1)
  {
    hide Neg;
    NegFlips(x);
  }

  /** Encoding what a reduced string decodes to gives the string back if and only if it is neither of the two. */
  lemma ReencodesExactly(s: String32)
    requires Fermat() && Canonical(s)
    ensures ToBytes(FromBytes(s).point) == s <==> !Misread(s)
  {
    hide Fermat, FromBytes, ToBytes, YOf, SignOf, Misread;
    var p := FromBytes(s).point;
    DecodedParts(s);
    EncodedParts(p);
    if p.x % 2 == SignOf(s) {
      PartsDetermine(ToBytes(p), s);
    }
  }

  /** The code decodes a string as RFC 8032 does if and only if it is neither of the two, which it accepts and
      RFC 8032 rejects. */
  lemma DiffersFromRfc(s: String32)
    requires Fermat()
    ensures StringToPoint(s) == RfcPoint(s) <==> !Misread(s)
    ensures Misread(s) ==> StringToPoint(s) == Some(Point(0, YOf(s))) && RfcPoint(s) == None
  {
    hide Fermat, YOf, SignOf;
    if Canonical(s) {
      ZeroX(s);
      StringValue(s);
      hide RootOf, Rem, OnAxisY;
      RemSmall(YOf(s));
      NegFlips(RootOf(YOf(s)).x);
    }
  }

  /** RFC 8032 decodes a string to a point if and only if it is the encoding of that point of the curve. */
  lemma RfcInvertsEncoding(s: String32, p: Point)
    requires Fermat()
    ensures RfcPoint(s) == Some(p) <==> OnCurve(p) && ToBytes(p) == s
  {
    hide Fermat, OnCurve, ToBytes, RfcPoint, YOf, SignOf, Misread, FromBytes;
    DiffersFromRfc(s);
    if RfcPoint(s) == Some(p) {
      AcceptedPoint(s);
      ReencodesExactly(s);
    }
    if OnCurve(p) && ToBytes(p) == s {
      RoundTrip(p);
      EncodedParts(p);
      AcceptedPoint(s);
      ReencodesExactly(s);
    }
  }

  lemma AcceptedPoint(s: String32)
    requires StringToPoint(s).Some?
    ensures Canonical(s) && FromBytes(s).ok && FromBytes(s).point == StringToPoint(s).value
    ensures OnCurve(StringToPoint(s).value)
  {
    hide FromBytes, OnCurve, Canonical;
    DecodedOnCurve(s);
  }

  // ---------------------------------------------------------------- when two strings decode to one point

  lemma DecodesOnAxis(s: String32)
    requires OnAxisY(YOf(s))
    ensures StringToPoint(s) == Some(Point(0, YOf(s)))
  {
    SquaresOfOne();
    hide RootOf, Numerator, YOf, SignOf, Rem;
    RemSmall(YOf(s));
    RootOfZero(YOf(s));
    NegFlips(0);
  }

  /** A string with y = 1 or y = -1 decodes to the same point with either sign. */
  lemma FlippedOnAxis(s: String32)
    requires OnAxisY(YOf(s))
    ensures StringToPoint(FlipSign(s)) == StringToPoint(s) == Some(Point(0, YOf(s)))
    ensures FlipSign(s) != s
  {
    hide StringToPoint, YOf, SignOf, FlipSign;
    FlippedParts(s);
    DecodesOnAxis(s);
    DecodesOnAxis(FlipSign(s));
  }

  lemma SquaresOfOne()
    ensures Numerator(1) == 0 && Numerator(P - 1) == 0
  {
    hide Mul;
    MulOne(1);
    NegSquare(1);
  }

  /** Two accepted strings decode to the same point if and only if they are equal, or y is 1 or -1 and they differ
      in the sign bit. */
  lemma DecodingInjective(s: String32, t: String32)
    requires Fermat() && StringToPoint(s).Some? && StringToPoint(t).Some?
    ensures StringToPoint(s) == StringToPoint(t) <==> s == t || (t == FlipSign(s) && OnAxisY(YOf(s)))
  {
    hide Fermat, FromBytes, ToBytes, YOf, SignOf, FlipSign, OnAxisY;
    AcceptedPoint(s);
    AcceptedPoint(t);
    DecodedParts(s);
    DecodedParts(t);
    FlippedParts(s);
    StringValue(s);
    if FromBytes(s).point == FromBytes(t).point {
      SameSign(s, t);
    }
    if t == FlipSign(s) && OnAxisY(YOf(s)) {
      FlippedOnAxis(s);
    }
  }

  /** What `vrf_validate_key` accepts. */
  predicate ValidKey(s: String32) { !HasSmallOrder(s) && StringToPoint(s).Some? }

  lemma ValidNotMisread(s: String32)
    requires ValidKey(s)
    ensures !OnAxisY(YOf(s))
  {
    hide HasSmallOrder, StringToPoint, YOf;
    ListedExactly(s);
  }

  /** Among valid keys decoding is injective, and it is that of RFC 8032. */
  lemma ValidKeysInjective(s: String32, t: String32)
    requires Fermat() && ValidKey(s) && ValidKey(t)
    ensures StringToPoint(s) == StringToPoint(t) <==> s == t
    ensures StringToPoint(s) == RfcPoint(s)
  {
    ValidNotMisread(s);
    hide Fermat, ValidKey, StringToPoint, RfcPoint, YOf, SignOf, FlipSign, OnAxisY;
    ValidIsAccepted(s);
    ValidIsAccepted(t);
    DecodingInjective(s, t);
    DiffersFromRfc(s);
  }

  lemma ValidIsAccepted(s: String32)
    requires ValidKey(s)
    ensures StringToPoint(s).Some?
  {
    hide StringToPoint, HasSmallOrder;
  }
}
