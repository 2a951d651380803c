/** `ge25519_from_uniform` of external/VRF_functions/ed25519_ref10.cpp, step by step: the call of `abort` in it is never
    reached, and its result is eight times the point that Elligator 2 finds. */
module FromUniform {
  import opened Wrappers
  import opened Bits
  import opened Bytes
  import opened Field25519
  import opened PointCodec
  import opened PointDecoding
  import opened RingLaws
  import opened SquareRoots
  import opened PointRoundTrip
  import opened CurveGroup
  import opened EdwardsClosure
  import opened EdwardsAssociative
  import opened Projective
  import opened PointMult
  import opened Elligator

  // ---------------------------------------------------------------- `chi25519`

  /** `chi25519`: a chain of squarings and multiplications that raises `z` to (p - 1) / 2. */
  method Chi25519(z: Fe) returns (out: Fe)
    ensures out == Chi(z)
  {
    hide Pow, Mul, Ones, Pow2;
    PowOne(z);
    PowAdd(z, 1, 1);
    PowAdd(z, 2, 1);
    PowAdd(z, 3, 3);
    PowAdd(z, 6, 6);
    PowAdd(z, 12, 12);
    PowAdd(z, 24, 6);
    PowAdd(z, 30, 1);
    var t0 := Mul(z, z);
    var t1 := Mul(t0, z);
    t0 := Mul(t1, t1);
    var t2 := Mul(t0, t0);
    t2 := Mul(t2, t2);
    t2 := Mul(t2, t0);
    t1 := Mul(t2, z);
    ThirtyOne();
    t1 := Extend(z, 5, t1, 5, t1);
    t2 := Extend(z, 10, t1, 10, t1);
    t2 := Extend(z, 20, t2, 20, t2);
    t1 := Extend(z, 40, t2, 10, t1);
    t2 := Extend(z, 50, t1, 50, t1);
    t2 := Extend(z, 100, t2, 100, t2);
    t1 := Extend(z, 200, t2, 50, t1);
    t1 := Squarings(z, Ones(250), t1, 4);
    ChiExponent();
    PowAdd(z, Ones(250) * Pow2(4), 6);
    out := Mul(t1, t0);
  }

  lemma ChiExponent()
    ensures Ones(250) * Pow2(4) + 6 == HALF
  {
    hide Pow2;
    Weights();
    Pow2Add(250, 5);
    Pow2Byte();
    Pow2Small();
    assert (Pow2(250) - 1) * 16 == Pow2(250) * 16 - 16;
  }

  lemma SecondDigit(x: nat)
    ensures Digits(32, x)[1] == x / 256 % 256
  {
    var d := Digits(32, x);
    assert d[1..] == Digits(31, x / 256);
    assert d[1] == d[1..][0];
  }

  lemma BytesOfSigns()
    ensures 0 / 256 % 256 == 0 && 1 / 256 % 256 == 0 && Neg(1) / 256 % 256 == 255
  {}

  /** Bit 8 of the encoding tells -1 from 0 and 1. */
  lemma SecondByte(e: Fe)
    requires e == 0 || e == 1 || e == Neg(1)
    ensures And(Digits(32, e)[1], 1) == if e == Neg(1) then 1 else 0
  {
    BytesOfSigns();
    hide *;
    SecondDigit(e);
    LowBit(Digits(32, e)[1]);
  }

  // ---------------------------------------------------------------- the string

  lemma TopBitOf(b: Byte)
    ensures And(b, 0x80) == 128 * (b / 128)
  {
    hide Bitwise, Pow2;
    Pow2Small();
    BitwiseSplit(AndOp, 7, b % 128, 0, b / 128, 1);
    AndZero(b % 128);
    LowBit(b / 128);
  }

  lemma OrIsAdd(a: nat, c: nat)
    requires a < 128
    ensures Or(a, 128 * c) == a + 128 * c
  {
    hide Bitwise, Pow2;
    Pow2Small();
    BitwiseSplit(OrOp, 7, a, 0, 0, c);
    OrZero(a);
    OrZero(c);
  }

  /** The string that is decoded: y with the sign bit of `r`. */
  lemma SignedString(y: Fe, sign: nat, s: String32)
    requires sign < 2 && s == Digits(32, y)
    ensures s[31] < 128 && Or(s[31], 128 * sign) == s[31] + 128 * sign
    ensures var t: String32 := s[31 := s[31] + 128 * sign]; YOf(t) == y && SignOf(t) == sign
  {
    hide Bitwise, Pow2, Digits, LittleEndian, TopByte;
    Weights();
    Width();
    ValueOfDigits(32, y);
    StringValue(s);
    assert SignOf(s) == 0 && YOf(s) == y;
    OrIsAdd(s[31], sign);
    var t: String32 := s[31 := s[31] + 128 * sign];
    assert t[..31] == s[..31];
  }

  // ---------------------------------------------------------------- the point

  /** The y coordinate that Elligator 2 finds for a string. */
  function UniformY(r: String32): Fe { EdwardsY(ChosenU(Rem(YOf(r)))) }

  /** The point with this y and the sign bit of the string. */
  function UniformPoint(r: String32): Point { Point(WithSign(RootOf(UniformY(r)).x, SignOf(r)), UniformY(r)) }

  /** The point exists, whatever the string is. */
  lemma UniformOnCurve(r: String32)
    requires Fermat()
    ensures RootOf(UniformY(r)).ok && OnCurve(UniformPoint(r))
  {
    hide Fermat, OnCurve, RootOf, UniformY, Denominator, Numerator, Mul, Neg;
    var y := UniformY(r);
    var x := UniformX(r);
    RootOnCurve(Point(x, y));
    RootFits(y);
    NegSquare(RootOf(y).x);
    CurveEquation(UniformPoint(r));
  }

  lemma UniformX(r: String32) returns (x: Fe)
    requires Fermat()
    ensures OnCurve(Point(x, UniformY(r)))
  {
    hide Fermat, OnCurve, EdwardsY, ChosenU, YOf, Rem;
    x := ElligatorOnCurve(Rem(YOf(r)));
  }

  /** The number that is mapped is the low 255 bits of the string, reduced, and the parity of x is its top bit. */
  lemma UniformParts(r: String32)
    ensures UniformPoint(r).y == EdwardsY(ChosenU(LittleEndian(r) % Pow2(255) % P))
    ensures UniformPoint(r).x == 0 || UniformPoint(r).x % 2 == LittleEndian(r) / Pow2(255)
  {
    hide LittleEndian, Pow2, YOf, SignOf, Rem, EdwardsY, ChosenU, RootOf;
    Weights();
    StringValue(r);
    RemainderIs(LittleEndian(r), TOP, SignOf(r), YOf(r));
    RemIsRemainder(YOf(r));
    SignedX(RootOf(UniformY(r)).x, SignOf(r));
  }

  lemma SignedX(x: Fe, sign: nat)
    requires sign < 2
    ensures WithSign(x, sign) == 0 || WithSign(x, sign) % 2 == sign
  {
    NegFlips(x);
  }

  /** What `ge25519_from_uniform` computes. */
  ghost function Mapped(r: String32): String32 { ToBytes(Times(CURVE, 8, UniformPoint(r))) }

  /** The first half: from a number to the y coordinate. */
  method ElligatorY(r: Fe) returns (y: Fe)
    requires Fermat()
    ensures y == EdwardsY(ChosenU(r))
  {
    hide Fermat, Mul, Add, Sub, Neg, Pow, Digits, Bitwise;
    var rr2 := Dbl(Mul(r, r));
    rr2 := Add(rr2, 1);
    rr2 := Invert(rr2);
    var x := Mul(A, rr2);
    x := Neg(x);
    var x2 := Mul(x, x);
    var x3 := Mul(x, x2);
    var e := Add(x3, x);
    x2 := Mul(x2, A);
    e := Add(x2, e);
    assert e == Cubic(FirstU(r));
    Euler(e);
    e := Chi25519(e);
    SecondByte(e);
    var eIsMinus1 := And(Digits(32, e)[1], 1);
    var negx := Neg(x);
    if eIsMinus1 == 1 {
      x := negx;
    }
    x2 := if eIsMinus1 == 1 then A else 0;
    x := Sub(x, x2);
    SubZero(FirstU(r));
    var inverse := Invert(Add(x, 1));
    y := Mul(Sub(x, 1), inverse);
  }

  lemma SubZero(a: Fe)
    ensures Sub(a, 0) == a
  {}

  /** `ge25519_from_uniform`; `aborted` says whether it calls `abort`. */
  method MapUniform(r: String32) returns (aborted: bool, s: String32)
    requires Fermat()
    ensures !aborted
    ensures s == Mapped(r)
  {
    hide Fermat, Bitwise, YOf, Rem, Digits, EdwardsY, ChosenU, RootOf, WithSign, OnCurve, Times, ToBytes, OfP3, OfP2;
    TopBitOf(r[31]);
    MaskLow7(r[31]);
    var xSign := And(r[31], 0x80);
    s := r[31 := And(r[31], 0x7f)];
    ClearedParts(r);
    var y := ElligatorY(Rem(YOf(s)));
    s := Digits(32, y);
    SignedString(y, SignOf(r), s);
    s := s[31 := Or(s[31], xSign)];
    UniformOnCurve(r);
    RemSmall(y);
    var ok, p3 := P3FromBytes(s);
    aborted := !ok;
    ghost var p := UniformPoint(r);
    TimesOneOnCurve(p);
    var p2 := P3ToP2(p3, p);
    p3 := TimesEight(p2, 1, p);
    s := P3ToBytes(p3, Times(CURVE, 8, p));
  }

  lemma ClearedParts(r: String32)
    ensures YOf(r[31 := r[31] % 128]) == YOf(r)
  {
    hide LittleEndian, TopByte;
    var s: String32 := r[31 := r[31] % 128];
    assert s[..31] == r[..31];
  }

  lemma TimesOneOnCurve(p: Point)
    requires Fermat() && OnCurve(p)
    ensures Times(CURVE, 1, p) == p
  {
    hide Fermat, OnCurve, Lawful, Times;
    CurveIsLawful();
    TimesOne(CURVE, p);
  }

  /** The result decodes, to eight times the point that was found. */
  lemma MappedDecodes(r: String32)
    requires Fermat()
    ensures StringToPoint(Mapped(r)) == Some(Times(CURVE, 8, UniformPoint(r)))
    ensures OnCurve(Times(CURVE, 8, UniformPoint(r)))
  {
    hide Fermat, OnCurve, Times, UniformPoint, ToBytes, StringToPoint;
    UniformIsOnCurve(r);
    MultipleOnCurve(8, UniformPoint(r));
    RoundTrip(Times(CURVE, 8, UniformPoint(r)));
  }

  lemma UniformIsOnCurve(r: String32)
    requires Fermat()
    ensures OnCurve(UniformPoint(r))
  {
    hide Fermat, OnCurve, UniformPoint, RootOf, UniformY;
    UniformOnCurve(r);
  }
}
