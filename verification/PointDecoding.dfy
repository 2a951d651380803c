/** Decoding and encoding of points: `ge25519_frombytes` and `ge25519_p3_tobytes`, and which strings are accepted. */
module PointDecoding {
  import opened Wrappers
  import opened Bits
  import opened Bytes
  import opened WordCodec
  import opened Field25519
  import opened PointCodec

  datatype Point = Point(x: Fe, y: Fe)

  /** The constant of the curve -x^2 + y^2 = 1 + D x^2 y^2. */
  const D: Fe := 37095705934669439343138083508754565189542113879843219016388785533085940283555

  const SQRT_M1: Fe := 19681161376707505956807079304988542015446066515923890162744021073123829784752

  lemma SqrtOfMinusOne()
    ensures Mul(SQRT_M1, SQRT_M1) == Neg(1)
  {
    hide Mul;
    MulBy(SQRT_M1, SQRT_M1, 6690407189080634018507799843845558368979872843924222843531373839242004886244, P - 1);
  }

  predicate OnCurve(p: Point) {
    Sub(Mul(p.y, p.y), Mul(p.x, p.x)) == Add(1, Mul(D, Mul(Mul(p.x, p.x), Mul(p.y, p.y))))
  }

  // ---------------------------------------------------------------- decoding

  /** x^2 is `Numerator / Denominator`. */
  function Numerator(y: Fe): Fe { Sub(Mul(y, y), 1) }

  function Denominator(y: Fe): Fe { Add(Mul(Mul(y, y), D), 1) }

  /** u v^3 (u v^7)^((p - 5) / 8), a square root of u / v up to a factor sqrt(-1), if there is one. */
  function RootCandidate(u: Fe, v: Fe): Fe {
    var v3 := Mul(Mul(v, v), v);
    Mul(Mul(Pow(Mul(Mul(Mul(v3, v3), v), u), RootExponent()), v3), u)
  }

  datatype Root = Root(ok: bool, x: Fe)

  /** The root, or the root times sqrt(-1), whichever fits. */
  function RootOf(y: Fe): Root {
    var u, v := Numerator(y), Denominator(y);
    var x := RootCandidate(u, v);
    var vxx := Mul(Mul(x, x), v);
    var mRoot, pRoot := Sub(vxx, u) == 0, Add(vxx, u) == 0;
    Root(mRoot || pRoot, if mRoot then x else Mul(x, SQRT_M1))
  }

  /** The one of x and -x that has the sign asked for. */
  function WithSign(x: Fe, sign: nat): Fe { if x % 2 != sign then Neg(x) else x }

  datatype Decoded = Decoded(ok: bool, point: Point)

  /** What `ge25519_frombytes` answers; it leaves a point behind even when it fails. */
  function FromBytes(s: String32): Decoded {
    var y := Rem(YOf(s));
    var root := RootOf(y);
    Decoded(root.ok, Point(WithSign(root.x, SignOf(s)), y))
  }

  /** `ge25519_frombytes`, step by step. */
  method DecodePoint(s: String32) returns (ok: bool, p: Point)
    ensures Decoded(ok, p) == FromBytes(s)
  {
    hide Mul, Add, Sub, Neg, Pow, RootExponent, YOf, SignOf;
    var y := Rem(YOf(s));
    var u := Mul(y, y);
    var v := Mul(u, D);
    u := Sub(u, 1);
    v := Add(v, 1);
    var v3 := Mul(v, v);
    v3 := Mul(v3, v);
    var x := Mul(v3, v3);
    x := Mul(x, v);
    x := Mul(x, u);
    x := Pow22523(x);
    x := Mul(x, v3);
    x := Mul(x, u);
    var vxx := Mul(x, x);
    vxx := Mul(vxx, v);
    var hasMRoot := Sub(vxx, u) == 0;
    var hasPRoot := Add(vxx, u) == 0;
    if !hasMRoot {
      x := Mul(x, SQRT_M1);
    }
    if x % 2 != SignOf(s) {
      x := Neg(x);
    }
    return hasMRoot || hasPRoot, Point(x, y);
  }

  // ---------------------------------------------------------------- what is decoded lies on the curve

  /** A root satisfies v x^2 = u. */
  lemma RootFits(y: Fe)
    requires RootOf(y).ok
    ensures var x := RootOf(y).x; Mul(Mul(x, x), Denominator(y)) == Numerator(y)
  {
    hide RootCandidate, Numerator, Denominator, Mul, Sub, Add;
    RootFitsFor(RootCandidate(Numerator(y), Denominator(y)), Numerator(y), Denominator(y));
  }

  lemma RootFitsFor(x: Fe, u: Fe, v: Fe)
    requires var vxx := Mul(Mul(x, x), v); Sub(vxx, u) == 0 || Add(vxx, u) == 0
    ensures var vxx := Mul(Mul(x, x), v);
      var r := if Sub(vxx, u) == 0 then x else Mul(x, SQRT_M1);
      Mul(Mul(r, r), v) == u
  {
    hide Mul;
    TimesSqrt(x, v);
  }

  /** Multiplying a root by sqrt(-1) changes the sign of v x^2. */
  lemma TimesSqrt(x: Fe, v: Fe)
    ensures var r := Mul(x, SQRT_M1); Mul(Mul(r, r), v) == Neg(Mul(Mul(x, x), v))
  {
    hide Mul, Neg;
    MulPairs(x, SQRT_M1, x, SQRT_M1);
    SqrtOfMinusOne();
    MulNeg(Mul(x, x), 1);
    MulOne(Mul(x, x));
    MulNeg(v, Mul(x, x));
  }

  lemma NegSquare(x: Fe)
    ensures Mul(Neg(x), Neg(x)) == Mul(x, x)
  {
    hide Mul;
    MulNeg(Neg(x), x);
    MulNeg(x, x);
  }

  /** The equation of the curve, solved for x^2. */
  lemma CurveEquation(p: Point)
    ensures OnCurve(p) <==> Mul(Mul(p.x, p.x), Denominator(p.y)) == Numerator(p.y)
  {
    hide Mul;
    var xx, yy := Mul(p.x, p.x), Mul(p.y, p.y);
    MulAdd(xx, Mul(yy, D), 1);
    MulOne(xx);
    MulAssociates(xx, yy, D);
    MulCommutes(Mul(xx, yy), D);
  }

  /** Every accepted string decodes to a point of the curve. */
  lemma DecodedOnCurve(s: String32)
    requires FromBytes(s).ok
    ensures OnCurve(FromBytes(s).point)
  {
    hide Rem, RootOf, OnCurve, Neg, Mul, Denominator, Numerator, YOf, SignOf;
    var y := Rem(YOf(s));
    var x := RootOf(y).x;
    RootFits(y);
    NegSquare(x);
    CurveEquation(FromBytes(s).point);
  }

  // ---------------------------------------------------------------- encoding

  /** `ge25519_p3_tobytes` of a point in affine coordinates. */
  function ToBytes(p: Point): String32 {
    var s := Digits(32, p.y);
    TopByteFits(s[31], p.x % 2);
    s[31 := Xor(s[31], Shl(8, p.x % 2, 7))]
  }

  lemma TopByteFits(b: Byte, sign: nat)
    requires sign < 2
    ensures Xor(b, Shl(8, sign, 7)) < 256
  {
    hide Bitwise, Shl;
    SignShift(sign);
    ByteBits(XorOp, b, Shl(8, sign, 7));
  }

  lemma SignShift(sign: nat)
    requires sign < 2
    ensures Shl(8, sign, 7) == 128 * sign
  {
    hide Shl, Pow2;
    ShlValue(8, sign, 7);
    Pow2Small();
    Pow2Byte();
    SmallRemainder(sign * 128, 256);
  }

  lemma XorIsAdd(k: nat, a: nat, c: nat)
    requires a < Pow2(k)
    ensures Xor(a, Pow2(k) * c) == a + Pow2(k) * c
  {
    hide Bitwise, Pow2;
    BitwiseSplit(XorOp, k, a, 0, 0, c);
    OrZero(a);
    OrZero(c);
    assert Pow2(k) * 0 == 0;
  }

  /** The encoding holds y and the sign of x. */
  lemma EncodedParts(p: Point)
    ensures YOf(ToBytes(p)) == p.y && SignOf(ToBytes(p)) == p.x % 2
    ensures Canonical(ToBytes(p))
  {
    hide Bitwise, Shl, Pow2, Digits, LittleEndian, TopByte;
    Weights();
    Width();
    ValueOfDigits(32, p.y);
    var s: String32 := Digits(32, p.y);
    StringValue(s);
    assert SignOf(s) == 0 && YOf(s) == p.y;
    SignShift(p.x % 2);
    Pow2Small();
    XorIsAdd(7, s[31], p.x % 2);
    var t := ToBytes(p);
    assert t[31] == s[31] + 128 * (p.x % 2) && t[..31] == s[..31];
  }

  lemma Width()
    ensures Pow2(8 * 32) == 2 * TOP
  {
    hide Pow2;
    Weights();
    Pow2Add(255, 1);
    Pow2Small();
  }

  lemma NegFlips(x: Fe)
    ensures x == 0 ==> Neg(x) == 0
    ensures x != 0 ==> Neg(x) == P - x && Neg(x) % 2 == 1 - x % 2
  {}

  // ---------------------------------------------------------------- strings that are accepted

  /** `_vrf_ietfdraft03_string_to_point` */
  function StringToPoint(s: String32): Option<Point> {
    if Canonical(s) && FromBytes(s).ok then Some(FromBytes(s).point) else None
  }

  /** The same string with the other sign. */
  function FlipSign(s: String32): String32 {
    s[31 := if s[31] < 128 then s[31] + 128 else s[31] - 128]
  }

  lemma FlippedParts(s: String32)
    ensures YOf(FlipSign(s)) == YOf(s) && SignOf(FlipSign(s)) == 1 - SignOf(s)
  {
    hide LittleEndian, TopByte;
    assert FlipSign(s)[..31] == s[..31];
  }

  lemma SameSign(s: String32, t: String32)
    requires YOf(s) == YOf(t)
    ensures s == t || t == FlipSign(s)
  {
    hide YOf, SignOf, FlipSign;
    StringValue(s);
    StringValue(t);
    FlippedParts(s);
    if SignOf(s) == SignOf(t) {
      PartsDetermine(s, t);
    } else {
      PartsDetermine(t, FlipSign(s));
    }
  }

  lemma CandidateOfZero(v: Fe)
    ensures RootCandidate(0, v) == 0
  {
    hide Pow, Mul, RootExponent;
    var v3 := Mul(Mul(v, v), v);
    MulZero(Mul(Pow(Mul(Mul(Mul(v3, v3), v), 0), RootExponent()), v3));
  }
}
