/** What the list of `ge25519_has_small_order` means: the keys on it are exactly the keys whose point vanishes when
    it is multiplied by the cofactor 8. */
module SmallOrderPoints {
  import opened Bits
  import opened Bytes
  import opened Field25519
  import opened PointCodec
  import opened PointDecoding
  import opened SquareRoots
  import opened PointRoundTrip
  import opened RingLaws
  import opened CurveGroup
  import opened EdwardsLaw
  import opened ScalarMult
  import opened SmallOrder

  // ---------------------------------------------------------------- doubling

  lemma NoProduct(p: Point)
    requires p.x == 0 || p.y == 0
    ensures DXY(p) == 0 && Mul(p.x, p.y) == 0
    ensures p.x == 0 ==> XX(p) == 0
    ensures p.y == 0 ==> YY(p) == 0
  {
    hide Mul;
    MulZero(p.x);
    MulZero(p.y);
    MulZero(XX(p));
    MulZero(YY(p));
    MulZero(D);
  }

  /** On the y axis only (0, 1) and (0, -1) lie; both double to (0, 1). */
  lemma DoubleOnAxis(p: Point, r: Point)
    requires OnCurve(p) && IsSum(p, p, r) && p.x == 0
    ensures r == IDENTITY && YY(p) == 1
  {
    hide OnCurve, IsSum, Mul, XX, YY, DXY;
    NoProduct(p);
    CurveIs(p);
    DoubleIs(p, r);
    MulOne(r.x);
    MulOne(r.y);
  }

  /** A point with y = 0 doubles to (0, -1). */
  lemma DoubleOfZeroY(p: Point, r: Point)
    requires OnCurve(p) && IsSum(p, p, r) && p.y == 0
    ensures r == Point(0, P - 1)
  {
    hide OnCurve, IsSum, Mul, XX, YY, DXY;
    NoProduct(p);
    CurveIs(p);
    DoubleIs(p, r);
    MulOne(r.x);
    MulOne(r.y);
  }

  // ---------------------------------------------------------------- order 8

  /** The y coordinate of two points of order 8; that of the two others is its negative. */
  const Y8: Fe := 2707385501144840649318225287225658788936804267575313519463743609750303402022

  /** Its square. */
  const R8: Fe := 53699909539325142115343624207863611371097067213659596252119297355370707899025

  lemma SquareOfY8()
    ensures Mul(Y8, Y8) == R8
  {
    hide Mul;
    MulBy(Y8, Y8, 126605129937444622316634316459935399931596535544872276249844836469001780991, R8);
  }

  /** x^2 = -y^2 for y = Y8. */
  lemma MinusR8()
    ensures Sub(R8, 1) == Mul(Add(Mul(R8, D), 1), Neg(R8)) && Add(Mul(R8, D), 1) != 0
    ensures Sub(1, Mul(D, Mul(Neg(R8), R8))) != 0
  {
    hide Mul;
    var v: Fe := 29211135797516667952872944588131720012451054005016861071534465705161565118763;
    MulBy(R8, D, 34407118242878794844916510981901335002661975199651782961829597630709676773037, v - 1);
    MulBy(v, P - R8, 2117137231644605118484515174889013201488145791873732482984543498966550471412, R8 - 1);
    var n: Fe := 37574248808768634654756308212349840507303815106345119498473694100031447970254;
    var t: Fe := 49503774459992186518901755911383268815559142094498910484509802706784850978100;
    MulBy(P - R8, R8, 3892011546888146353423901825772513412294271658838731164041487788285828128454, n);
    MulBy(D, n, 24074931089109191676487498616653229470409719285709514494628875968372031023630, t);
  }

  /** d r^2 + 2 r = 1 */
  predicate IsRoot(d: Fe, r: Fe) { Add(Mul(d, Mul(r, r)), Add(r, r)) == 1 }

  lemma RootR8()
    ensures IsRoot(D, R8)
  {
    hide Mul;
    var n: Fe := 20321795809889463057029184291994113419331177226475162521255097903925116849695;
    var t: Fe := 8392270158665911192883736592960685111075850238321371535218989297171713841849;
    MulBy(R8, R8, 49807897992436995761919722382091097958802795554820865088077809567084879770570, n);
    MulBy(D, n, 13020774845560247666650584892101335719132394594133704521759909564713909259924, t);
  }

  lemma SquareIsR8(y: Fe)
    requires Fermat()
    ensures Mul(y, y) == R8 <==> y == Y8 || y == P - Y8
  {
    hide Fermat, Mul;
    SquareOfY8();
    NegSquare(Y8);
    if Mul(y, y) == R8 {
      SameSquare(y, Y8);
    }
  }

  /** A point with y = Y8 or y = -Y8 doubles to a point with y = 0. */
  lemma DoubleOfOrder8(p: Point, r: Point)
    requires Fermat() && OnCurve(p) && IsSum(p, p, r) && YY(p) == R8
    ensures r.y == 0
  {
    hide Fermat, OnCurve, IsSum, Mul, Sub;
    FromCurve(p);
    MinusR8();
    Cancel(Add(Mul(R8, D), 1), XX(p), Neg(R8));
    DoubleIs(p, r);
    assert Add(YY(p), XX(p)) == 0;
    NoZeroDivisors(r.y, Sub(1, DXY(p)));
  }

  // ---------------------------------------------------------------- halving

  lemma TwiceIsZero(m: Fe)
    requires Add(m, m) == 0
    ensures m == 0
  {}

  /** When a double has x = 0, the point has x = 0 or y = 0. */
  lemma HalfOfAxis(p: Point, r: Point)
    requires Fermat() && IsSum(p, p, r) && r.x == 0
    ensures p.x == 0 || p.y == 0
  {
    hide Fermat, IsSum, Mul, Add, DXY;
    DoubleIs(p, r);
    MulZero(Add(1, DXY(p)));
    TwiceIsZero(Mul(p.x, p.y));
    NoZeroDivisors(p.x, p.y);
  }

  /** Only points with y = 1 or y = -1 double to (0, 1), and these have x = 0. */
  lemma HalfOfIdentity(p: Point, r: Point)
    requires Fermat() && OnCurve(p) && IsSum(p, p, r) && r == IDENTITY
    ensures p.x == 0 && (p.y == 1 || p.y == P - 1)
  {
    hide Fermat, OnCurve, IsSum, Mul;
    HalfOfAxis(p, r);
    if p.y == 0 {
      DoubleOfZeroY(p, r);
    }
    DoubleOnAxis(p, r);
    SquareIsOne(p.y);
  }

  /** Only points with y = 0 double to (0, -1). */
  lemma HalfOfMinusOne(p: Point, r: Point)
    requires Fermat() && OnCurve(p) && IsSum(p, p, r) && r == Point(0, P - 1)
    ensures p.y == 0
  {
    hide Fermat, OnCurve, IsSum;
    HalfOfAxis(p, r);
    if p.x == 0 {
      DoubleOnAxis(p, r);
    }
  }

  /** Only points with y = Y8 or y = -Y8 double to a point with y = 0. */
  lemma HalfOfZeroY(p: Point, r: Point)
    requires Fermat() && OnCurve(p) && IsSum(p, p, r) && r.y == 0
    ensures p.y == Y8 || p.y == P - Y8
  {
    hide Fermat, OnCurve, IsSum, Mul, Add, Sub, Neg, IsRoot, XX, DXY;
    DoubleIs(p, r);
    MulZero(Sub(1, DXY(p)));
    CurveIs(p);
    QuarticOf(p);
    var b := YY(p);
    RootR8();
    RootsOfQuartic(D, R8, b);
    if b != R8 {
      SquareOfY8();
      var k := SecondRoot(D, Y8, R8, p.y, b);
      NotSquare(k);
    }
    SquareIsR8(p.y);
  }

  /** x^2 = -y^2 turns the equation of the curve into one for r = y^2: D r^2 + 2 r = 1. */
  lemma QuarticOf(p: Point)
    requires Add(YY(p), XX(p)) == 0 && Sub(YY(p), XX(p)) == Add(1, DXY(p))
    ensures IsRoot(D, YY(p))
  {
    hide Mul, XX, YY;
    var b := YY(p);
    assert XX(p) == Neg(b);
    MulNeg(b, b);
    MulNeg(D, Mul(b, b));
  }

  /** Two roots of d r^2 + 2 r = 1 are equal or have the sum -2 / d. */
  lemma RootsOfQuartic(d: Fe, r: Fe, b: Fe)
    requires Fermat() && IsRoot(d, r) && IsRoot(d, b)
    ensures b == r || Add(Mul(d, Add(b, r)), 2) == 0
  {
    hide Fermat, Mul;
    FactorRoots(d, r, b);
    NoZeroDivisors(Sub(b, r), Add(Mul(d, Add(b, r)), 2));
  }

  lemma FactorRoots(d: Fe, r: Fe, b: Fe)
    requires IsRoot(d, r) && IsRoot(d, b)
    ensures Mul(Sub(b, r), Add(Mul(d, Add(b, r)), 2)) == 0
  {
    hide Mul, Add, Sub;
    var f, s := Sub(b, r), Add(b, r);
    MulAdd(f, Mul(d, s), 2);
    MulAssociates(f, d, s);
    MulCommutes(f, d);
    MulAssociates(d, f, s);
    DifferenceOfSquares(b, r);
    MulSub(d, Mul(b, b), Mul(r, r));
    MulTwo(f);
    DifferenceOfSums(Mul(d, Mul(b, b)), Mul(d, Mul(r, r)), b, r);
  }

  lemma MulTwo(a: Fe)
    ensures Mul(a, 2) == Add(a, a)
  {
    hide Mul;
    assert Add(1, 1) == 2;
    MulAdd(a, 1, 1);
    MulOne(a);
  }

  lemma DifferenceOfSums(m: Fe, n: Fe, b: Fe, r: Fe)
    requires Add(m, Add(b, b)) == 1 && Add(n, Add(r, r)) == 1
    ensures Add(Sub(m, n), Add(Sub(b, r), Sub(b, r))) == 0
  {}

  /** Let r be a square and a root.  If the other root is a square, d is one. */
  lemma SecondRoot(d: Fe, z: Fe, r: Fe, y: Fe, b: Fe) returns (k: Fe)
    requires Fermat() && r == Mul(z, z) && b == Mul(y, y)
    requires IsRoot(d, r) && Add(Mul(d, Add(b, r)), 2) == 0
    ensures Mul(k, k) == d
  {
    hide Fermat, Mul, Add, IsRoot;
    var w := Mul(y, z);
    ProductOfRoots(d, r, b);
    MulPairs(y, z, y, z);
    MulZero(d);
    MulZero(0);
    assert w != 0;
    var c := InverseOf(w);
    SqrtOfMinusOne();
    SquareOf(d, w, c, SQRT_M1);
    k := Mul(SQRT_M1, c);
  }

  /** The product of the roots is -1 / d. */
  lemma ProductOfRoots(d: Fe, r: Fe, b: Fe)
    requires IsRoot(d, r) && Add(Mul(d, Add(b, r)), 2) == 0
    ensures Mul(d, Mul(b, r)) == Neg(1)
  {
    hide Mul;
    MulAdd(r, Mul(d, Add(b, r)), 2);
    MulZero(r);
    MulTwo(r);
    MulCommutes(r, Mul(d, Add(b, r)));
    MulAssociates(d, Add(b, r), r);
    MulAdd(r, b, r);
    MulAdd(d, Mul(b, r), Mul(r, r));
  }

  // ---------------------------------------------------------------- eight times a point

  /** The y coordinates of the points that vanish when multiplied by 8. */
  predicate SmallY(y: Fe) { y == 0 || y == 1 || y == P - 1 || y == Y8 || y == P - Y8 }

  lemma Doubles(g: Group, n: int, p: Point)
    requires Lawful(g) && Edwards(g) && g.member(p)
    ensures var q := Times(g, n, p); OnCurve(q) && IsSum(q, q, Times(g, 2 * n, p))
  {
    hide Lawful, Times, OnCurve, IsSum;
    TimesMember(g, n, p);
    Twice(g, n, p);
    var q := Times(g, n, p);
    assert MembersLaw(g, q) && AdditionLaw(g, q, q);
  }

  lemma VanishesFromSmallY(g: Group, p: Point)
    requires Lawful(g) && Edwards(g) && Fermat() && g.member(p) && SmallY(p.y)
    ensures Times(g, 8, p) == IDENTITY
  {
    hide Lawful, Edwards, Fermat, Times, OnCurve, IsSum, Mul;
    TimesOne(g, p);
    Doubles(g, 1, p);
    Doubles(g, 2, p);
    Doubles(g, 4, p);
    var p2, p4, p8 := Times(g, 2, p), Times(g, 4, p), Times(g, 8, p);
    SquareIsOne(p.y);
    SquareIsR8(p.y);
    if YY(p) == R8 {
      DoubleOfOrder8(p, p2);
      DoubleOfZeroY(p2, p4);
      DoubleOnAxis(p4, p8);
    } else if p.y == 0 {
      DoubleOfZeroY(p, p2);
      DoubleOnAxis(p2, p4);
      DoubleOnAxis(p4, p8);
    } else {
      OnAxis(p);
      DoubleOnAxis(p, p2);
      DoubleOnAxis(p2, p4);
      DoubleOnAxis(p4, p8);
    }
  }

  /** y^2 = 1 only on the y axis. */
  lemma OnAxis(p: Point)
    requires Fermat() && OnCurve(p) && YY(p) == 1
    ensures p.x == 0
  {
    hide Fermat, OnCurve, Mul;
    FromCurve(p);
    DenominatorOnCurve(p);
    assert Numerator(p.y) == 0;
    NoZeroDivisors(Denominator(p.y), Mul(p.x, p.x));
    NoZeroDivisors(p.x, p.x);
  }

  lemma SmallYFromVanishing(g: Group, p: Point)
    requires Lawful(g) && Edwards(g) && Fermat() && g.member(p) && Times(g, 8, p) == IDENTITY
    ensures SmallY(p.y)
  {
    hide Lawful, Edwards, Fermat, Times, OnCurve, IsSum;
    TimesOne(g, p);
    Doubles(g, 1, p);
    Doubles(g, 2, p);
    Doubles(g, 4, p);
    var p2, p4, p8 := Times(g, 2, p), Times(g, 4, p), Times(g, 8, p);
    HalfOfIdentity(p4, p8);
    if p4.y == 1 {
      HalfOfIdentity(p2, p4);
      if p2.y == 1 {
        HalfOfIdentity(p, p2);
      } else {
        HalfOfMinusOne(p, p2);
      }
    } else {
      HalfOfMinusOne(p2, p4);
      HalfOfZeroY(p, p2);
    }
  }

  // ---------------------------------------------------------------- the list

  function Four(a: int, b: int, c: int, d: int): int { a + 256 * (b + 256 * (c + 256 * d)) }

  lemma FourBytes(s: seq<Byte>)
    requires |s| == 4
    ensures LittleEndian(s) == Four(s[0], s[1], s[2], s[3])
  {
    assert LittleEndian(s) == s[0] + 256 * LittleEndian(s[1..]);
    assert LittleEndian(s[1..]) == s[1] + 256 * LittleEndian(s[1..][1..]);
    assert s[1..][1..] == s[2..];
    assert LittleEndian(s[2..]) == s[2] + 256 * LittleEndian(s[2..][1..]);
    assert s[2..][1..] == s[3..];
    assert LittleEndian(s[3..]) == s[3] + 256 * LittleEndian(s[3..][1..]);
    assert s[3..][1..] == [];
  }

  /** Four bytes of a string as a number. */
  function Word(s: String32, k: nat): int
    requires k <= 28
  {
    Four(s[k], s[k + 1], s[k + 2], s[k + 3])
  }

  lemma NextWord(s: String32, k: nat)
    requires k <= 28
    ensures LittleEndian(s[k..]) == Word(s, k) + 0x1_0000_0000 * LittleEndian(s[k + 4..])
  {
    hide LittleEndian, Pow2, Four;
    var t := s[k..];
    FourBytes(t[..4]);
    LittleEndianAppend(t[..4], t[4..]);
    assert t == t[..4] + t[4..] && t[4..] == s[k + 4..];
    Pow2Words();
  }

  /** Bytes 0 to 15 and bytes 16 to 31 as numbers. */
  function LowWords(s: String32): int {
    Word(s, 0) + 0x1_0000_0000 * (Word(s, 4) + 0x1_0000_0000 * (Word(s, 8) + 0x1_0000_0000 * Word(s, 12)))
  }

  function HighWords(s: String32): int {
    Word(s, 16) + 0x1_0000_0000 * (Word(s, 20) + 0x1_0000_0000 * (Word(s, 24) + 0x1_0000_0000 * Word(s, 28)))
  }

  function EightWords(s: String32): int {
    LowWords(s) + 0x1_0000_0000_0000_0000_0000_0000_0000_0000 * HighWords(s)
  }

  lemma ValueOfWords(s: String32)
    ensures LittleEndian(s) == EightWords(s)
  {
    assert s[32..] == [] && LittleEndian([]) == 0 && s[0..] == s;
    hide LittleEndian, Word;
    NextWord(s, 0);
    NextWord(s, 4);
    NextWord(s, 8);
    NextWord(s, 12);
    NextWord(s, 16);
    NextWord(s, 20);
    NextWord(s, 24);
    NextWord(s, 28);
  }

  // The y coordinates that the list spells.

  lemma ZeroLow()
    ensures LowWords(ZERO_STRING) == 0x0
  {}

  lemma ZeroHigh()
    ensures HighWords(ZERO_STRING) == 0x0
  {}

  lemma ZeroEntry()
    ensures EightWords(ZERO_STRING) == 0
  {
    hide LowWords, HighWords;
    ZeroLow();
    ZeroHigh();
  }

  lemma OneLow()
    ensures LowWords(ONE_STRING) == 0x1
  {}

  lemma OneHigh()
    ensures HighWords(ONE_STRING) == 0x0
  {}

  lemma OneEntry()
    ensures EightWords(ONE_STRING) == 1
  {
    hide LowWords, HighWords;
    OneLow();
    OneHigh();
  }

  lemma Order8Low()
    ensures LowWords(ORDER_8_STRING) == 0xf098eff289f4c345b027b2c28f95e826
  {}

  lemma Order8High()
    ensures HighWords(ORDER_8_STRING) == 0x5fc536d880238b13933c6d305acdfd5
  {}

  lemma Order8Entry()
    ensures EightWords(ORDER_8_STRING) == Y8
  {
    hide LowWords, HighWords;
    Order8Low();
    Order8High();
  }

  lemma MinusOrder8Low()
    ensures LowWords(MINUS_ORDER_8_STRING) == 0xf67100d760b3cba4fd84d3d706a17c7
  {}

  lemma MinusOrder8High()
    ensures HighWords(MINUS_ORDER_8_STRING) == 0x7a03ac9277fdc74ec6cc392cfa53202a
  {}

  lemma MinusOrder8Entry()
    ensures EightWords(MINUS_ORDER_8_STRING) == P - Y8
  {
    hide LowWords, HighWords;
    MinusOrder8Low();
    MinusOrder8High();
  }

  lemma MinusOneLow()
    ensures LowWords(MINUS_ONE_STRING) == 0xffffffffffffffffffffffffffffffec
  {}

  lemma MinusOneHigh()
    ensures HighWords(MINUS_ONE_STRING) == 0x7fffffffffffffffffffffffffffffff
  {}

  lemma MinusOneEntry()
    ensures EightWords(MINUS_ONE_STRING) == P - 1
  {
    hide LowWords, HighWords;
    MinusOneLow();
    MinusOneHigh();
  }

  lemma PLow()
    ensures LowWords(P_STRING) == 0xffffffffffffffffffffffffffffffed
  {}

  lemma PHigh()
    ensures HighWords(P_STRING) == 0x7fffffffffffffffffffffffffffffff
  {}

  lemma PEntry()
    ensures EightWords(P_STRING) == P
  {
    hide LowWords, HighWords;
    PLow();
    PHigh();
  }

  lemma PPlus1Low()
    ensures LowWords(P_PLUS_1_STRING) == 0xffffffffffffffffffffffffffffffee
  {}

  lemma PPlus1High()
    ensures HighWords(P_PLUS_1_STRING) == 0x7fffffffffffffffffffffffffffffff
  {}

  lemma PPlus1Entry()
    ensures EightWords(P_PLUS_1_STRING) == P + 1
  {
    hide LowWords, HighWords;
    PPlus1Low();
    PPlus1High();
  }

  lemma Listed(t: String32)
    ensures t in BLACKLIST <==>
      t == ZERO_STRING || t == ONE_STRING || t == ORDER_8_STRING || t == MINUS_ORDER_8_STRING
      || t == MINUS_ONE_STRING || t == P_STRING || t == P_PLUS_1_STRING
  {
    assert BLACKLIST[0] == ZERO_STRING && BLACKLIST[1] == ONE_STRING && BLACKLIST[2] == ORDER_8_STRING;
    assert BLACKLIST[3] == MINUS_ORDER_8_STRING && BLACKLIST[4] == MINUS_ONE_STRING;
    assert BLACKLIST[5] == P_STRING && BLACKLIST[6] == P_PLUS_1_STRING;
  }

  lemma UnsignedIs(s: String32, t: String32, v: int)
    requires EightWords(t) == v
    ensures Unsigned(s) == t <==> YOf(s) == v
  {
    hide LittleEndian, EightWords;
    ValueOfWords(t);
    var u := Unsigned(s);
    assert u[..31] == s[..31] && u[31] == s[31] % 128;
    StringValue(u);
    hide YOf, SignOf, Unsigned;
    if YOf(s) == v {
      LittleEndianInjective(u, t);
    }
  }

  predicate ListedValue(v: int) {
    v == 0 || v == 1 || v == Y8 || v == P - Y8 || v == P - 1 || v == P || v == P + 1
  }

  lemma ListedExactly(s: String32)
    ensures HasSmallOrder(s) <==> ListedValue(YOf(s))
  {
    hide EightWords, Unsigned, YOf;
    Listed(Unsigned(s));
    ZeroEntry();
    OneEntry();
    Order8Entry();
    MinusOrder8Entry();
    MinusOneEntry();
    PEntry();
    PPlus1Entry();
    UnsignedIs(s, ZERO_STRING, 0);
    UnsignedIs(s, ONE_STRING, 1);
    UnsignedIs(s, ORDER_8_STRING, Y8);
    UnsignedIs(s, MINUS_ORDER_8_STRING, P - Y8);
    UnsignedIs(s, MINUS_ONE_STRING, P - 1);
    UnsignedIs(s, P_STRING, P);
    UnsignedIs(s, P_PLUS_1_STRING, P + 1);
  }

  /** Reduced or not, the listed numbers are those of the small y coordinates. */
  lemma ListedIsSmall(v: nat)
    requires v < TOP
    ensures ListedValue(v) <==> SmallY(Rem(v))
  {
    if v < P {
      RemSmall(v);
    } else {
      RemShift(v - P, 1);
      RemSmall(v - P);
    }
  }

  /** A key on the list vanishes when it is multiplied by 8. */
  lemma ListedVanishes(g: Group, s: String32)
    requires Lawful(g) && Edwards(g) && Fermat() && FromBytes(s).ok && HasSmallOrder(s)
    ensures Times(g, 8, FromBytes(s).point) == IDENTITY
  {
    hide Lawful, Edwards, Fermat, Times, OnCurve, IsSum, YOf, SignOf, Rem, RootOf, HasSmallOrder, SmallY, ListedValue;
    ListedExactly(s);
    StringValue(s);
    ListedIsSmall(YOf(s));
    DecodedOnCurve(s);
    MembersAreOnCurve(g, FromBytes(s).point);
    VanishesFromSmallY(g, FromBytes(s).point);
  }

  /** Of the strings that decode, exactly those on the list vanish when they are multiplied by 8. */
  lemma SmallOrderExactly(g: Group, s: String32)
    requires Lawful(g) && Edwards(g) && Fermat() && FromBytes(s).ok
    ensures HasSmallOrder(s) <==> Times(g, 8, FromBytes(s).point) == IDENTITY
  {
    hide Lawful, Edwards, Fermat, Times, OnCurve, IsSum, YOf, SignOf, Rem, RootOf, HasSmallOrder, SmallY,
      ListedValue;
    DecodedOnCurve(s);
    MembersAreOnCurve(g, FromBytes(s).point);
    if HasSmallOrder(s) {
      ListedVanishes(g, s);
    }
    if Times(g, 8, FromBytes(s).point) == IDENTITY {
      SmallYFromVanishing(g, FromBytes(s).point);
      StringValue(s);
      ListedIsSmall(YOf(s));
      ListedExactly(s);
    }
  }
}
