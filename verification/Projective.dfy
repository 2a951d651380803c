/** The formulas of external/VRF_functions/ed25519_ref10.cpp that add and double points without dividing: they compute
    the sum of the Edwards addition law, in the representations that the code passes between them. */
module Projective {
  import opened Wrappers
  import opened Bits
  import opened Field25519
  import opened PointCodec
  import opened PointDecoding
  import opened RingLaws
  import opened SquareRoots
  import opened CurveGroup
  import opened EdwardsLaw
  import opened EdwardsClosure

  /** `ge25519_p3`: x = X / Z, y = Y / Z and x y = T / Z. */
  datatype P3 = P3(X: Fe, Y: Fe, Z: Fe, T: Fe)

  /** `ge25519_p2`: x = X / Z and y = Y / Z. */
  datatype P2 = P2(X: Fe, Y: Fe, Z: Fe)

  /** `ge25519_p1p1`: x = X / Z and y = Y / T. */
  datatype P1P1 = P1P1(X: Fe, Y: Fe, Z: Fe, T: Fe)

  /** `ge25519_cached`: what an addition needs of its second point. */
  datatype Cached = Cached(YplusX: Fe, YminusX: Fe, Z: Fe, T2d: Fe)

  predicate OfP3(q: P3, p: Point) {
    q.Z != 0 && q.X == Mul(p.x, q.Z) && q.Y == Mul(p.y, q.Z) && q.T == Mul(XY(p), q.Z)
  }

  predicate OfP2(q: P2, p: Point) {
    q.Z != 0 && q.X == Mul(p.x, q.Z) && q.Y == Mul(p.y, q.Z)
  }

  predicate OfP1P1(q: P1P1, p: Point) {
    q.Z != 0 && q.T != 0 && q.X == Mul(p.x, q.Z) && q.Y == Mul(p.y, q.T)
  }

  predicate OfCached(q: Cached, p: Point) {
    && q.Z != 0
    && q.YplusX == Mul(Add(p.y, p.x), q.Z) && q.YminusX == Mul(Sub(p.y, p.x), q.Z)
    && q.T2d == Mul(Mul(XY(p), q.Z), Dbl(D))
  }

  // ---------------------------------------------------------------- between the representations

  /** `ge25519_p3_to_cached` */
  method P3ToCached(q: P3, ghost p: Point) returns (r: Cached)
    requires OfP3(q, p)
    ensures OfCached(r, p)
  {
    hide Mul, Add, Sub, Dbl;
    MulAdd(q.Z, p.y, p.x);
    MulSub(q.Z, p.y, p.x);
    r := Cached(Add(q.Y, q.X), Sub(q.Y, q.X), q.Z, Mul(q.T, Dbl(D)));
  }

  /** `ge25519_p1p1_to_p3` */
  method P1P1ToP3(q: P1P1, ghost p: Point) returns (r: P3)
    requires Fermat() && OfP1P1(q, p)
    ensures OfP3(r, p)
  {
    hide Fermat, Mul;
    MulAssociates(p.x, q.Z, q.T);
    MulCommutes(q.Z, q.T);
    MulAssociates(p.y, q.T, q.Z);
    MulPairs(p.x, q.Z, p.y, q.T);
    ProductNotZero(q.Z, q.T);
    r := P3(Mul(q.X, q.T), Mul(q.Y, q.Z), Mul(q.Z, q.T), Mul(q.X, q.Y));
  }

  /** `ge25519_p1p1_to_p2` */
  method P1P1ToP2(q: P1P1, ghost p: Point) returns (r: P2)
    requires Fermat() && OfP1P1(q, p)
    ensures OfP2(r, p)
  {
    hide Fermat, Mul;
    MulAssociates(p.x, q.Z, q.T);
    MulCommutes(q.Z, q.T);
    MulAssociates(p.y, q.T, q.Z);
    ProductNotZero(q.Z, q.T);
    r := P2(Mul(q.X, q.T), Mul(q.Y, q.Z), Mul(q.Z, q.T));
  }

  // ---------------------------------------------------------------- addition

  /** E - F = 2 A and E + F = 2 B, where E = (y1 + x1) (y2 + x2) and F = (y1 - x1) (y2 - x2). */
  lemma SumsOfProducts(p: Point, q: Point)
    ensures var e, f := Mul(Add(p.y, p.x), Add(q.y, q.x)), Mul(Sub(p.y, p.x), Sub(q.y, q.x));
      Sub(e, f) == Dbl(SumX(p, q)) && Add(e, f) == Dbl(SumY(p, q))
  {
    hide Mul, Add, Sub, Dbl;
    ProductOfSums(p.y, p.x, q.y, q.x);
    ProductOfDifferences(p.y, p.x, q.y, q.x);
    MulCommutes(p.y, q.x);
    SwapSum(Mul(q.x, p.y), Mul(p.x, q.y));
    HalfSums(SumY(p, q), SumX(p, q));
  }

  lemma HalfSums(b: Fe, a: Fe)
    ensures Sub(Add(b, a), Sub(b, a)) == Dbl(a) && Add(Add(b, a), Sub(b, a)) == Dbl(b)
  {}

  /** What the formula computes, with z = Z1 Z2. */
  lemma AddFormula(p: Point, q: Point, r: Point, z: Fe)
    requires Fermat() && OnCurve(p) && OnCurve(q) && IsSum(p, q, r) && z != 0
    ensures var t, z2 := Cross4(p, q), Dbl(z);
      && Mul(z2, Add(1, t)) != 0 && Mul(z2, Sub(1, t)) != 0
      && Mul(Dbl(SumX(p, q)), z) == Mul(r.x, Mul(z2, Add(1, t)))
      && Mul(Dbl(SumY(p, q)), z) == Mul(r.y, Mul(z2, Sub(1, t)))
  {
    var t, z2 := Cross4(p, q), Dbl(z);
    NeverVanishes(p, q);
    var u, v := Add(1, t), Sub(1, t);
    assert u != 0 && v != 0 && z2 != 0;
    assert Mul(r.x, u) == SumX(p, q) && Mul(r.y, v) == SumY(p, q) by {
      hide Mul, Add, Sub, Cross4;
    }
    hide Fermat, Mul, Add, Sub, Dbl, Cross4, OnCurve, IsSum;
    ProductNotZero(z2, u);
    ProductNotZero(z2, v);
    Scaled(r.x, u, SumX(p, q), z);
    Scaled(r.y, v, SumY(p, q), z);
  }

  lemma Scaled(x: Fe, u: Fe, a: Fe, z: Fe)
    requires Mul(x, u) == a
    ensures Mul(Dbl(a), z) == Mul(x, Mul(Dbl(z), u))
  {
    hide Mul, Add, Dbl;
    MulDbl(z, a);
    MulDbl(a, z);
    MulCommutes(Dbl(z), u);
    MulAssociates(x, u, Dbl(z));
  }

  /** The pieces of the formula: what `r.Z`, `r.Y` and `r.T` hold before they are combined. */
  lemma AddPieces(p: P3, a: Point, q: Cached, b: Point)
    requires OfP3(p, a) && OfCached(q, b)
    ensures var z := Mul(p.Z, q.Z);
      && Mul(Add(p.Y, p.X), q.YplusX) == Mul(Mul(Add(a.y, a.x), Add(b.y, b.x)), z)
      && Mul(Sub(p.Y, p.X), q.YminusX) == Mul(Mul(Sub(a.y, a.x), Sub(b.y, b.x)), z)
      && Mul(q.T2d, p.T) == Mul(Dbl(z), Cross4(a, b))
  {
    hide Mul, Add, Sub, Dbl, Cross4, XY;
    MulAdd(p.Z, a.y, a.x);
    MulSub(p.Z, a.y, a.x);
    MulPairs(Add(a.y, a.x), p.Z, Add(b.y, b.x), q.Z);
    MulPairs(Sub(a.y, a.x), p.Z, Sub(b.y, b.x), q.Z);
    CrossPiece(XY(a), p.Z, XY(b), q.Z);
    Cross4Is(a, b);
  }

  lemma CrossPiece(m: Fe, z1: Fe, n: Fe, z2: Fe)
    ensures Mul(Mul(Mul(n, z2), Dbl(D)), Mul(m, z1)) == Mul(Dbl(Mul(z1, z2)), Mul(D, Mul(m, n)))
  {
    hide Mul, Add, Dbl;
    var k, w := Mul(m, n), Mul(z1, z2);
    MulCommutes(Mul(Mul(n, z2), Dbl(D)), Mul(m, z1));
    MulAssociates(Mul(m, z1), Mul(n, z2), Dbl(D));
    MulPairs(m, z1, n, z2);
    MulDbl(Mul(k, w), D);
    MulCommutes(k, w);
    MulAssociates(w, k, D);
    MulCommutes(k, D);
    MulDbl(Mul(D, k), w);
  }

  /** `ge25519_add` */
  method GeAdd(p: P3, q: Cached, ghost a: Point, ghost b: Point, ghost c: Point) returns (r: P1P1)
    requires Fermat() && OnCurve(a) && OnCurve(b) && IsSum(a, b, c) && OfP3(p, a) && OfCached(q, b)
    ensures OfP1P1(r, c)
  {
    hide Fermat, Mul, Add, Sub, OnCurve, IsSum, Cross4, SumX, SumY;
    var X := Add(p.Y, p.X);
    var Y := Sub(p.Y, p.X);
    var Z := Mul(X, q.YplusX);
    Y := Mul(Y, q.YminusX);
    var T := Mul(q.T2d, p.T);
    X := Mul(p.Z, q.Z);
    ghost var z := X;
    var t0 := Add(X, X);
    X := Sub(Z, Y);
    Y := Add(Z, Y);
    AddPieces(p, a, q, b);
    ProductNotZero(p.Z, q.Z);
    CombineAdd(a, b, c, z);
    Z, T := Add(t0, T), Sub(t0, T);
    r := P1P1(X, Y, Z, T);
  }

  lemma CombineAdd(a: Point, b: Point, c: Point, z: Fe)
    requires Fermat() && OnCurve(a) && OnCurve(b) && IsSum(a, b, c) && z != 0
    ensures var e, f := Mul(Mul(Add(a.y, a.x), Add(b.y, b.x)), z), Mul(Mul(Sub(a.y, a.x), Sub(b.y, b.x)), z);
      var t0, t := Add(z, z), Mul(Dbl(z), Cross4(a, b));
      OfP1P1(P1P1(Sub(e, f), Add(e, f), Add(t0, t), Sub(t0, t)), c)
  {
    hide Fermat, Mul, Add, Sub, OnCurve, IsSum, Cross4, SumX, SumY;
    var e, f := Mul(Add(a.y, a.x), Add(b.y, b.x)), Mul(Sub(a.y, a.x), Sub(b.y, b.x));
    MulSub(z, e, f);
    MulAdd(z, e, f);
    SumsOfProducts(a, b);
    AddFormula(a, b, c, z);
    MulAdd(Dbl(z), 1, Cross4(a, b));
    MulSub(Dbl(z), 1, Cross4(a, b));
    MulOne(Dbl(z));
  }

  /** What a subtraction uses of its second point: the negative point. */
  function Negated(q: Cached): Cached { Cached(q.YminusX, q.YplusX, q.Z, Neg(q.T2d)) }

  lemma NegatedIs(q: Cached, b: Point)
    requires OfCached(q, b)
    ensures OfCached(Negated(q), Inverse(b))
  {
    NegSums(b.y, b.x);
    hide Mul, Add, Sub, Neg, Dbl;
    MulNeg(b.y, b.x);
    MulNeg(q.Z, XY(b));
    MulNeg(Dbl(D), Mul(XY(b), q.Z));
  }

  lemma NegSums(y: Fe, x: Fe)
    ensures Sub(y, x) == Add(y, Neg(x)) && Add(y, x) == Sub(y, Neg(x))
  {}

  /** `ge25519_sub`, as in s B - c Y. */
  method GeSub(p: P3, q: Cached, ghost a: Point, ghost b: Point, ghost c: Point) returns (r: P1P1)
    requires Fermat() && OnCurve(a) && OnCurve(b) && IsSum(a, Inverse(b), c) && OfP3(p, a) && OfCached(q, b)
    ensures OfP1P1(r, c)
  {
    hide Fermat, Mul, Add, Sub, Neg, OnCurve, IsSum, Cross4, SumX, SumY, Inverse;
    var X := Add(p.Y, p.X);
    var Y := Sub(p.Y, p.X);
    var Z := Mul(X, q.YminusX);
    Y := Mul(Y, q.YplusX);
    var T := Mul(q.T2d, p.T);
    X := Mul(p.Z, q.Z);
    ghost var z := X;
    var t0 := Add(X, X);
    X := Sub(Z, Y);
    Y := Add(Z, Y);
    NegatedIs(q, b);
    InverseOnCurve(b);
    AddPieces(p, a, Negated(q), Inverse(b));
    ProductNotZero(p.Z, q.Z);
    CombineAdd(a, Inverse(b), c, z);
    MulNeg(p.T, q.T2d);
    SwapSigns(t0, T);
    Z, T := Sub(t0, T), Add(t0, T);
    r := P1P1(X, Y, Z, T);
  }

  lemma SwapSigns(t0: Fe, t: Fe)
    ensures Add(t0, Neg(t)) == Sub(t0, t) && Sub(t0, Neg(t)) == Add(t0, t)
  {}

  /** `ge25519_precomp`: a point with Z = 1. */
  datatype Precomp = Precomp(yplusx: Fe, yminusx: Fe, xy2d: Fe)

  predicate OfPrecomp(q: Precomp, p: Point) {
    q.yplusx == Add(p.y, p.x) && q.yminusx == Sub(p.y, p.x) && q.xy2d == Mul(XY(p), Dbl(D))
  }

  lemma PrecompIsCached(q: Precomp, p: Point)
    requires OfPrecomp(q, p)
    ensures OfCached(Cached(q.yplusx, q.yminusx, 1, q.xy2d), p)
  {
    hide Mul, Add, Sub, Dbl;
    MulOne(q.yplusx);
    MulOne(q.yminusx);
    MulOne(XY(p));
  }

  /** `ge25519_madd` */
  method GeMadd(p: P3, q: Precomp, ghost a: Point, ghost b: Point, ghost c: Point) returns (r: P1P1)
    requires Fermat() && OnCurve(a) && OnCurve(b) && IsSum(a, b, c) && OfP3(p, a) && OfPrecomp(q, b)
    ensures OfP1P1(r, c)
  {
    hide Fermat, Mul, Add, Sub, OnCurve, IsSum, Cross4, SumX, SumY;
    var X := Add(p.Y, p.X);
    var Y := Sub(p.Y, p.X);
    var Z := Mul(X, q.yplusx);
    Y := Mul(Y, q.yminusx);
    var T := Mul(q.xy2d, p.T);
    var t0 := Add(p.Z, p.Z);
    X := Sub(Z, Y);
    Y := Add(Z, Y);
    PrecompIsCached(q, b);
    AddPieces(p, a, Cached(q.yplusx, q.yminusx, 1, q.xy2d), b);
    MulOne(p.Z);
    CombineAdd(a, b, c, p.Z);
    Z, T := Add(t0, T), Sub(t0, T);
    r := P1P1(X, Y, Z, T);
  }

  // ---------------------------------------------------------------- doubling

  /** The squares of X, Y and Z, and of X + Y. */
  lemma DoublePieces(q: P2, p: Point)
    requires OfP2(q, p)
    ensures var w := Mul(q.Z, q.Z);
      && Mul(q.X, q.X) == Mul(XX(p), w) && Mul(q.Y, q.Y) == Mul(YY(p), w)
      && Mul(Add(q.X, q.Y), Add(q.X, q.Y)) == Add(Add(Mul(q.X, q.X), Mul(q.Y, q.Y)), Mul(Dbl(XY(p)), w))
  {
    hide Mul, Add, Dbl;
    var w := Mul(q.Z, q.Z);
    MulPairs(p.x, q.Z, p.x, q.Z);
    MulPairs(p.y, q.Z, p.y, q.Z);
    SquareOfSum(q.X, q.Y);
    MulPairs(p.x, q.Z, p.y, q.Z);
    MulDbl(w, XY(p));
  }

  /** `ge25519_p2_dbl` */
  method P2Dbl(q: P2, ghost p: Point, ghost c: Point) returns (r: P1P1)
    requires Fermat() && OnCurve(p) && IsSum(p, p, c) && OfP2(q, p)
    ensures OfP1P1(r, c)
  {
    hide Fermat, Mul, Add, Sub, OnCurve, IsSum, Dbl;
    var X := Mul(q.X, q.X);
    var Z := Mul(q.Y, q.Y);
    var T := Dbl(Mul(q.Z, q.Z));
    var Y := Add(q.X, q.Y);
    var t0 := Mul(Y, Y);
    ghost var x2, y2 := X, Z;
    Y := Add(Z, X);
    Z := Sub(Z, X);
    X := Sub(t0, Y);
    DoublePieces(q, p);
    ProductNotZero(q.Z, q.Z);
    CombineDouble(p, c, Mul(q.Z, q.Z));
    TakeAway(x2, y2, Mul(Dbl(XY(p)), Mul(q.Z, q.Z)));
    T := Sub(T, Z);
    r := P1P1(X, Y, Z, T);
  }

  lemma TakeAway(a: Fe, b: Fe, c: Fe)
    ensures Sub(Add(Add(a, b), c), Add(b, a)) == c
  {}

  lemma CombineDouble(p: Point, c: Point, w: Fe)
    requires Fermat() && OnCurve(p) && IsSum(p, p, c) && w != 0
    ensures var x2, y2 := Mul(XX(p), w), Mul(YY(p), w);
      OfP1P1(P1P1(Mul(Dbl(XY(p)), w), Add(y2, x2), Sub(y2, x2), Sub(Dbl(w), Sub(y2, x2))), c)
  {
    hide Fermat, OnCurve, Mul;
    var u, v := Add(1, DXY(p)), Sub(1, DXY(p));
    NeverVanishes(p, p);
    assert Cross4(p, p) == DXY(p);
    assert u != 0 && v != 0;
    CurveIs(p);
    DoubleIs(p, c);
    TwoLess(w, DXY(p));
    hide Add, Sub, Dbl, DXY, IsSum, Cross4;
    MulSub(w, YY(p), XX(p));
    MulAdd(w, YY(p), XX(p));
    ProductNotZero(u, w);
    ProductNotZero(v, w);
    MulAssociates(c.x, u, w);
    MulAssociates(c.y, v, w);
  }

  /** 2 w - (1 + d) w = (1 - d) w */
  lemma TwoLess(w: Fe, d: Fe)
    ensures Sub(Dbl(w), Mul(Add(1, d), w)) == Mul(Sub(1, d), w)
  {
    hide Mul, Add, Sub;
    MulAdd(w, 1, d);
    MulSub(w, 1, d);
    MulOne(w);
    LessOnce(w, Mul(d, w));
  }

  lemma LessOnce(w: Fe, d: Fe)
    ensures Sub(Dbl(w), Add(w, d)) == Sub(w, d)
  {}

  // ---------------------------------------------------------------- whole operations

  /** Adding as `multiply_by_cofactor` does: through the cached form and back. */
  method AddP3(p: P3, q: P3, ghost a: Point, ghost b: Point) returns (r: P3)
    requires Fermat() && OnCurve(a) && OnCurve(b) && OfP3(p, a) && OfP3(q, b)
    ensures OfP3(r, EdwardsAdd(a, b)) && OnCurve(EdwardsAdd(a, b))
  {
    hide Fermat, OnCurve, IsSum, EdwardsAdd, OfP3, OfCached, OfP1P1;
    AddIsSum(a, b);
    SumOnCurve(a, b, EdwardsAdd(a, b));
    var cached := P3ToCached(q, b);
    var sum := GeAdd(p, cached, a, b, EdwardsAdd(a, b));
    r := P1P1ToP3(sum, EdwardsAdd(a, b));
  }

  /** Subtracting as `vrf_verify` does. */
  method SubP3(p: P3, q: P3, ghost a: Point, ghost b: Point) returns (r: P3)
    requires Fermat() && OnCurve(a) && OnCurve(b) && OfP3(p, a) && OfP3(q, b)
    ensures OfP3(r, EdwardsAdd(a, Inverse(b))) && OnCurve(EdwardsAdd(a, Inverse(b)))
  {
    hide Fermat, OnCurve, IsSum, EdwardsAdd, OfP3, OfCached, OfP1P1, Inverse;
    InverseOnCurve(b);
    AddIsSum(a, Inverse(b));
    SumOnCurve(a, Inverse(b), EdwardsAdd(a, Inverse(b)));
    var cached := P3ToCached(q, b);
    var difference := GeSub(p, cached, a, b, EdwardsAdd(a, Inverse(b)));
    r := P1P1ToP3(difference, EdwardsAdd(a, Inverse(b)));
  }

  // ---------------------------------------------------------------- decoding

  lemma AffineIs(p: Point)
    ensures OfP3(P3(p.x, p.y, 1, Mul(p.x, p.y)), p)
  {
    hide Mul;
    MulOne(p.x);
    MulOne(p.y);
    MulOne(XY(p));
  }

  /** `ge25519_frombytes` with the coordinates that it fills in. */
  method P3FromBytes(s: String32) returns (ok: bool, q: P3)
    ensures ok == FromBytes(s).ok && OfP3(q, FromBytes(s).point)
  {
    hide Mul, FromBytes, OfP3;
    var p;
    ok, p := DecodePoint(s);
    AffineIs(p);
    q := P3(p.x, p.y, 1, Mul(p.x, p.y));
  }

  /** `_vrf_ietfdraft03_string_to_point` with the coordinates that it fills in. */
  method P3FromString(s: String32) returns (ok: bool, q: P3)
    ensures ok <==> StringToPoint(s).Some?
    ensures ok ==> OfP3(q, StringToPoint(s).value)
  {
    hide Mul, FromBytes, OfP3, Canonical;
    var canonical := IsCanonical(s);
    if canonical == 0 {
      return false, P3(0, 0, 0, 0);
    }
    ok, q := P3FromBytes(s);
  }

  // ---------------------------------------------------------------- encoding

  /** `fe25519_invert`: a chain of squarings and multiplications that raises `z` to p - 2. */
  method Invert(z: Fe) returns (out: Fe)
    ensures out == Pow(z, P - 2)
  {
    hide Pow, Mul, Ones, Pow2;
    PowOne(z);
    PowAdd(z, 1, 1);
    PowAdd(z, 2, 2);
    PowAdd(z, 4, 4);
    PowAdd(z, 1, 8);
    PowAdd(z, 2, 9);
    PowAdd(z, 11, 11);
    PowAdd(z, 9, 22);
    var t0 := Mul(z, z);
    var t1 := Mul(t0, t0);
    t1 := Mul(t1, t1);
    t1 := Mul(z, t1);
    t0 := Mul(t0, t1);
    var t2 := Mul(t0, t0);
    t1 := Mul(t1, t2);
    ThirtyOne();
    t1 := Extend(z, 5, t1, 5, t1);
    t2 := Extend(z, 10, t1, 10, t1);
    t2 := Extend(z, 20, t2, 20, t2);
    t1 := Extend(z, 40, t2, 10, t1);
    t2 := Extend(z, 50, t1, 50, t1);
    t2 := Extend(z, 100, t2, 100, t2);
    t1 := Extend(z, 200, t2, 50, t1);
    t1 := Squarings(z, Ones(250), t1, 5);
    InverseExponent();
    PowAdd(z, Ones(250) * Pow2(5), 11);
    out := Mul(t1, t0);
  }

  lemma InverseExponent()
    ensures Ones(250) * Pow2(5) + 11 == P - 2
  {
    hide Pow2;
    Weights();
    Pow2Add(250, 5);
    Pow2Small();
    assert (Pow2(250) - 1) * 32 == Pow2(250) * 32 - 32;
  }

  /** `ge25519_p3_tobytes`: dividing by Z gives the coordinates of the point, whatever Z is. */
  method P3ToBytes(q: P3, ghost p: Point) returns (s: String32)
    requires Fermat() && OfP3(q, p)
    ensures s == ToBytes(p)
  {
    hide Fermat, Mul, Pow, ToBytes;
    var recip := Invert(q.Z);
    var x := Mul(q.X, recip);
    var y := Mul(q.Y, recip);
    Divided(p.x, q.Z);
    Divided(p.y, q.Z);
    s := ToBytes(Point(x, y));
  }

  lemma Divided(x: Fe, z: Fe)
    requires Fermat() && z != 0
    ensures Mul(Mul(x, z), Pow(z, P - 2)) == x
  {
    PowerOf(z);
    var c := Pow(z, P - 2);
    assert Pow(z, P - 1) == Mul(z, c);
    hide Fermat, Mul, Pow;
    MulAssociates(x, z, c);
    MulOne(x);
  }
}
