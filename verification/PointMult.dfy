/** `ge25519_scalarmult` and `ge25519_scalarmult_base` of external/VRF_functions/ed25519_ref10.cpp, on the projective
    representations that the code passes between its formulas. */
module PointMult {
  import opened Arithmetic
  import opened Bytes
  import opened Field25519
  import opened PointCodec
  import opened PointDecoding
  import opened RingLaws
  import opened SquareRoots
  import opened CurveGroup
  import opened EdwardsLaw
  import opened EdwardsClosure
  import opened EdwardsAssociative
  import opened Projective
  import opened ScalarMult

  // ---------------------------------------------------------------- multiples

  lemma MultipleOnCurve(n: int, p: Point)
    requires Fermat() && OnCurve(p)
    ensures OnCurve(Times(CURVE, n, p))
  {
    hide Fermat, OnCurve, Times, Lawful;
    CurveIsLawful();
    TimesMember(CURVE, n, p);
  }

  lemma SumOfMultiples(m: int, n: int, p: Point)
    requires Fermat() && OnCurve(p)
    ensures OnCurve(Times(CURVE, m, p)) && OnCurve(Times(CURVE, n, p))
    ensures IsSum(Times(CURVE, m, p), Times(CURVE, n, p), Times(CURVE, m + n, p))
  {
    hide Fermat, OnCurve, Times, Lawful, IsSum;
    CurveIsLawful();
    MultipleOnCurve(m, p);
    MultipleOnCurve(n, p);
    TimesAdd(CURVE, m, n, p);
    AddIsSum(Times(CURVE, m, p), Times(CURVE, n, p));
  }

  /** `ge25519_add` of two multiples of a point. */
  method AddMultiples(h: P3, t: Cached, ghost m: int, ghost n: int, ghost p: Point) returns (r: P1P1)
    requires Fermat() && OnCurve(p) && OfP3(h, Times(CURVE, m, p)) && OfCached(t, Times(CURVE, n, p))
    ensures OfP1P1(r, Times(CURVE, m + n, p))
  {
    hide Fermat, OnCurve, Times, IsSum, OfP3, OfCached, OfP1P1;
    SumOfMultiples(m, n, p);
    r := GeAdd(h, t, Times(CURVE, m, p), Times(CURVE, n, p), Times(CURVE, m + n, p));
  }

  /** `ge25519_madd` of two multiples of a point. */
  method MaddMultiples(h: P3, t: Precomp, ghost m: int, ghost n: int, ghost p: Point) returns (r: P1P1)
    requires Fermat() && OnCurve(p) && OfP3(h, Times(CURVE, m, p)) && OfPrecomp(t, Times(CURVE, n, p))
    ensures OfP1P1(r, Times(CURVE, m + n, p))
  {
    hide Fermat, OnCurve, Times, IsSum, OfP3, OfPrecomp, OfP1P1;
    SumOfMultiples(m, n, p);
    r := GeMadd(h, t, Times(CURVE, m, p), Times(CURVE, n, p), Times(CURVE, m + n, p));
  }

  /** `ge25519_p2_dbl` of a multiple of a point. */
  method DoubleMultiple(s: P2, ghost n: int, ghost p: Point) returns (r: P1P1)
    requires Fermat() && OnCurve(p) && OfP2(s, Times(CURVE, n, p))
    ensures OfP1P1(r, Times(CURVE, 2 * n, p))
  {
    hide Fermat, OnCurve, Times, IsSum, OfP2, OfP1P1;
    SumOfMultiples(n, n, p);
    r := P2Dbl(s, Times(CURVE, n, p), Times(CURVE, 2 * n, p));
  }

  /** `ge25519_p3_to_p2` */
  method P3ToP2(q: P3, ghost p: Point) returns (r: P2)
    requires OfP3(q, p)
    ensures OfP2(r, p)
  {
    hide Mul;
    r := P2(q.X, q.Y, q.Z);
  }

  /** Three doublings and the way back. */
  method TimesEight(s: P2, ghost n: int, ghost p: Point) returns (h: P3)
    requires Fermat() && OnCurve(p) && OfP2(s, Times(CURVE, n, p))
    ensures OfP3(h, Times(CURVE, 8 * n, p))
  {
    hide Fermat, OnCurve, Times, OfP3, OfP2, OfP1P1;
    var r := DoubleMultiple(s, n, p);
    var s2 := P1P1ToP2(r, Times(CURVE, 2 * n, p));
    r := DoubleMultiple(s2, 2 * n, p);
    s2 := P1P1ToP2(r, Times(CURVE, 4 * n, p));
    r := DoubleMultiple(s2, 4 * n, p);
    h := P1P1ToP3(r, Times(CURVE, 8 * n, p));
  }

  /** Four doublings and the way back. */
  method TimesSixteen(s: P2, ghost n: int, ghost p: Point) returns (h: P3)
    requires Fermat() && OnCurve(p) && OfP2(s, Times(CURVE, n, p))
    ensures OfP3(h, Times(CURVE, 16 * n, p))
  {
    hide Fermat, OnCurve, Times, OfP3, OfP2, OfP1P1;
    var r := DoubleMultiple(s, n, p);
    var s2 := P1P1ToP2(r, Times(CURVE, 2 * n, p));
    h := TimesEight(s2, 2 * n, p);
  }

  // ---------------------------------------------------------------- the table

  /** `pi[j]` is j + 1 times `p`. */
  ghost predicate CachedTable(pi: seq<Cached>, p: Point) {
    |pi| == 8 && forall j :: 0 <= j < 8 ==> OfCached(pi[j], Times(CURVE, j + 1, p))
  }

  /** A double of a multiple, as a point and in cached form. */
  method TableDouble(q: P3, ghost n: int, ghost p: Point) returns (r: P3, c: Cached)
    requires Fermat() && OnCurve(p) && OfP3(q, Times(CURVE, n, p))
    ensures OfP3(r, Times(CURVE, 2 * n, p)) && OfCached(c, Times(CURVE, 2 * n, p))
  {
    hide Fermat, OnCurve, Times, OfP3, OfCached, OfP2, OfP1P1;
    var s := P3ToP2(q, Times(CURVE, n, p));
    var t := DoubleMultiple(s, n, p);
    r := P1P1ToP3(t, Times(CURVE, 2 * n, p));
    c := P3ToCached(r, Times(CURVE, 2 * n, p));
  }

  /** The next multiple. */
  method TableNext(q: P3, c: Cached, ghost n: int, ghost p: Point) returns (r: P3, next: Cached)
    requires Fermat() && OnCurve(p) && OfP3(q, Times(CURVE, 1, p)) && OfCached(c, Times(CURVE, n, p))
    ensures OfP3(r, Times(CURVE, n + 1, p)) && OfCached(next, Times(CURVE, n + 1, p))
  {
    hide Fermat, OnCurve, Times, OfP3, OfCached, OfP1P1;
    var t := AddMultiples(q, c, 1, n, p);
    r := P1P1ToP3(t, Times(CURVE, n + 1, p));
    next := P3ToCached(r, Times(CURVE, n + 1, p));
  }

  /** The multiples 1p to 8p. */
  method Table(q: P3, ghost p: Point) returns (pi: seq<Cached>)
    requires Fermat() && OnCurve(p) && OfP3(q, p)
    ensures CachedTable(pi, p)
  {
    hide Fermat, OnCurve, Times, Lawful, OfP3, OfCached;
    CurveIsLawful();
    TimesOne(CURVE, p);
    var c1 := P3ToCached(q, p);
    var p2, c2 := TableDouble(q, 1, p);
    var p3, c3 := TableNext(q, c2, 2, p);
    var p4, c4 := TableDouble(p2, 2, p);
    var p5, c5 := TableNext(q, c4, 4, p);
    var p6, c6 := TableDouble(p3, 3, p);
    var p7, c7 := TableNext(q, c6, 6, p);
    var p8, c8 := TableDouble(p4, 4, p);
    pi := [c1, c2, c3, c4, c5, c6, c7, c8];
  }

  // ---------------------------------------------------------------- choosing from a table

  lemma ZeroForms()
    ensures OfCached(Cached(1, 1, 1, 0), IDENTITY)
    ensures OfPrecomp(Precomp(1, 1, 0), IDENTITY)
    ensures OfP3(P3(0, 1, 1, 0), IDENTITY)
  {
    hide Mul;
    assert Add(1, 0) == 1 && Sub(1, 0) == 1;
    MulOne(1);
    MulZero(1);
    MulZero(Dbl(D));
  }

  lemma NegatedProduct(a: int, n: int)
    ensures -a * n == -(a * n)
  {
    Distributes(n, a, -a);
  }

  lemma InverseOfMultiple(b: int, babs: int, n: int, p: Point)
    requires Fermat() && OnCurve(p) && babs == if b < 0 then -b else b
    ensures Times(CURVE, b * n, p) == if b < 0 then Inverse(Times(CURVE, babs * n, p)) else Times(CURVE, babs * n, p)
  {
    hide Fermat, OnCurve, Times, Lawful, Inverse;
    CurveIsLawful();
    TimesNegative(CURVE, babs * n, p);
    NegatedProduct(babs, n);
  }

  /** `ge25519_select_cached`: a digit's multiple, by conditional moves over the whole table. */
  method SelectCached(pi: seq<Cached>, b: SChar, ghost p: Point) returns (t: Cached)
    requires Fermat() && OnCurve(p) && CachedTable(pi, p) && -8 <= b <= 8
    ensures OfCached(t, Times(CURVE, b, p))
  {
    hide Fermat, OnCurve, Times, Lawful, Inverse, OfCached;
    var bnegative := Negative(b);
    var babs := Magnitude(b, bnegative);
    t := Cached(1, 1, 1, 0);
    ZeroForms();
    TimesZero(CURVE, p);
    var j := 0;
    while j < 8
      invariant 0 <= j <= 8
      invariant OfCached(t, Times(CURVE, if babs <= j then babs else 0, p))
    {
      var same := Equal(babs, j + 1);
      if same == 1 {
        t := pi[j];
      }
      j := j + 1;
    }
    InverseOfMultiple(b, babs, 1, p);
    assert b * 1 == b && babs * 1 == babs;
    NegatedIs(t, Times(CURVE, babs, p));
    var minust := Negated(t);
    if bnegative == 1 {
      t := minust;
    }
  }

  /** A table of precomputed points: `table[j]` is (j + 1) n times `p`. */
  ghost predicate PrecompTable(table: seq<Precomp>, n: int, p: Point) {
    |table| == 8 && forall j :: 0 <= j < 8 ==> OfPrecomp(table[j], Times(CURVE, (j + 1) * n, p))
  }

  lemma PrecompNegated(q: Precomp, b: Point)
    requires OfPrecomp(q, b)
    ensures OfPrecomp(Precomp(q.yminusx, q.yplusx, Neg(q.xy2d)), Inverse(b))
  {
    NegSums(b.y, b.x);
    hide Mul, Add, Sub, Neg, Dbl;
    MulNeg(b.y, b.x);
    MulNeg(Dbl(D), XY(b));
  }

  /** `ge25519_select`: a digit's multiple from a table of precomputed points. */
  method Select(table: seq<Precomp>, b: SChar, ghost n: int, ghost p: Point) returns (t: Precomp)
    requires Fermat() && OnCurve(p) && PrecompTable(table, n, p) && -8 <= b <= 8
    ensures OfPrecomp(t, Times(CURVE, b * n, p))
  {
    hide Fermat, OnCurve, Times, Lawful, Inverse, OfPrecomp;
    var bnegative := Negative(b);
    var babs := Magnitude(b, bnegative);
    t := Precomp(1, 1, 0);
    ZeroForms();
    TimesZero(CURVE, p);
    assert 0 * n == 0;
    var j := 0;
    while j < 8
      invariant 0 <= j <= 8
      invariant OfPrecomp(t, Times(CURVE, if babs <= j then babs * n else 0, p))
    {
      var same := Equal(babs, j + 1);
      if same == 1 {
        t := table[j];
      }
      j := j + 1;
    }
    InverseOfMultiple(b, babs, n, p);
    PrecompNegated(t, Times(CURVE, babs * n, p));
    var minust := Precomp(t.yminusx, t.yplusx, Neg(t.xy2d));
    if bnegative == 1 {
      t := minust;
    }
  }

  // ---------------------------------------------------------------- multiplication

  /** `ge25519_scalarmult`: the scalar's value times the point. */
  method Multiply(a: String32, q: P3, ghost p: Point) returns (h: P3)
    requires Fermat() && OnCurve(p) && OfP3(q, p) && a[31] <= 127
    ensures OfP3(h, Times(CURVE, LittleEndian(a), p))
  {
    hide Fermat, OnCurve, Times, Radix16, LittleEndian, CachedTable, OfP3, OfCached, OfP2, OfP1P1;
    var pi := Table(q, p);
    var e := Recode(a);
    ghost var d := e[..];
    HornerEnd(d);
    TimesZero(CURVE, p);
    ZeroForms();
    h := P3(0, 1, 1, 0);
    var i := 63;
    while i != 0
      invariant 0 <= i <= 63 && e[..] == d
      invariant OfP3(h, Times(CURVE, 16 * Radix16(d[i + 1..]), p))
      decreases i
    {
      var t := SelectCached(pi, e[i], p);
      HornerStep(d, i);
      var r := AddMultiples(h, t, 16 * Radix16(d[i + 1..]), d[i], p);
      var s := P1P1ToP2(r, Times(CURVE, Radix16(d[i..]), p));
      h := TimesSixteen(s, Radix16(d[i..]), p);
      i := i - 1;
    }
    var t := SelectCached(pi, e[0], p);
    HornerStep(d, 0);
    var r := AddMultiples(h, t, 16 * Radix16(d[1..]), d[0], p);
    h := P1P1ToP3(r, Times(CURVE, Radix16(d), p));
  }

  /** The tables of a base point: those of 256^i times it. */
  ghost predicate BaseTables(tables: seq<seq<Precomp>>, p: Point) {
    |tables| == 32 && forall i :: 0 <= i < 32 ==> PrecompTable(tables[i], Pow256(i), p)
  }

  /** The two loops of the multiplication: the digits at every second place, each with its own table. */
  method AddDigits(tables: seq<seq<Precomp>>, e: array<SChar>, o: nat, h0: P3, ghost n: int, ghost p: Point)
    returns (h: P3)
    requires Fermat() && OnCurve(p) && BaseTables(tables, p) && o < 2
    requires e.Length == 64 && forall k :: 0 <= k < 64 ==> -8 <= e[k] <= 8
    requires OfP3(h0, Times(CURVE, n, p))
    ensures OfP3(h, Times(CURVE, n + Sum256(e[..], o, 32), p))
  {
    hide Fermat, OnCurve, Times, PrecompTable, Pow256, OfP3, OfPrecomp, OfP1P1;
    h := h0;
    var i := 0;
    while i < 32
      invariant 0 <= i <= 32
      invariant OfP3(h, Times(CURVE, n + Sum256(e[..], o, i), p))
    {
      ghost var m, k := n + Sum256(e[..], o, i), e[2 * i + o] * Pow256(i);
      var t := Select(tables[i], e[2 * i + o], Pow256(i), p);
      var r := MaddMultiples(h, t, m, k, p);
      h := P1P1ToP3(r, Times(CURVE, m + k, p));
      i := i + 1;
    }
  }

  /** `ge25519_scalarmult_base`: the scalar's value times the point that the precomputed tables are of. */
  method MultiplyBase(tables: seq<seq<Precomp>>, a: String32, ghost p: Point) returns (h: P3)
    requires Fermat() && OnCurve(p) && BaseTables(tables, p) && a[31] <= 127
    ensures OfP3(h, Times(CURVE, LittleEndian(a), p))
  {
    hide Fermat, OnCurve, Times, Radix16, LittleEndian, BaseTables, Sum256, Pow256, OfP3, OfP2;
    var e := Recode(a);
    ghost var d := e[..];
    EvenAndOdd(d, 32);
    assert d[..64] == d;
    TimesZero(CURVE, p);
    ZeroForms();
    h := P3(0, 1, 1, 0);
    h := AddDigits(tables, e, 1, h, 0, p);
    ghost var odd := Sum256(d, 1, 32);
    var s := P3ToP2(h, Times(CURVE, odd, p));
    h := TimesSixteen(s, odd, p);
    h := AddDigits(tables, e, 0, h, 16 * odd, p);
  }
}
