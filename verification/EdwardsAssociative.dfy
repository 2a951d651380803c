/** The Edwards addition law is associative.

    For a point write p = y + x and m = y - x, d = p^2 - m^2 = 4 x y and s = p m.  On the curve s = 1 + C d^2, where
    16 C = D.  For three points let g = m1 p3, h = p1 m3, q = p1 p3 and r = m1 m3, and

      H = p2 q + m2 r,  N1 = m2 g + p2 h,  N3 = m2 h + p2 g,
      R1 = p1^2 p2^2 - m1^2 m2^2,  R3 = p3^2 p2^2 - m3^2 m2^2.

    The y coordinate of (P1 + P2) + P3 is half of L1 / D1 and that of P1 + (P2 + P3) half of L3 / D3, where

      L1 = H + C d1 d2 N1,  D1 = 1 - (C d1 d2)^2 - C d3 R1,
      L3 = H + C d3 d2 N3,  D3 = 1 - (C d3 d2)^2 - C d1 R3,

    so what has to be shown is L1 D3 = L3 D1.  The x coordinates follow from the y coordinates of other points. */
module EdwardsAssociative {
  import opened Field25519
  import opened PointDecoding
  import opened RingLaws
  import opened SquareRoots
  import opened CurveGroup
  import opened EdwardsLaw
  import opened EdwardsClosure

  // ---------------------------------------------------------------- products

  /** Products may be taken in any order. */
  lemma Reorder()
    ensures forall a: Fe, b: Fe :: Mul(a, b) == Mul(b, a)
    ensures forall a: Fe, b: Fe, c: Fe :: Mul(Mul(a, b), c) == Mul(a, Mul(b, c))
  {
    hide Mul;
    forall a: Fe, b: Fe
      ensures Mul(a, b) == Mul(b, a)
    {
      MulCommutes(a, b);
    }
    forall a: Fe, b: Fe, c: Fe
      ensures Mul(Mul(a, b), c) == Mul(a, Mul(b, c))
    {
      MulAssociates(a, b, c);
    }
  }

  function Sq(a: Fe): Fe { Mul(a, a) }

  /** A point by p = y + x and m = y - x. */
  datatype Pm = Pm(p: Fe, m: Fe)

  /** p^2 - m^2 */
  function Del(a: Pm): Fe { Sub(Sq(a.p), Sq(a.m)) }

  function Prd(a: Pm): Fe { Mul(a.p, a.m) }

  function Swap(a: Pm): Pm { Pm(a.m, a.p) }

  /** p1 p2 p3 + m1 m2 m3 */
  function HH(a: Pm, b: Pm, c: Pm): Fe { Add(Mul(a.p, Mul(b.p, c.p)), Mul(a.m, Mul(b.m, c.m))) }

  /** p1 p2 m3 + m1 m2 p3 */
  function NN(a: Pm, b: Pm, c: Pm): Fe { Add(Mul(a.p, Mul(b.p, c.m)), Mul(a.m, Mul(b.m, c.p))) }

  /** p1^2 p2^2 - m1^2 m2^2 */
  function RR(a: Pm, b: Pm): Fe { Sub(Mul(Sq(a.p), Sq(b.p)), Mul(Sq(a.m), Sq(b.m))) }

  // ---------------------------------------------------------------- an identity without the curve

  /** a3 a2 - b3 b2, in two ways. */
  lemma TwoWays(a3: Fe, b3: Fe, a2: Fe, b2: Fe)
    ensures Sub(Mul(a3, a2), Mul(b3, b2)) == Add(Mul(a3, Sub(a2, b2)), Mul(Sub(a3, b3), b2))
    ensures Sub(Mul(a3, a2), Mul(b3, b2)) == Add(Mul(b3, Sub(a2, b2)), Mul(Sub(a3, b3), a2))
  {
    hide Mul, Add, Sub;
    MulSub(a3, a2, b2);
    MulSub(b2, a3, b3);
    Telescopes(Mul(a3, a2), Mul(a3, b2), Mul(b3, b2));
    MulSub(b3, a2, b2);
    MulSub(a2, a3, b3);
    TelescopesBack(Mul(a3, a2), Mul(b3, a2), Mul(b3, b2));
  }

  lemma TelescopesBack(a: Fe, b: Fe, c: Fe)
    ensures Add(Sub(b, c), Sub(a, b)) == Sub(a, c)
  {}

  /** w (z d + d' z') = s d k + d' s' k' */
  lemma OnePart(w: Fe, s: Fe, d: Fe, k: Fe, z: Fe, s': Fe, d': Fe, k': Fe, z': Fe)
    requires Mul(s, k) == Mul(w, z) && Mul(s', k') == Mul(w, z')
    ensures Mul(w, Add(Mul(z, d), Mul(d', z'))) == Add(Mul(s, Mul(d, k)), Mul(d', Mul(s', k')))
  {
    hide Mul, Add;
    MulAdd(w, Mul(z, d), Mul(d', z'));
    MulCommutes(d, k);
    MulAssociates(s, k, d);
    MulAssociates(w, z, d);
    MulAssociates(d', w, z');
    MulCommutes(d', w);
    MulAssociates(w, d', z');
  }

  lemma Monomials(b: Pm, c: Pm)
    ensures Mul(Prd(c), Mul(b.p, c.p)) == Mul(Mul(b.p, c.m), Sq(c.p))
    ensures Mul(Prd(b), Mul(b.m, c.m)) == Mul(Mul(b.p, c.m), Sq(b.m))
    ensures Mul(Prd(c), Mul(b.m, c.m)) == Mul(Mul(b.m, c.p), Sq(c.m))
    ensures Mul(Prd(b), Mul(b.p, c.p)) == Mul(Mul(b.m, c.p), Sq(b.p))
  {
    Reorder();
    hide Mul;
  }

  lemma BothParts(b: Pm, c: Pm)
    ensures Mul(Mul(b.p, c.m), RR(c, b))
         == Add(Mul(Prd(c), Mul(Del(b), Mul(b.p, c.p))), Mul(Del(c), Mul(Prd(b), Mul(b.m, c.m))))
    ensures Mul(Mul(b.m, c.p), RR(c, b))
         == Add(Mul(Prd(c), Mul(Del(b), Mul(b.m, c.m))), Mul(Del(c), Mul(Prd(b), Mul(b.p, c.p))))
  {
    hide Mul, Add, Sub, Sq, Prd;
    Monomials(b, c);
    TwoWays(Sq(c.p), Sq(c.m), Sq(b.p), Sq(b.m));
    OnePart(Mul(b.p, c.m), Prd(c), Del(b), Mul(b.p, c.p), Sq(c.p), Prd(b), Del(c), Mul(b.m, c.m), Sq(b.m));
    OnePart(Mul(b.m, c.p), Prd(c), Del(b), Mul(b.m, c.m), Sq(c.m), Prd(b), Del(c), Mul(b.p, c.p), Sq(b.p));
  }

  /** A sum of two multiples, multiplied. */
  lemma Spread(s: Fe, d: Fe, x: Fe, y: Fe, k: Fe, l: Fe)
    ensures Mul(s, Mul(d, Add(Mul(x, k), Mul(y, l)))) == Add(Mul(x, Mul(s, Mul(d, k))), Mul(y, Mul(s, Mul(d, l))))
  {
    hide Mul, Add;
    MulAdd(d, Mul(x, k), Mul(y, l));
    MulAdd(s, Mul(d, Mul(x, k)), Mul(d, Mul(y, l)));
    PullOut(s, d, x, k);
    PullOut(s, d, y, l);
  }

  lemma PullOut(s: Fe, d: Fe, x: Fe, k: Fe)
    ensures Mul(s, Mul(d, Mul(x, k))) == Mul(x, Mul(s, Mul(d, k)))
  {
    Reorder();
    hide Mul;
  }

  /** N1 R3 = s3 d2 H + d3 s2 N3, with N3 in the other order. */
  lemma KeyIdentity(a: Pm, b: Pm, c: Pm)
    ensures Mul(NN(a, b, c), RR(c, b))
         == Add(Mul(Prd(c), Mul(Del(b), HH(a, b, c))), Mul(Del(c), Mul(Prd(b), NN(c, b, a))))
  {
    hide Mul, Add, Sub, Del, Prd, RR, NN, HH;
    BothParts(b, c);
    var w, w', k, k', r := Mul(b.p, c.m), Mul(b.m, c.p), Mul(b.p, c.p), Mul(b.m, c.m), RR(c, b);
    NNParts(a, b, c);
    MulAdd(r, Mul(a.p, w), Mul(a.m, w'));
    MulAssociates(a.p, w, r);
    MulAssociates(a.m, w', r);
    var x, y := Mul(Prd(c), Mul(Del(b), k)), Mul(Del(c), Mul(Prd(b), k'));
    var x', y' := Mul(Prd(c), Mul(Del(b), k')), Mul(Del(c), Mul(Prd(b), k));
    MulAdd(a.p, x, y);
    MulAdd(a.m, x', y');
    AddPairs(Mul(a.p, x), Mul(a.p, y), Mul(a.m, x'), Mul(a.m, y'));
    Spread(Prd(c), Del(b), a.p, a.m, k, k');
    Spread(Del(c), Prd(b), a.p, a.m, k', k);
  }

  lemma NNParts(a: Pm, b: Pm, c: Pm)
    ensures NN(a, b, c) == Add(Mul(a.p, Mul(b.p, c.m)), Mul(a.m, Mul(b.m, c.p)))
    ensures HH(a, b, c) == Add(Mul(a.p, Mul(b.p, c.p)), Mul(a.m, Mul(b.m, c.m)))
    ensures NN(c, b, a) == Add(Mul(a.p, Mul(b.m, c.m)), Mul(a.m, Mul(b.p, c.p)))
  {
    Turned(a, b, c);
    hide Mul, Add;
    SwapSum(Mul(c.p, Mul(b.p, a.m)), Mul(c.m, Mul(b.m, a.p)));
  }

  lemma Turned(a: Pm, b: Pm, c: Pm)
    ensures Mul(c.p, Mul(b.p, a.m)) == Mul(a.m, Mul(b.p, c.p)) && Mul(c.m, Mul(b.m, a.p)) == Mul(a.p, Mul(b.m, c.m))
    ensures Mul(c.p, Mul(b.p, a.p)) == Mul(a.p, Mul(b.p, c.p)) && Mul(c.m, Mul(b.m, a.m)) == Mul(a.m, Mul(b.m, c.m))
  {
    Reorder();
    hide Mul;
  }

  lemma HHTurned(a: Pm, b: Pm, c: Pm)
    ensures HH(c, b, a) == HH(a, b, c)
  {
    Turned(a, b, c);
    hide Mul, Add;
  }

  // ---------------------------------------------------------------- two more from it

  /** K = (m1 p3)^2 - (p1 m3)^2 */
  function KK(a: Pm, c: Pm): Fe { RR(c, Swap(a)) }

  /** H K = d3 s1 N3 - d1 s3 N1 */
  lemma SecondIdentity(a: Pm, b: Pm, c: Pm)
    ensures Mul(HH(a, b, c), KK(a, c))
         == Sub(Mul(Del(c), Mul(Prd(a), NN(c, b, a))), Mul(Del(a), Mul(Prd(c), NN(a, b, c))))
  {
    KeyIdentity(Swap(b), Swap(a), c);
    Swapped(a, b, c);
    SwappedDel(a);
    SwappedPrd(a);
    hide Mul, Add, NN, HH, RR, Del, Prd;
    var n := NN(a, b, c);
    MulNeg(n, Del(a));
    MulNeg(Prd(c), Mul(Del(a), n));
    MulAssociates(Prd(c), Del(a), n);
    MulCommutes(Prd(c), Del(a));
    MulAssociates(Del(a), Prd(c), n);
    SwapSum(Neg(Mul(Del(a), Mul(Prd(c), n))), Mul(Del(c), Mul(Prd(a), NN(c, b, a))));
  }

  lemma SwappedDel(a: Pm)
    ensures Del(Swap(a)) == Neg(Del(a))
  {
    hide Mul;
  }

  lemma SwappedPrd(a: Pm)
    ensures Prd(Swap(a)) == Prd(a)
  {
    hide Mul;
    MulCommutes(a.p, a.m);
  }

  lemma Swapped(a: Pm, b: Pm, c: Pm)
    ensures NN(Swap(b), Swap(a), c) == HH(a, b, c)
    ensures HH(Swap(b), Swap(a), c) == NN(a, b, c)
    ensures NN(c, Swap(a), Swap(b)) == NN(c, b, a)
  {
    SwappedProducts(a, b, c);
    hide Mul, Add;
    SwapSum(Mul(a.p, Mul(b.p, c.p)), Mul(a.m, Mul(b.m, c.m)));
    SwapSum(Mul(a.p, Mul(b.p, c.m)), Mul(a.m, Mul(b.m, c.p)));
  }

  lemma SwappedProducts(a: Pm, b: Pm, c: Pm)
    ensures Mul(b.m, Mul(a.m, c.m)) == Mul(a.m, Mul(b.m, c.m)) && Mul(b.p, Mul(a.p, c.p)) == Mul(a.p, Mul(b.p, c.p))
    ensures Mul(b.m, Mul(a.m, c.p)) == Mul(a.m, Mul(b.m, c.p)) && Mul(b.p, Mul(a.p, c.m)) == Mul(a.p, Mul(b.p, c.m))
    ensures Mul(c.p, Mul(a.m, b.p)) == Mul(c.p, Mul(b.p, a.m)) && Mul(c.m, Mul(a.p, b.m)) == Mul(c.m, Mul(b.m, a.p))
  {
    Reorder();
    hide Mul;
  }

  /** d3 R1 - d1 R3 = d2 K */
  lemma ThirdIdentity(a: Pm, b: Pm, c: Pm)
    ensures Sub(Mul(Del(c), RR(a, b)), Mul(Del(a), RR(c, b))) == Mul(Del(b), KK(a, c))
  {
    hide Mul, Add, Sub;
    CrossSquares(Sq(a.p), Sq(a.m), Sq(b.p), Sq(b.m), Sq(c.p), Sq(c.m));
  }

  lemma CrossSquares(a1: Fe, b1: Fe, a2: Fe, b2: Fe, a3: Fe, b3: Fe)
    ensures var d1, d2, d3 := Sub(a1, b1), Sub(a2, b2), Sub(a3, b3);
      Sub(Mul(d3, Sub(Mul(a1, a2), Mul(b1, b2))), Mul(d1, Sub(Mul(a3, a2), Mul(b3, b2))))
      == Mul(d2, Sub(Mul(a3, b1), Mul(b3, a1)))
  {
    hide Mul, Add, Sub;
    var d1, d2, d3 := Sub(a1, b1), Sub(a2, b2), Sub(a3, b3);
    TwoWays(a1, b1, a2, b2);
    TwoWays(a3, b3, a2, b2);
    MulAdd(d3, Mul(a1, d2), Mul(d1, b2));
    MulAdd(d1, Mul(a3, d2), Mul(d3, b2));
    CrossProducts(d1, d2, d3, a1, a3, b2);
    SameEnd(Mul(d2, Mul(d3, a1)), Mul(d2, Mul(d1, a3)), Mul(d3, Mul(d1, b2)));
    MulSub(d2, Mul(d3, a1), Mul(d1, a3));
    MulSub(a1, a3, b3);
    MulSub(a3, a1, b1);
    MulCommutes(a1, a3);
    MulCommutes(b1, a3);
    BothLess(Mul(a3, a1), Mul(b3, a1), Mul(a3, b1));
  }

  lemma CrossProducts(d1: Fe, d2: Fe, d3: Fe, a1: Fe, a3: Fe, b2: Fe)
    ensures Mul(d3, Mul(a1, d2)) == Mul(d2, Mul(d3, a1)) && Mul(d1, Mul(a3, d2)) == Mul(d2, Mul(d1, a3))
    ensures Mul(d1, Mul(d3, b2)) == Mul(d3, Mul(d1, b2))
  {
    Reorder();
    hide Mul;
  }

  lemma SameEnd(a: Fe, b: Fe, c: Fe)
    ensures Sub(Add(a, c), Add(b, c)) == Sub(a, b)
  {}

  lemma BothLess(a: Fe, b: Fe, c: Fe)
    ensures Sub(Sub(a, b), Sub(a, c)) == Sub(c, b)
  {}

  // ---------------------------------------------------------------- with the equation of the curve

  /** k d^2 */
  function Al(k: Fe, a: Pm): Fe { Mul(k, Sq(Del(a))) }

  /** s = 1 + k d^2 */
  predicate Fits(k: Fe, a: Pm) { Prd(a) == Add(1, Al(k, a)) }

  /** k d1 d2 */
  function Tt(k: Fe, a: Pm, b: Pm): Fe { Mul(k, Mul(Del(a), Del(b))) }

  /** H + k d1 d2 N1 */
  function Num(k: Fe, a: Pm, b: Pm, c: Pm): Fe { Add(HH(a, b, c), Mul(Tt(k, a, b), NN(a, b, c))) }

  /** 1 - (k d1 d2)^2 - k d3 R1 */
  function Den(k: Fe, a: Pm, b: Pm, c: Pm): Fe {
    Sub(Sub(1, Sq(Tt(k, a, b))), Mul(Mul(k, Del(c)), RR(a, b)))
  }

  /** d1 N1 */
  function Xx(a: Pm, b: Pm, c: Pm): Fe { Mul(Del(a), NN(a, b, c)) }

  lemma SquareOfT(k: Fe, a: Pm, b: Pm)
    ensures Sq(Tt(k, a, b)) == Mul(Al(k, a), Al(k, b))
  {
    hide Mul, Del;
    var d, e := Del(a), Del(b);
    MulPairs(k, Mul(d, e), k, Mul(d, e));
    MulPairs(d, e, d, e);
    MulPairs(k, k, Sq(d), Sq(e));
  }

  lemma NumIs(k: Fe, a: Pm, b: Pm, c: Pm)
    ensures Num(k, a, b, c) == Add(HH(a, b, c), Mul(Mul(k, Del(b)), Xx(a, b, c)))
  {
    NumProducts(k, Del(a), Del(b), NN(a, b, c));
    hide Mul, Add, Del, NN, HH;
  }

  lemma NumProducts(k: Fe, d: Fe, e: Fe, n: Fe)
    ensures Mul(Mul(k, Mul(d, e)), n) == Mul(Mul(k, e), Mul(d, n))
  {
    Reorder();
    hide Mul;
  }

  /** X D3 = X - a2 a3 X - a1 N1 R3 */
  lemma TimesDen(x: Fe, w: Fe, v: Fe)
    ensures Mul(x, Sub(Sub(1, w), v)) == Sub(Sub(x, Mul(w, x)), Mul(x, v))
  {
    hide Mul, Sub;
    MulSub(x, Sub(1, w), v);
    MulSub(x, 1, w);
    MulOne(x);
    MulCommutes(x, w);
  }

  lemma LastProduct(k: Fe, d: Fe, n: Fe, r: Fe)
    ensures Mul(Mul(d, n), Mul(Mul(k, d), r)) == Mul(Mul(k, Sq(d)), Mul(n, r))
  {
    Reorder();
    hide Mul;
  }

  /** X - a2 a3 X - a1 ((1 + a3) W + (1 + a2) Y) */
  function Spelled(al: Fe, be: Fe, ga: Fe, x: Fe, y: Fe, w: Fe): Fe {
    Sub(Sub(x, Mul(Mul(ga, be), x)), Mul(al, Add(Mul(Add(1, ga), w), Mul(Add(1, be), y))))
  }

  lemma TimesDenIs(k: Fe, a: Pm, b: Pm, c: Pm)
    requires Fits(k, b) && Fits(k, c)
    ensures Mul(Xx(a, b, c), Den(k, c, b, a))
         == Spelled(Al(k, a), Al(k, b), Al(k, c), Xx(a, b, c), Xx(c, b, a), Mul(Del(b), HH(a, b, c)))
  {
    hide Mul, Add, Sub, Del, Prd, NN, HH, RR, Tt;
    var x, n, r := Xx(a, b, c), NN(a, b, c), RR(c, b);
    TimesDen(x, Sq(Tt(k, c, b)), Mul(Mul(k, Del(a)), r));
    SquareOfT(k, c, b);
    LastProduct(k, Del(a), n, r);
    KeyIdentity(a, b, c);
    MulAssociates(Del(c), Prd(b), NN(c, b, a));
    MulCommutes(Del(c), Prd(b));
    MulAssociates(Prd(b), Del(c), NN(c, b, a));
  }

  /** Y - a1 a2 Y + a1 ((1 + a3) W + (1 + a2) Y) = (1 + a1) Y + a1 W + a1 a3 W */
  lemma Bracket(al: Fe, be: Fe, ga: Fe, y: Fe, w: Fe)
    ensures Add(Sub(y, Mul(Mul(al, be), y)), Mul(al, Add(Mul(Add(1, ga), w), Mul(Add(1, be), y))))
         == Add(Add(Mul(Add(1, al), y), Mul(al, w)), Mul(Mul(al, ga), w))
  {
    hide Mul, Add, Sub;
    MulAdd(w, 1, ga);
    MulAdd(y, 1, be);
    MulAdd(y, 1, al);
    MulOne(w);
    MulOne(y);
    MulAdd(al, Add(w, Mul(ga, w)), Add(y, Mul(be, y)));
    MulAdd(al, w, Mul(ga, w));
    MulAdd(al, y, Mul(be, y));
    MulAssociates(al, ga, w);
    MulAssociates(al, be, y);
    Linear(y, Mul(Mul(al, be), y), Mul(al, w), Mul(Mul(al, ga), w), Mul(al, y));
  }

  lemma Linear(y: Fe, aby: Fe, aw: Fe, agw: Fe, ay: Fe)
    ensures Add(Sub(y, aby), Add(Add(aw, agw), Add(ay, aby))) == Add(Add(Add(y, ay), aw), agw)
  {
    hide Add, Neg;
    SwapSum(ay, aby);
    AddPairs(aw, agw, aby, ay);
    MoveTogether(y, aby, ay, aw, agw);
  }

  lemma MoveTogether(y: Fe, b: Fe, ay: Fe, aw: Fe, agw: Fe)
    ensures Add(Add(y, Neg(b)), Add(Add(aw, b), Add(agw, ay))) == Add(Add(Add(y, ay), aw), agw)
  {
    hide Add, Neg;
    Regroup3(Add(y, Neg(b)), Add(aw, b), Add(agw, ay));
    SwapSum(aw, b);
    Regroup3(Add(y, Neg(b)), b, aw);
    Undone(y, b);
    SwapSum(agw, ay);
    AddPairs(y, aw, ay, agw);
    Regroup3(Add(y, ay), aw, agw);
  }

  lemma Undone(y: Fe, b: Fe)
    ensures Add(Add(y, Neg(b)), b) == y
  {}

  /** The two sides of Y D1 - X D3. */
  lemma DifferenceOfSides(al: Fe, be: Fe, ga: Fe, x: Fe, y: Fe, w: Fe)
    ensures Sub(Spelled(ga, be, al, y, x, w), Spelled(al, be, ga, x, y, w))
         == Sub(Add(Mul(Add(1, al), y), Mul(al, w)), Add(Mul(Add(1, ga), x), Mul(ga, w)))
  {
    Bracket(al, be, ga, y, w);
    Bracket(ga, be, al, x, w);
    hide Mul, Add, Sub;
    MulCommutes(al, ga);
    var y1, x1 := Sub(y, Mul(Mul(al, be), y)), Sub(x, Mul(Mul(ga, be), x));
    CrossOver(y1, Mul(ga, Add(Mul(Add(1, al), w), Mul(Add(1, be), x))),
      x1, Mul(al, Add(Mul(Add(1, ga), w), Mul(Add(1, be), y))));
    SameEnd(Add(Mul(Add(1, al), y), Mul(al, w)), Add(Mul(Add(1, ga), x), Mul(ga, w)), Mul(Mul(al, ga), w));
  }

  lemma CrossOver(a: Fe, b: Fe, c: Fe, d: Fe)
    ensures Sub(Sub(a, b), Sub(c, d)) == Sub(Add(a, d), Add(c, b))
  {
    hide Add;
    NegOfDifference(c, d);
    AddPairs(a, Neg(b), Neg(c), d);
    AddPairs(a, d, Neg(c), Neg(b));
    SwapSum(Neg(b), d);
    NegOfSum(c, b);
  }

  lemma NegOfSum(a: Fe, b: Fe)
    ensures Neg(Add(a, b)) == Add(Neg(a), Neg(b))
  {}

  /** (D3 - D1) / (k d2) */
  function Vv(k: Fe, a: Pm, b: Pm, c: Pm): Fe {
    Add(KK(a, c), Mul(Mul(k, Del(b)), Sub(Sq(Del(a)), Sq(Del(c)))))
  }

  /** D3 - D1 = k d2 V */
  lemma DensDiffer(k: Fe, a: Pm, b: Pm, c: Pm)
    ensures Sub(Den(k, c, b, a), Den(k, a, b, c)) == Mul(Mul(k, Del(b)), Vv(k, a, b, c))
  {
    hide Mul, Add, Sub, Del, RR, KK, Tt;
    var g, d1, d3 := Mul(k, Del(b)), Del(a), Del(c);
    SquareOfT(k, a, b);
    SquareOfT(k, c, b);
    DenProducts(k, d1, Del(b));
    DenProducts(k, d3, Del(b));
    var u1, u3 := Mul(g, Mul(g, Sq(d1))), Mul(g, Mul(g, Sq(d3)));
    var v1, v3 := Mul(Mul(k, d3), RR(a, b)), Mul(Mul(k, d1), RR(c, b));
    LessBoth(u1, v1, u3, v3);
    MulSub(g, Mul(g, Sq(d1)), Mul(g, Sq(d3)));
    MulSub(g, Sq(d1), Sq(d3));
    MulAssociates(k, d3, RR(a, b));
    MulAssociates(k, d1, RR(c, b));
    MulSub(k, Mul(d3, RR(a, b)), Mul(d1, RR(c, b)));
    ThirdIdentity(a, b, c);
    MulAssociates(k, Del(b), KK(a, c));
    MulAdd(g, KK(a, c), Mul(g, Sub(Sq(d1), Sq(d3))));
    SwapSum(Mul(g, KK(a, c)), Sub(u1, u3));
  }

  lemma DenProducts(k: Fe, d: Fe, e: Fe)
    ensures Mul(Mul(k, Sq(d)), Mul(k, Sq(e))) == Mul(Mul(k, e), Mul(Mul(k, e), Sq(d)))
  {
    Reorder();
    hide Mul;
  }

  lemma LessBoth(u1: Fe, v1: Fe, u3: Fe, v3: Fe)
    ensures Sub(Sub(Sub(1, u3), v3), Sub(Sub(1, u1), v1)) == Add(Sub(u1, u3), Sub(v1, v3))
  {
    hide Add;
    CrossOver(Sub(1, u3), v3, Sub(1, u1), v1);
    OneLess(u1, u3, v1, v3);
  }

  lemma OneLess(u1: Fe, u3: Fe, v1: Fe, v3: Fe)
    ensures Sub(Add(Sub(1, u3), v1), Add(Sub(1, u1), v3)) == Add(Sub(u1, u3), Sub(v1, v3))
  {
    hide Add, Neg;
    NegOfSum(Sub(1, u1), v3);
    AddPairs(Sub(1, u3), v1, Neg(Sub(1, u1)), Neg(v3));
    BothFromOne(u1, u3);
  }

  lemma BothFromOne(u1: Fe, u3: Fe)
    ensures Sub(Sub(1, u3), Sub(1, u1)) == Sub(u1, u3)
  {}

  /** H V = Y D1 - X D3 */
  lemma TimesV(k: Fe, a: Pm, b: Pm, c: Pm)
    requires Fits(k, a) && Fits(k, b) && Fits(k, c)
    ensures Mul(HH(a, b, c), Vv(k, a, b, c))
         == Sub(Mul(Xx(c, b, a), Den(k, a, b, c)), Mul(Xx(a, b, c), Den(k, c, b, a)))
  {
    hide Mul, Add, Sub, Del, Prd, NN, HH, RR, KK, Tt, Den, Spelled;
    var h, g, w := HH(a, b, c), Mul(k, Del(b)), Mul(Del(b), HH(a, b, c));
    var al, be, ga := Al(k, a), Al(k, b), Al(k, c);
    var x, y := Xx(a, b, c), Xx(c, b, a);
    TimesDenIs(k, a, b, c);
    TimesDenIs(k, c, b, a);
    HHTurned(a, b, c);
    DifferenceOfSides(al, be, ga, x, y, w);
    var q := Sub(Sq(Del(a)), Sq(Del(c)));
    MulAdd(h, KK(a, c), Mul(g, q));
    SecondIdentity(a, b, c);
    MoveFactor(Del(c), Prd(a), NN(c, b, a));
    MoveFactor(Del(a), Prd(c), NN(a, b, c));
    MulSub(g, Sq(Del(a)), Sq(Del(c)));
    MulSub(h, Mul(g, Sq(Del(a))), Mul(g, Sq(Del(c))));
    MoveSquare(k, Del(b), Del(a), h);
    MoveSquare(k, Del(b), Del(c), h);
    TwoDifferences(Mul(Add(1, al), y), Mul(Add(1, ga), x), Mul(al, w), Mul(ga, w));
  }

  lemma MoveFactor(d: Fe, s: Fe, n: Fe)
    ensures Mul(d, Mul(s, n)) == Mul(s, Mul(d, n))
  {
    hide Mul;
    MulAssociates(d, s, n);
    MulCommutes(d, s);
    MulAssociates(s, d, n);
  }

  lemma MoveSquare(k: Fe, e: Fe, d: Fe, h: Fe)
    ensures Mul(h, Mul(Mul(k, e), Sq(d))) == Mul(Mul(k, Sq(d)), Mul(e, h))
  {
    Reorder();
    hide Mul;
  }

  lemma TwoDifferences(a: Fe, b: Fe, c: Fe, d: Fe)
    ensures Add(Sub(a, b), Sub(c, d)) == Sub(Add(a, c), Add(b, d))
  {
    hide Add, Neg;
    AddPairs(a, Neg(b), c, Neg(d));
    NegOfSum(b, d);
  }

  /** L1 D3 = L3 D1 */
  lemma MainIdentity(k: Fe, a: Pm, b: Pm, c: Pm)
    requires Fits(k, a) && Fits(k, b) && Fits(k, c)
    ensures Mul(Num(k, a, b, c), Den(k, c, b, a)) == Mul(Num(k, c, b, a), Den(k, a, b, c))
  {
    hide Mul, Add, Sub, Del, NN, HH, Den, Num, Vv, Fits;
    var h, g := HH(a, b, c), Mul(k, Del(b));
    var x, y := Xx(a, b, c), Xx(c, b, a);
    var d1, d3 := Den(k, a, b, c), Den(k, c, b, a);
    NumIs(k, a, b, c);
    NumIs(k, c, b, a);
    HHTurned(a, b, c);
    MulAdd(d3, h, Mul(g, x));
    MulAdd(d1, h, Mul(g, y));
    MulAssociates(g, x, d3);
    MulAssociates(g, y, d1);
    DensDiffer(k, a, b, c);
    TimesV(k, a, b, c);
    MulSub(h, d3, d1);
    MoveFactor(h, g, Vv(k, a, b, c));
    MulSub(g, Mul(y, d1), Mul(x, d3));
    SameDifferences(Mul(h, d3), Mul(h, d1), Mul(g, Mul(y, d1)), Mul(g, Mul(x, d3)));
  }

  lemma SameDifferences(a: Fe, b: Fe, c: Fe, d: Fe)
    requires Sub(a, b) == Sub(c, d)
    ensures Add(a, d) == Add(b, c)
  {}

  // ---------------------------------------------------------------- points

  /** 16 C = D */
  const C: Fe := 5936984409582971065932723500818657444761069138291468814757348596065156568969

  function Split(a: Point): Pm { Pm(Add(a.y, a.x), Sub(a.y, a.x)) }

  function Dbl4(a: Fe): Fe { Dbl(Dbl(Dbl(Dbl(a)))) }

  lemma SixteenC()
    ensures Dbl4(C) == D
  {}

  lemma MulDbl4(a: Fe, b: Fe)
    ensures Mul(Dbl4(a), b) == Mul(a, Dbl4(b)) && Mul(a, Dbl4(b)) == Dbl4(Mul(a, b))
  {
    hide Mul, Add, Dbl;
    MulDbl(b, a);
    MulDbl(b, Dbl(a));
    MulDbl(b, Dbl(Dbl(a)));
    MulDbl(b, Dbl(Dbl(Dbl(a))));
    MulDbl(a, b);
    MulDbl(a, Dbl(b));
    MulDbl(a, Dbl(Dbl(b)));
    MulDbl(a, Dbl(Dbl(Dbl(b))));
  }

  /** d = 4 x y */
  lemma DelIs(a: Point)
    ensures Del(Split(a)) == Dbl(Dbl(XY(a)))
  {
    hide Mul, Dbl;
    SumFromDifference(a.y, a.x);
    MulCommutes(a.y, a.x);
  }

  /** C d1 d2 = D x1 y1 x2 y2 */
  lemma CrossIs(a: Point, b: Point)
    ensures Tt(C, Split(a), Split(b)) == Cross4(a, b)
  {
    SixteenC();
    hide Mul, Dbl, Del, Split, Cross4, XY, Dbl4;
    var m, n := XY(a), XY(b);
    DelIs(a);
    DelIs(b);
    FourTimesFour(m, n);
    MulDbl4(C, Mul(m, n));
    Cross4Is(a, b);
  }

  lemma FourTimesFour(m: Fe, n: Fe)
    ensures Mul(Dbl(Dbl(m)), Dbl(Dbl(n))) == Dbl4(Mul(m, n))
  {
    hide Mul, Add, Dbl;
    MulDbl(Dbl(Dbl(m)), Dbl(n));
    MulDbl(Dbl(Dbl(m)), n);
    MulDbl(n, Dbl(m));
    MulDbl(n, m);
  }

  lemma PointFits(a: Point)
    requires OnCurve(a)
    ensures Fits(C, Split(a))
  {
    hide Mul, OnCurve, Del, Cross4;
    CrossIs(a, a);
    CurveIs(a);
    DifferenceOfSquares(a.y, a.x);
    MulCommutes(Add(a.y, a.x), Sub(a.y, a.x));
    SelfCross(a);
  }

  lemma SelfCross(a: Point)
    ensures Cross4(a, a) == DXY(a)
  {
    hide Mul;
  }

  // ---------------------------------------------------------------- y coordinates

  /** p1 p2 and m1 m2 are the sum and the difference of the numerators. */
  lemma NumeratorsAre(a: Point, b: Point)
    ensures Mul(Split(a).p, Split(b).p) == Add(SumY(a, b), SumX(a, b))
    ensures Mul(Split(a).m, Split(b).m) == Sub(SumY(a, b), SumX(a, b))
  {
    hide Mul, Add, Sub;
    ProductOfSums(a.y, a.x, b.y, b.x);
    ProductOfDifferences(a.y, a.x, b.y, b.x);
    MulCommutes(a.y, b.x);
    SwapSum(Mul(b.x, a.y), Mul(a.x, b.y));
  }

  lemma Factored(t: Fe)
    ensures Sub(1, Sq(t)) == Mul(Sub(1, t), Add(1, t))
  {
    hide Mul, Add, Sub;
    DifferenceOfSquares(1, t);
    MulOne(1);
  }

  /** The sum of two points by p and m, without its denominator u = 1 - t^2. */
  lemma SplitSum(a: Point, b: Point, s: Point)
    requires IsSum(a, b, s)
    ensures var t, e, f := Cross4(a, b), Mul(Split(a).p, Split(b).p), Mul(Split(a).m, Split(b).m);
      var u := Sub(1, Sq(t));
      Mul(u, Split(s).p) == Add(e, Mul(t, f)) && Mul(u, Split(s).m) == Add(f, Mul(t, e))
  {
    hide Mul, Add, Sub, Sq, Cross4;
    var t, x, y := Cross4(a, b), SumX(a, b), SumY(a, b);
    var u := Sub(1, Sq(t));
    Factored(t);
    WithoutDenominator(Sub(1, t), Add(1, t), s.y, y);
    MulCommutes(Sub(1, t), Add(1, t));
    WithoutDenominator(Add(1, t), Sub(1, t), s.x, x);
    MulAdd(u, s.y, s.x);
    MulSub(u, s.y, s.x);
    LeftFactors(t, x, y);
    NumeratorsAre(a, b);
  }

  lemma WithoutDenominator(v: Fe, w: Fe, z: Fe, n: Fe)
    requires Mul(z, v) == n
    ensures Mul(Mul(v, w), z) == Mul(w, n)
  {
    hide Mul;
    MulCommutes(v, w);
    MulAssociates(w, v, z);
    MulCommutes(v, z);
  }

  /** u d = R for the sum of two points. */
  lemma DelOfSum(a: Point, b: Point, s: Point)
    requires IsSum(a, b, s)
    ensures Mul(Sub(1, Sq(Cross4(a, b))), Del(Split(s))) == RR(Split(a), Split(b))
  {
    hide Mul, Add, Sub, Cross4, Dbl, Del, SumX, SumY;
    var t, x, y := Cross4(a, b), SumX(a, b), SumY(a, b);
    var u, e, f := Sub(1, Sq(t)), Mul(Split(a).p, Split(b).p), Mul(Split(a).m, Split(b).m);
    Factored(t);
    NumeratorsOf(a, b, s);
    MulCommutes(s.x, s.y);
    MulCommutes(Sub(1, t), Add(1, t));
    MulPairs(s.x, Add(1, t), s.y, Sub(1, t));
    MulCommutes(u, XY(s));
    DelIs(s);
    MulDbl(u, Dbl(XY(s)));
    MulDbl(u, XY(s));
    NumeratorsAre(a, b);
    SumFromDifference(y, x);
    MulCommutes(x, y);
    MulPairs(Split(a).p, Split(b).p, Split(a).p, Split(b).p);
    MulPairs(Split(a).m, Split(b).m, Split(a).m, Split(b).m);
    Left(Sq(e), Sq(f), Dbl(Dbl(Mul(y, x))));
  }

  lemma NumeratorsOf(a: Point, b: Point, s: Point)
    requires IsSum(a, b, s)
    ensures Mul(s.x, Add(1, Cross4(a, b))) == SumX(a, b) && Mul(s.y, Sub(1, Cross4(a, b))) == SumY(a, b)
  {
    hide Mul, Add, Sub, Cross4;
  }

  lemma Left(a: Fe, b: Fe, c: Fe)
    requires a == Add(b, c)
    ensures c == Sub(a, b)
  {}

  /** Twice the y coordinate of (P1 + P2) + P3 is L1 / D1. */
  lemma FirstY(a: Point, b: Point, s: Point, c: Point, w: Point)
    requires IsSum(a, b, s) && IsSum(s, c, w)
    ensures Mul(Dbl(w.y), Den(C, Split(a), Split(b), Split(c))) == Num(C, Split(a), Split(b), Split(c))
    ensures Den(C, Split(a), Split(b), Split(c)) == Mul(Sub(1, Sq(Cross4(a, b))), Sub(1, Cross4(s, c)))
  {
    hide Mul, Add, Sub, Sq, Cross4, Dbl, Del, Split, RR, HH, NN, SumX, SumY, IsSum;
    var t, tau := Cross4(a, b), Cross4(s, c);
    var u := Sub(1, Sq(t));
    DenOfSum(a, b, s, c);
    NumeratorsOf(s, c, w);
    TwiceSumY(s, c);
    MulDbl(Sub(1, tau), w.y);
    MulCommutes(u, Sub(1, tau));
    MulAssociates(Dbl(w.y), Sub(1, tau), u);
    MulCommutes(Dbl(SumY(s, c)), u);
    NumOfSum(a, b, s, c);
  }

  lemma TwiceSumY(s: Point, c: Point)
    ensures Dbl(SumY(s, c)) == Add(Mul(Split(s).p, Split(c).p), Mul(Split(s).m, Split(c).m))
  {
    hide Mul, Split, SumX, SumY;
    NumeratorsAre(s, c);
    BothSides(SumY(s, c), SumX(s, c));
  }

  /** D1 = u (1 - tau) */
  lemma DenOfSum(a: Point, b: Point, s: Point, c: Point)
    requires IsSum(a, b, s)
    ensures Den(C, Split(a), Split(b), Split(c)) == Mul(Sub(1, Sq(Cross4(a, b))), Sub(1, Cross4(s, c)))
  {
    hide Mul, Add, Sub, Sq, Cross4, Del, Split, RR, IsSum;
    var u := Sub(1, Sq(Cross4(a, b)));
    var d, e := Del(Split(s)), Del(Split(c));
    CrossIs(a, b);
    CrossIs(s, c);
    DelOfSum(a, b, s);
    MulSub(u, 1, Cross4(s, c));
    MulOne(u);
    MoveFactor(u, C, Mul(d, e));
    MulAssociates(u, d, e);
    MulCommutes(Mul(u, d), e);
    MulAssociates(C, e, Mul(u, d));
  }

  /** u (p12 p3 + m12 m3) = L1 */
  lemma NumOfSum(a: Point, b: Point, s: Point, c: Point)
    requires IsSum(a, b, s)
    ensures Mul(Sub(1, Sq(Cross4(a, b))), Add(Mul(Split(s).p, Split(c).p), Mul(Split(s).m, Split(c).m)))
         == Num(C, Split(a), Split(b), Split(c))
  {
    hide Mul, Add, Sub, Sq, Cross4, Split, IsSum, Tt;
    var u, t := Sub(1, Sq(Cross4(a, b))), Cross4(a, b);
    var sp, cp := Split(s), Split(c);
    SplitSum(a, b, s);
    CrossIs(a, b);
    MulAdd(u, Mul(sp.p, cp.p), Mul(sp.m, cp.m));
    MulAssociates(u, sp.p, cp.p);
    MulAssociates(u, sp.m, cp.m);
    NumProductsOf(t, Split(a), Split(b), cp);
  }

  lemma NumProductsOf(t: Fe, a: Pm, b: Pm, c: Pm)
    ensures var e, f := Mul(a.p, b.p), Mul(a.m, b.m);
      Add(Mul(Add(e, Mul(t, f)), c.p), Mul(Add(f, Mul(t, e)), c.m)) == Add(HH(a, b, c), Mul(t, NN(a, b, c)))
  {
    hide Mul, Add;
    var e, f := Mul(a.p, b.p), Mul(a.m, b.m);
    MulAdd(c.p, e, Mul(t, f));
    MulAdd(c.m, f, Mul(t, e));
    MulAssociates(t, f, c.p);
    MulAssociates(t, e, c.m);
    MulAssociates(a.p, b.p, c.p);
    MulAssociates(a.m, b.m, c.m);
    MulAssociates(a.p, b.p, c.m);
    MulAssociates(a.m, b.m, c.p);
    MulAdd(t, Mul(e, c.m), Mul(f, c.p));
    AddPairs(Mul(e, c.p), Mul(t, Mul(f, c.p)), Mul(f, c.m), Mul(t, Mul(e, c.m)));
    SwapSum(Mul(t, Mul(f, c.p)), Mul(t, Mul(e, c.m)));
  }

  lemma DenNotZero(a: Point, b: Point, s: Point, c: Point)
    requires Fermat() && OnCurve(a) && OnCurve(b) && OnCurve(s) && OnCurve(c) && IsSum(a, b, s)
    ensures Den(C, Split(a), Split(b), Split(c)) != 0
  {
    NeverVanishes(a, b);
    NeverVanishes(s, c);
    var t, tau := Cross4(a, b), Cross4(s, c);
    assert Sub(1, t) != 0 && Add(1, t) != 0 && Sub(1, tau) != 0;
    hide Fermat, Mul, Add, Sub, Sq, Cross4, OnCurve, IsSum, Den;
    DenOfSum(a, b, s, c);
    Factored(t);
    ProductNotZero(Sub(1, t), Add(1, t));
    ProductNotZero(Sub(1, Sq(t)), Sub(1, tau));
  }

  /** The two sums have the same y coordinate. */
  lemma SameY(a: Point, b: Point, c: Point, s: Point, v: Point, w: Point, w': Point)
    requires Fermat() && OnCurve(a) && OnCurve(b) && OnCurve(c)
    requires IsSum(a, b, s) && IsSum(s, c, w) && IsSum(b, c, v) && IsSum(a, v, w')
    ensures w.y == w'.y
  {
    hide Fermat, Mul, OnCurve, IsSum, Den, Num, Split, Fits;
    SumOnCurve(a, b, s);
    SumOnCurve(b, c, v);
    SumCommutes(b, c, v);
    SumCommutes(a, v, w');
    PointFits(a);
    PointFits(b);
    PointFits(c);
    var d1, d3 := Den(C, Split(a), Split(b), Split(c)), Den(C, Split(c), Split(b), Split(a));
    FirstY(a, b, s, c, w);
    FirstY(c, b, v, a, w');
    MainIdentity(C, Split(a), Split(b), Split(c));
    DenNotZero(a, b, s, c);
    DenNotZero(c, b, v, a);
    EqualQuotients(Dbl(w.y), Dbl(w'.y), d1, d3);
    HalfIsUnique(w.y, w'.y);
  }

  lemma EqualQuotients(y: Fe, y': Fe, d1: Fe, d3: Fe)
    requires Fermat() && d1 != 0 && d3 != 0 && Mul(Mul(y, d1), d3) == Mul(Mul(y', d3), d1)
    ensures y == y'
  {
    hide Fermat, Mul;
    MulAssociates(y, d1, d3);
    MulAssociates(y', d3, d1);
    MulCommutes(d1, d3);
    ProductNotZero(d1, d3);
    MulCommutes(y, Mul(d1, d3));
    MulCommutes(y', Mul(d1, d3));
    Cancel(Mul(d1, d3), y, y');
  }

  lemma HalfIsUnique(a: Fe, b: Fe)
    requires Dbl(a) == Dbl(b)
    ensures a == b
  {}

  // ---------------------------------------------------------------- x coordinates

  /** (i y, i x), which is the sum with a point of order 4. */
  function Turn(a: Point): Point { Point(Mul(SQRT_M1, a.y), Mul(SQRT_M1, a.x)) }

  lemma TurnedOnCurve(a: Point)
    requires OnCurve(a)
    ensures OnCurve(Turn(a))
  {
    hide Mul, OnCurve, Neg, Sub, Add, XX, YY, Turn;
    TurnedSquares(a);
    CurveIs(a);
    OnCurveIs(Turn(a));
    MulNeg(Neg(YY(a)), XX(a));
    MulNeg(XX(a), YY(a));
    MulCommutes(XX(a), YY(a));
    NegTwice(Mul(XX(a), YY(a)));
    SwapDifference(XX(a), YY(a));
  }

  lemma SwapDifference(x: Fe, y: Fe)
    ensures Sub(Neg(x), Neg(y)) == Sub(y, x)
  {}

  lemma NegTwice(a: Fe)
    ensures Neg(Neg(a)) == a
  {}

  lemma TurnedSquares(a: Point)
    ensures XX(Turn(a)) == Neg(YY(a)) && YY(Turn(a)) == Neg(XX(a))
  {
    hide Mul, Neg;
    SqrtOfMinusOne();
    MulPairs(SQRT_M1, a.y, SQRT_M1, a.y);
    MulPairs(SQRT_M1, a.x, SQRT_M1, a.x);
    MulNeg(YY(a), 1);
    MulNeg(XX(a), 1);
    MulOne(YY(a));
    MulOne(XX(a));
  }

  lemma TurnedCross(a: Point, b: Point)
    ensures Cross4(a, Turn(b)) == Neg(Cross4(a, b))
  {
    hide Mul, Neg;
    var i := SQRT_M1;
    SqrtOfMinusOne();
    TurnedProducts(i, a.x, a.y, b.x, b.y);
    var z := Mul(Mul(a.x, b.x), Mul(a.y, b.y));
    MulNeg(z, 1);
    MulOne(z);
    MulNeg(D, z);
  }

  lemma TurnedProducts(i: Fe, x: Fe, y: Fe, x': Fe, y': Fe)
    ensures Mul(Mul(x, Mul(i, y')), Mul(y, Mul(i, x'))) == Mul(Mul(i, i), Mul(Mul(x, x'), Mul(y, y')))
  {
    hide Mul;
    MoveFactor(x, i, y');
    MoveFactor(y, i, x');
    MulPairs(i, Mul(x, y'), i, Mul(y, x'));
    MulCommutes(y, x');
    MulPairs(x, y', x', y);
    MulCommutes(y', y);
  }

  lemma TurnedSums(a: Point, b: Point)
    ensures SumX(a, Turn(b)) == Mul(SQRT_M1, SumY(a, b)) && SumY(a, Turn(b)) == Mul(SQRT_M1, SumX(a, b))
  {
    hide Mul, Add;
    var i := SQRT_M1;
    MoveFactor(a.x, i, b.x);
    MoveFactor(a.y, i, b.x);
    MoveFactor(a.x, i, b.y);
    MulAssociates(i, b.y, a.y);
    MulCommutes(b.y, a.y);
    MulCommutes(a.y, b.x);
    MulAdd(i, Mul(a.y, b.y), Mul(a.x, b.x));
    MulAdd(i, Mul(a.x, b.y), Mul(b.x, a.y));
    SwapSum(Mul(i, Mul(a.x, b.x)), Mul(i, Mul(a.y, b.y)));
    SwapSum(Mul(i, Mul(b.x, a.y)), Mul(i, Mul(a.x, b.y)));
  }

  /** Turning one summand turns the sum. */
  lemma TurnedSum(a: Point, b: Point, s: Point)
    requires IsSum(a, b, s)
    ensures IsSum(a, Turn(b), Turn(s))
  {
    TurnedCross(a, b);
    hide Mul, Cross4;
    var t := Cross4(a, b);
    TurnedSigns(t);
    TurnedSums(a, b);
    MulAssociates(SQRT_M1, s.y, Sub(1, t));
    MulAssociates(SQRT_M1, s.x, Add(1, t));
  }

  lemma TurnedSigns(t: Fe)
    ensures Add(1, Neg(t)) == Sub(1, t) && Sub(1, Neg(t)) == Add(1, t)
  {}

  // ---------------------------------------------------------------- the theorem

  /** (P1 + P2) + P3 = P1 + (P2 + P3) */
  lemma SumAssociates(a: Point, b: Point, c: Point, s: Point, v: Point, w: Point, w': Point)
    requires Fermat() && OnCurve(a) && OnCurve(b) && OnCurve(c)
    requires IsSum(a, b, s) && IsSum(s, c, w) && IsSum(b, c, v) && IsSum(a, v, w')
    ensures w == w'
  {
    hide Fermat, OnCurve, IsSum, Mul;
    SameY(a, b, c, s, v, w, w');
    TurnedOnCurve(c);
    TurnedSum(s, c, w);
    TurnedSum(b, c, v);
    TurnedSum(a, v, w');
    SameY(a, b, Turn(c), s, Turn(v), Turn(w), Turn(w'));
    Cancel(SQRT_M1, w.x, w'.x);
  }

  lemma AssociativeLawHolds(g: Group, p: Point, q: Point, r: Point)
    requires Fermat() && Edwards(g)
    ensures AssociativeLaw(g, p, q, r)
  {
    hide Fermat, Edwards, OnCurve, IsSum;
    MembersAreOnCurve(g, p);
    MembersAreOnCurve(g, q);
    MembersAreOnCurve(g, r);
    if OnCurve(p) && OnCurve(q) && OnCurve(r) {
      var s, v := g.add(p, q), g.add(q, r);
      SumIsSum(g, p, q);
      SumIsSum(g, q, r);
      SumOnCurve(p, q, s);
      SumOnCurve(q, r, v);
      SumIsSum(g, s, r);
      SumIsSum(g, p, v);
      SumAssociates(p, q, r, s, v, g.add(s, r), g.add(p, v));
    }
  }

  /** The Edwards addition law makes the points of the curve a commutative group. */
  lemma EdwardsIsLawful(g: Group)
    requires Fermat() && Edwards(g)
    ensures Lawful(g)
  {
    hide Fermat, Edwards, OnCurve, IsSum, Inverse, SumLaw, AssociativeLaw, NeutralLaw, InverseLaw;
    NeutralOnCurve();
    MembersAreOnCurve(g, IDENTITY);
    forall p, q
      ensures SumLaw(g, p, q)
    {
      SumLawHolds(g, p, q);
    }
    forall p, q, r
      ensures AssociativeLaw(g, p, q, r)
    {
      AssociativeLawHolds(g, p, q, r);
    }
    forall p
      ensures NeutralLaw(g, p) && InverseLaw(g, p)
    {
      NeutralLawHolds(g, p);
      InverseLawHolds(g, p);
    }
  }

  lemma CurveIsLawful()
    requires Fermat()
    ensures Lawful(CURVE)
  {
    hide *;
    CurveIsEdwards();
    EdwardsIsLawful(CURVE);
  }
}
