/** The field of external/VRF_functions/ed25519_ref10.cpp: the integers modulo 2^255 - 19. */
module Field25519 {
  import opened Arithmetic
  import opened Bits

  const P: nat := 57896044618658097711785492504343953926634992332820282019728792003956564819949

  /** The residue of a number, found by adding or taking away the modulus. */
  function Rem(x: int): (r: nat)
    ensures r < P
    decreases if x < 0 then P - x else x
  {
    if x < 0 then Rem(x + P) else if x < P then x else Rem(x - P)
  }

  type Fe = x: nat | x < P

  function Add(a: Fe, b: Fe): Fe { if a + b < P then a + b else a + b - P }

  function Neg(a: Fe): Fe { if a == 0 then 0 else P - a }

  function Sub(a: Fe, b: Fe): Fe { Add(a, Neg(b)) }

  /** The product, as a sum of `a` times `b`; `MulIs` says that it is the residue of the product. */
  function Mul(a: Fe, b: Fe): Fe {
    if a == 0 then 0 else Add(Mul(a - 1, b), b)
  }

  // ---------------------------------------------------------------- congruence

  lemma {:induction false} RemOf(x: int) returns (q: int)
    ensures x == P * q + Rem(x)
    decreases if x < 0 then P - x else x
  {
    if x < 0 {
      q := RemOf(x + P);
      q := q - 1;
    } else if x < P {
      q := 0;
    } else {
      q := RemOf(x - P);
      q := q + 1;
    }
  }

  /** The one number below the modulus that differs by a multiple of it. */
  lemma RemBy(x: int, q: int, r: nat)
    requires r < P && x == P * q + r
    ensures Rem(x) == r
  {
    hide Rem;
    var q' := RemOf(x);
    assert P * (q' - q) == r - Rem(x);
    OnlyZeroMultiple(q' - q);
  }

  lemma OnlyZeroMultiple(k: int)
    requires P * k < P && P * (-k) < P
    ensures k == 0
  {}

  /** The residue is the remainder of the division by the modulus. */
  lemma RemIsRemainder(x: int)
    ensures Rem(x) == x % P
  {
    hide Rem;
    RemBy(x, x / P, x % P);
  }

  lemma RemShift(x: int, q: int)
    ensures Rem(x + P * q) == Rem(x)
  {
    hide Rem;
    var q' := RemOf(x);
    assert P * (q + q') == P * q + P * q';
    RemBy(x + P * q, q + q', Rem(x));
  }

  lemma RemSmall(x: Fe)
    ensures Rem(x) == x
  {}

  lemma RemIdem(x: int)
    ensures Rem(Rem(x)) == Rem(x)
  {}

  /** Congruent numbers differ by a multiple of the modulus. */
  lemma CongruentBy(a: int, b: int) returns (q: int)
    requires Rem(a) == Rem(b)
    ensures a == b + P * q
  {
    hide Rem;
    var qa := RemOf(a);
    var qb := RemOf(b);
    q := qa - qb;
    assert P * q == P * qa - P * qb;
  }

  /** Two pairs of numbers with the same difference are congruent together. */
  lemma SameDifference(a: int, b: int, c: int, d: int)
    requires Rem(a) == Rem(b) && a - b == c - d
    ensures Rem(c) == Rem(d)
  {
    hide Rem;
    var q := CongruentBy(a, b);
    RemShift(d, q);
  }

  lemma RemMul(a: int, b: int)
    ensures Rem(Rem(a) * b) == Rem(a * b) && Rem(b * Rem(a)) == Rem(b * a)
  {
    hide Rem;
    var q := RemOf(a);
    Distributes(b, P * q, Rem(a));
    Associates(P, q, b);
    RemShift(Rem(a) * b, q * b);
  }

  lemma RemAdd(a: int, b: int)
    ensures Rem(Rem(a) + b) == Rem(a + b)
  {
    hide Rem;
    RemIdem(a);
    SameDifference(Rem(a), a, Rem(a) + b, a + b);
  }

  // ---------------------------------------------------------------- the laws of the ring

  lemma AddIs(a: Fe, b: Fe)
    ensures Add(a, b) == Rem(a + b)
  {
    hide Rem;
    RemBy(a + b, if a + b < P then 0 else 1, Add(a, b));
  }

  lemma {:induction false} MulIs(a: Fe, b: Fe)
    ensures Mul(a, b) == Rem(a * b) == a * b % P
    decreases a
  {
    hide Rem, Add;
    RemIsRemainder(a * b);
    if a == 0 {
      RemBy(0, 0, 0);
    } else {
      MulIs(a - 1, b);
      AddIs(Mul(a - 1, b), b);
      RemAdd((a - 1) * b, b);
      Distributes(b, a - 1, 1);
    }
  }

  /** A product by its quotient and its residue. */
  lemma MulBy(a: Fe, b: Fe, q: int, r: Fe)
    requires a * b == P * q + r
    ensures Mul(a, b) == r
  {
    hide Mul, Rem;
    MulIs(a, b);
    RemBy(a * b, q, r);
  }

  lemma MulCommutes(a: Fe, b: Fe)
    ensures Mul(a, b) == Mul(b, a)
  {
    hide Mul, Rem;
    MulIs(a, b);
    MulIs(b, a);
    assert a * b == b * a;
  }

  lemma MulAssociates(a: Fe, b: Fe, c: Fe)
    ensures Mul(Mul(a, b), c) == Mul(a, Mul(b, c))
  {
    hide Mul, Rem;
    MulIs(a, b);
    MulIs(Mul(a, b), c);
    RemMul(a * b, c);
    MulIs(b, c);
    MulIs(a, Mul(b, c));
    RemMul(b * c, a);
    Associates(a, b, c);
  }

  lemma MulZero(a: Fe)
    ensures Mul(a, 0) == 0 && Mul(0, a) == 0
  {
    assert Mul(0, a) == 0;
    hide Mul;
    MulCommutes(a, 0);
  }

  lemma MulOne(a: Fe)
    ensures Mul(1, a) == a && Mul(a, 1) == a
  {
    assert Mul(0, a) == 0;
    assert Mul(1, a) == Add(Mul(0, a), a);
    hide Mul;
    MulCommutes(a, 1);
  }

  lemma MulAdd(a: Fe, b: Fe, c: Fe)
    ensures Mul(a, Add(b, c)) == Add(Mul(a, b), Mul(a, c))
    ensures Mul(Add(b, c), a) == Add(Mul(b, a), Mul(c, a))
  {
    hide Mul, Add;
    DistributeLeft(a, b, c);
    MulCommutes(a, Add(b, c));
    MulCommutes(a, b);
    MulCommutes(a, c);
  }

  lemma {:induction false} DistributeLeft(a: Fe, b: Fe, c: Fe)
    ensures Mul(a, Add(b, c)) == Add(Mul(a, b), Mul(a, c))
    decreases a
  {
    hide Add;
    if a == 0 {
      SumOfZeros();
    } else {
      DistributeLeft(a - 1, b, c);
      AddPairs(Mul(a - 1, b), Mul(a - 1, c), b, c);
    }
  }

  lemma SumOfZeros()
    ensures Add(0, 0) == 0
  {}

  lemma AddPairs(a: Fe, b: Fe, c: Fe, d: Fe)
    ensures Add(Add(a, b), Add(c, d)) == Add(Add(a, c), Add(b, d))
  {}

  lemma MulNeg(a: Fe, b: Fe)
    ensures Mul(a, Neg(b)) == Neg(Mul(a, b)) && Mul(Neg(b), a) == Neg(Mul(b, a))
  {
    hide Mul;
    MulAdd(a, b, Neg(b));
    MulZero(a);
    MulCommutes(a, Neg(b));
    MulCommutes(a, b);
  }

  lemma MulSub(a: Fe, b: Fe, c: Fe)
    ensures Mul(a, Sub(b, c)) == Sub(Mul(a, b), Mul(a, c))
    ensures Mul(Sub(b, c), a) == Sub(Mul(b, a), Mul(c, a))
  {
    hide Mul, Add, Neg;
    MulAdd(a, b, Neg(c));
    MulNeg(a, c);
  }

  /** The factors of a product of products may be paired the other way. */
  lemma MulPairs(a: Fe, b: Fe, c: Fe, d: Fe)
    ensures Mul(Mul(a, b), Mul(c, d)) == Mul(Mul(a, c), Mul(b, d))
  {
    hide Mul;
    MulAssociates(a, b, Mul(c, d));
    MulAssociates(b, c, d);
    MulCommutes(b, c);
    MulAssociates(c, b, d);
    MulAssociates(a, c, Mul(b, d));
  }

  // ---------------------------------------------------------------- powers

  function Pow(z: Fe, n: nat): Fe {
    if n == 0 then 1 else Mul(z, Pow(z, n - 1))
  }

  lemma PowOne(z: Fe)
    ensures Pow(z, 1) == z
  {
    hide Mul;
    assert Pow(z, 0) == 1;
    MulOne(z);
  }

  lemma {:induction false} PowAdd(z: Fe, m: nat, n: nat)
    ensures Mul(Pow(z, m), Pow(z, n)) == Pow(z, m + n)
    decreases m
  {
    hide Mul;
    if m == 0 {
      MulOne(Pow(z, n));
    } else {
      PowAdd(z, m - 1, n);
      MulAssociates(z, Pow(z, m - 1), Pow(z, n));
    }
  }

  /** `n` squarings in a row. */
  method Squarings(ghost z: Fe, ghost e: nat, t: Fe, n: nat) returns (r: Fe)
    requires t == Pow(z, e)
    ensures r == Pow(z, e * Pow2(n))
  {
    hide Pow, Mul;
    r := t;
    var i := 0;
    assert e * Pow2(0) == e;
    while i < n
      invariant 0 <= i <= n
      invariant r == Pow(z, e * Pow2(i))
    {
      PowAdd(z, e * Pow2(i), e * Pow2(i));
      Distributes(e, Pow2(i), Pow2(i));
      r := Mul(r, r);
      i := i + 1;
    }
  }

  /** The exponent `2^n - 1`. */
  function Ones(n: nat): nat { Pow2(n) - 1 }

  lemma OnesJoin(m: nat, n: nat)
    ensures Ones(m) * Pow2(n) + Ones(n) == Ones(m + n)
  {
    hide Pow2;
    Pow2Add(m, n);
    Distributes(Pow2(n), Pow2(m), 1);
  }

  /** Squaring `2^m - 1` ones up by `n` places and multiplying in `2^n - 1`. */
  method Extend(ghost z: Fe, ghost m: nat, t: Fe, n: nat, s: Fe) returns (r: Fe)
    requires t == Pow(z, Ones(m)) && s == Pow(z, Ones(n))
    ensures r == Pow(z, Ones(m + n))
  {
    hide Pow, Mul, Ones;
    r := Squarings(z, Ones(m), t, n);
    PowAdd(z, Ones(m) * Pow2(n), Ones(n));
    OnesJoin(m, n);
    r := Mul(r, s);
  }

  /** The exponent (2^255 - 19 - 5) / 8. */
  function RootExponent(): nat { Pow2(252) - 3 }

  /** `fe25519_pow22523`: a chain of squarings and multiplications that raises `z` to (p - 5) / 8. */
  method Pow22523(z: Fe) returns (out: Fe)
    ensures out == Pow(z, RootExponent())
  {
    hide Pow, Mul, Ones, Pow2, RootExponent;
    PowOne(z);
    PowAdd(z, 1, 1);
    PowAdd(z, 2, 2);
    PowAdd(z, 4, 4);
    PowAdd(z, 1, 8);
    PowAdd(z, 2, 9);
    PowAdd(z, 11, 11);
    PowAdd(z, 9, 22);
    var t0 := Mul(z, z);
    var t1 := Mul(t0, t0);
    t1 := Mul(t1, t1);
    t1 := Mul(z, t1);
    t0 := Mul(t0, t1);
    t0 := Mul(t0, t0);
    t0 := Mul(t1, t0);
    ThirtyOne();
    t0 := Extend(z, 5, t0, 5, t0);
    t1 := Extend(z, 10, t0, 10, t0);
    t1 := Extend(z, 20, t1, 20, t1);
    t0 := Extend(z, 40, t1, 10, t0);
    t1 := Extend(z, 50, t0, 50, t0);
    t1 := Extend(z, 100, t1, 100, t1);
    t0 := Extend(z, 200, t1, 50, t0);
    t0 := Squarings(z, Ones(250), t0, 2);
    LastExponent();
    PowAdd(z, Ones(250) * Pow2(2), 1);
    out := Mul(t0, z);
  }

  lemma ThirtyOne()
    ensures Ones(5) == 31
  {
    Pow2Byte();
    assert Pow2(5) == 2 * Pow2(4);
  }

  lemma LastExponent()
    ensures Ones(250) * Pow2(2) + 1 == RootExponent()
  {
    hide Pow2;
    Pow2Add(250, 2);
    Pow2Small();
    assert (Pow2(250) - 1) * 4 == Pow2(250) * 4 - 4;
  }
}
