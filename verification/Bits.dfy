/** Unsigned machine arithmetic on natural numbers: powers of two, shifts and the bitwise operators of C. */
module Bits {
  import opened Arithmetic

  function Pow2(n: nat): (p: nat)
    ensures p > 0
  {
    if n == 0 then 1 else 2 * Pow2(n - 1)
  }

  lemma {:induction false} Pow2Add(m: nat, n: nat)
    ensures Pow2(m + n) == Pow2(m) * Pow2(n)
    decreases m
  {
    if m > 0 {
      Pow2Add(m - 1, n);
      assert Pow2(m + n) == 2 * Pow2(m - 1 + n);
      Associates(2, Pow2(m - 1), Pow2(n));
    } else {
      assert Pow2(0) * Pow2(n) == Pow2(n);
    }
  }

  lemma Pow2Small()
    ensures Pow2(0) == 1 && Pow2(1) == 2 && Pow2(2) == 4 && Pow2(3) == 8
    ensures Pow2(5) == 32 && Pow2(6) == 64 && Pow2(7) == 128
  {
    Pow2Byte();
    assert Pow2(4) == 2 * Pow2(3) && Pow2(8) == 2 * Pow2(7) && Pow2(7) == 2 * Pow2(6) && Pow2(6) == 2 * Pow2(5);
  }

  lemma Pow2Byte()
    ensures Pow2(4) == 16 && Pow2(8) == 256
  {
    assert Pow2(4) == 2 * Pow2(3) && Pow2(3) == 2 * Pow2(2) && Pow2(2) == 2 * Pow2(1);
    Pow2Add(4, 4);
  }

  lemma Pow2Words()
    ensures Pow2(16) == 0x1_0000 && Pow2(32) == 0x1_0000_0000 && Pow2(64) == 0x1_0000_0000_0000_0000
  {
    hide Pow2;
    Pow2Byte();
    Pow2Add(8, 8);
    Pow2Add(16, 16);
    Pow2Add(32, 32);
  }

  // ---------------------------------------------------------------- bitwise operators

  datatype Op = AndOp | OrOp | XorOp

  function OnBits(op: Op, x: nat, y: nat): (z: nat)
    requires x < 2 && y < 2
    ensures z < 2
  {
    match op
    case AndOp => x * y
    case OrOp => if x == 0 then y else 1
    case XorOp => if x == y then 0 else 1
  }

  /** The operator applied bit by bit, from the lowest bit up. */
  function Bitwise(op: Op, a: nat, b: nat): nat
    decreases a + b
  {
    if a == 0 && b == 0 then 0
    else OnBits(op, a % 2, b % 2) + 2 * Bitwise(op, a / 2, b / 2)
  }

  function And(a: nat, b: nat): nat { Bitwise(AndOp, a, b) }

  function Or(a: nat, b: nat): nat { Bitwise(OrOp, a, b) }

  function Xor(a: nat, b: nat): nat { Bitwise(XorOp, a, b) }

  lemma Halves(op: Op, a: nat, b: nat)
    ensures Bitwise(op, a, b) % 2 == OnBits(op, a % 2, b % 2)
    ensures Bitwise(op, a, b) / 2 == Bitwise(op, a / 2, b / 2)
  {}

  lemma FromHalves(x: nat, y: nat)
    requires x % 2 == y % 2 && x / 2 == y / 2
    ensures x == y
  {}

  lemma {:induction false} BitwiseBound(op: Op, k: nat, a: nat, b: nat)
    requires a < Pow2(k) && b < Pow2(k)
    ensures Bitwise(op, a, b) < Pow2(k)
    decreases k
  {
    if k > 0 {
      Halves(op, a, b);
      BitwiseBound(op, k - 1, a / 2, b / 2);
    }
  }

  /** The low `k` bits and the bits above them do not meet. */
  lemma {:induction false} BitwiseSplit(op: Op, k: nat, a: nat, b: nat, c: nat, d: nat)
    requires a < Pow2(k) && b < Pow2(k)
    ensures Bitwise(op, a + Pow2(k) * c, b + Pow2(k) * d) == Bitwise(op, a, b) + Pow2(k) * Bitwise(op, c, d)
    decreases k
  {
    hide Bitwise;
    if k == 0 {
      var z := Bitwise(op, c, d);
      assert 1 * c == c && 1 * d == d && 1 * z == z;
      BitwiseOfZeros(op);
    } else {
      BitwiseSplit(op, k - 1, a / 2, b / 2, c, d);
      SplitStep(op, Pow2(k), Pow2(k - 1), a, b, c, d);
    }
  }

  lemma BitwiseOfZeros(op: Op)
    ensures Bitwise(op, 0, 0) == 0
  {}

  lemma SplitStep(op: Op, p: nat, q: nat, a: nat, b: nat, c: nat, d: nat)
    requires p == 2 * q
    requires Bitwise(op, a / 2 + q * c, b / 2 + q * d) == Bitwise(op, a / 2, b / 2) + q * Bitwise(op, c, d)
    ensures Bitwise(op, a + p * c, b + p * d) == Bitwise(op, a, b) + p * Bitwise(op, c, d)
  {
    hide Bitwise;
    var z := Bitwise(op, c, d);
    DoubledLow(op, a, b, q * c, q * d, q * z);
    Doubled(p, q, c);
    Doubled(p, q, d);
    Doubled(p, q, z);
  }

  lemma Doubled(p: nat, q: nat, c: nat)
    requires p == 2 * q
    ensures p * c == 2 * (q * c)
  {
    Associates(2, q, c);
  }

  lemma DoubledLow(op: Op, a: nat, b: nat, u: nat, v: nat, w: nat)
    requires Bitwise(op, a / 2 + u, b / 2 + v) == Bitwise(op, a / 2, b / 2) + w
    ensures Bitwise(op, a + 2 * u, b + 2 * v) == Bitwise(op, a, b) + 2 * w
  {
    hide Bitwise;
    Halves(op, a + 2 * u, b + 2 * v);
    Halves(op, a, b);
  }

  lemma {:induction false} OrZero(a: nat)
    ensures Or(a, 0) == a && Or(0, a) == a && Xor(a, 0) == a && Xor(0, a) == a
  {
    if a > 0 {
      OrZero(a / 2);
    }
  }

  /** Where no bit is set in both, or-ing is adding. */
  lemma OrIsAdd(k: nat, a: nat, c: nat)
    requires a < Pow2(k)
    ensures Or(a, Pow2(k) * c) == a + Pow2(k) * c
  {
    hide Bitwise, Pow2;
    BitwiseSplit(OrOp, k, a, 0, 0, c);
    OrZero(a);
    OrZero(c);
    assert Pow2(k) * 0 == 0;
  }

  lemma {:induction false} AndOnes(a: nat, k: nat)
    requires a < Pow2(k)
    ensures And(a, Pow2(k) - 1) == a
    decreases k
  {
    if k > 0 {
      AndOnes(a / 2, k - 1);
      Halves(AndOp, a, Pow2(k) - 1);
    }
  }

  lemma {:induction false} AndZero(x: nat)
    ensures And(x, 0) == 0
  {
    if x > 0 {
      AndZero(x / 2);
    }
  }

  lemma {:induction false} AndCommutes(a: nat, b: nat)
    ensures And(a, b) == And(b, a)
    decreases a + b
  {
    if a + b > 0 {
      AndCommutes(a / 2, b / 2);
      assert (a % 2) * (b % 2) == (b % 2) * (a % 2);
    }
  }

  /** Masking the low `k` bits is a remainder. */
  lemma AndMask(x: nat, k: nat)
    ensures And(x, Pow2(k) - 1) == x % Pow2(k)
  {
    hide Bitwise, Pow2;
    var p := Pow2(k);
    Division(x, p);
    BitwiseSplit(AndOp, k, x % p, p - 1, x / p, 0);
    AndOnes(x % p, k);
    AndZero(x / p);
    assert p * 0 == 0;
  }

  lemma Division(x: int, q: nat)
    requires q > 0
    ensures x == q * (x / q) + x % q
  {}

  lemma RemainderIs(x: nat, q: nat, t: nat, r: nat)
    requires q > 0 && x == q * t + r && r < q
    ensures x % q == r && x / q == t
  {
    Division(x, q);
    var d := x / q - t;
    Distributes(q, x / q, t);
    SmallMultiple(q, d);
  }

  lemma ShiftedRemainder(x: int, w: nat, q: int)
    requires w > 0
    ensures (x + w * q) % w == x % w
  {
    var y := x + w * q;
    assert x == w * (x / w) + x % w && y == w * (y / w) + y % w;
    var d := y / w - x / w - q;
    Distributes(w, y / w, x / w);
    Distributes(w, y / w - x / w, q);
    SmallMultiple(w, d);
  }

  // ---------------------------------------------------------------- laws of exclusive or

  lemma {:induction false} XorCommutes(a: nat, b: nat)
    ensures Xor(a, b) == Xor(b, a)
    decreases a + b
  {
    if a + b > 0 {
      XorCommutes(a / 2, b / 2);
    }
  }

  lemma {:induction false} XorAssociates(a: nat, b: nat, c: nat)
    ensures Xor(Xor(a, b), c) == Xor(a, Xor(b, c))
    decreases a + b + c
  {
    if a + b + c > 0 {
      XorAssociates(a / 2, b / 2, c / 2);
      Halves(XorOp, a, b);
      Halves(XorOp, b, c);
      Halves(XorOp, Xor(a, b), c);
      Halves(XorOp, a, Xor(b, c));
      FromHalves(Xor(Xor(a, b), c), Xor(a, Xor(b, c)));
    }
  }

  lemma {:induction false} XorSelf(a: nat)
    ensures Xor(a, a) == 0
  {
    if a > 0 {
      XorSelf(a / 2);
    }
  }

  lemma {:induction false} XorIsZero(a: nat, b: nat)
    requires Xor(a, b) == 0
    ensures a == b
    decreases a + b
  {
    if a + b > 0 {
      Halves(XorOp, a, b);
      XorIsZero(a / 2, b / 2);
      FromHalves(a, b);
    }
  }

  lemma {:induction false} OrIsZero(a: nat, b: nat)
    ensures Or(a, b) == 0 <==> a == 0 && b == 0
    decreases a + b
  {
    if a + b > 0 {
      Halves(OrOp, a, b);
      OrIsZero(a / 2, b / 2);
    }
  }
}
