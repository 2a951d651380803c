/** The rotations of external/VRF_functions/common.h: `rotl32`, `rotl64`, `rotr32` and `rotr64`, for words of
    any width `w`.  A rotation permutes the bits of a word cyclically, and any sequence of rotations is one. */
module Rotations {
  import opened Arithmetic
  import opened Bits
  import opened WordCodec

  function RotL(w: nat, x: nat, b: nat): nat
    requires 0 < b < w && x < Pow2(w)
  {
    Or(Shl(w, x, b), Shr(x, w - b))
  }

  function RotR(w: nat, x: nat, b: nat): nat
    requires 0 < b < w && x < Pow2(w)
  {
    Or(Shr(x, b), Shl(w, x, w - b))
  }

  // ---------------------------------------------------------------- one bit at a time

  /** The top bit goes round to the bottom. */
  function Turn(w: nat, x: nat): (y: nat)
    requires w > 0 && x < Pow2(w)
    ensures y < Pow2(w)
  {
    if x < Pow2(w - 1) then 2 * x else 2 * (x - Pow2(w - 1)) + 1
  }

  function Turns(w: nat, x: nat, k: nat): (y: nat)
    requires w > 0 && x < Pow2(w)
    ensures y < Pow2(w)
  {
    if k == 0 then x else Turn(w, Turns(w, x, k - 1))
  }

  lemma {:induction false} TurnsAdd(w: nat, x: nat, j: nat, k: nat)
    requires w > 0 && x < Pow2(w)
    ensures Turns(w, x, j + k) == Turns(w, Turns(w, x, j), k)
    decreases k
  {
    hide Turn;
    if k > 0 {
      TurnsAdd(w, x, j, k - 1);
    }
  }

  /** After `b` turns the top `b` bits `h` have come out below the others, `l`. */
  lemma {:induction false} TurnsSwapParts(w: nat, x: nat, b: nat, h: nat, l: nat)
    requires 0 < w && b <= w && x < Pow2(w)
    requires h < Pow2(b) && l < Pow2(w - b) && x == h * Pow2(w - b) + l
    ensures Turns(w, x, b) == l * Pow2(b) + h
    decreases b
  {
    hide Pow2, Turn;
    if b == 0 {
      Pow2Small();
      assert h == 0 && 0 * Pow2(w) == 0 && l * 1 == l;
    } else {
      var m, q := Pow2(w - b), Pow2(b - 1);
      var t, h' := h % 2, h / 2;
      var l' := t * m + l;
      Pow2Next(w - b);
      Pow2Next(b - 1);
      SplitTop(m, h, h', t);
      TurnsSwapParts(w, x, b - 1, h', l');
      Pow2Add(w - b, b - 1);
      JoinParts(m, q, t, l, h');
      Doubled(Pow2(b), q, l);
      TurnParts(w, Turns(w, x, b - 1), m * q, l * q, h', t, q);
    }
  }

  lemma Pow2Next(n: nat)
    ensures Pow2(n + 1) == 2 * Pow2(n)
  {}

  lemma SplitTop(m: nat, h: nat, h': nat, t: nat)
    requires h == 2 * h' + t
    ensures h * m == h' * (2 * m) + t * m
  {
    Distributes(m, 2 * h', t);
    Associates(h', 2, m);
  }

  lemma JoinParts(m: nat, q: nat, t: nat, l: nat, h: nat)
    requires t < 2 && l < m && h < q
    ensures (t * m + l) * q == t * (m * q) + l * q
    ensures l * q + h < m * q
  {
    Monotonic(l + 1, m, q);
    Distributes(q, l, 1);
    Distributes(q, t * m, l);
    Associates(t, m, q);
  }

  lemma TurnParts(w: nat, y: nat, top: nat, lq: nat, h': nat, t: nat, q: nat)
    requires w > 0 && top == Pow2(w - 1) && y < Pow2(w)
    requires t < 2 && y == t * top + lq + h' && lq + h' < top
    ensures Turn(w, y) == 2 * lq + (2 * h' + t)
  {
    assert t * top == if t == 0 then 0 else top;
  }

  // ---------------------------------------------------------------- the code rotates

  lemma {:induction false} OrCommutes(a: nat, b: nat)
    ensures Or(a, b) == Or(b, a)
    decreases a + b
  {
    if a + b > 0 {
      OrCommutes(a / 2, b / 2);
    }
  }

  /** Or-ing the two shifts turns the word by `b` bits. */
  lemma RotLTurns(w: nat, x: nat, b: nat)
    requires 0 < b < w && x < Pow2(w)
    ensures RotL(w, x, b) == Turns(w, x, b)
  {
    hide Pow2, Bitwise, Turns, Shl, Shr;
    var m, p := Pow2(w - b), Pow2(b);
    ShrValue(x, w - b);
    var h, l := Shr(x, w - b), x % m;
    Pow2Add(w - b, b);
    Division(x, m);
    assert m * h == h * m;
    HighPart(x, h, m, p);
    ShlParts(w, x, b, h, l);
    OrIsAdd(b, h, l);
    assert p * l == l * p;
    OrCommutes(l * p, h);
    TurnsSwapParts(w, x, b, h, l);
  }

  lemma HighPart(x: nat, h: nat, m: nat, p: nat)
    requires x < m * p && h * m <= x
    ensures h < p
  {
    if h >= p {
      Monotonic(p, h, m);
    }
  }

  lemma ShlParts(w: nat, x: nat, b: nat, h: nat, l: nat)
    requires 0 < b < w && x == h * Pow2(w - b) + l && l < Pow2(w - b)
    ensures Shl(w, x, b) == l * Pow2(b)
  {
    hide Pow2, Shl;
    ShlValue(w, x, b);
    Pow2Add(w - b, b);
    ScaledParts(x, h, l, Pow2(w - b), Pow2(b));
    RemainderIs(x * Pow2(b), Pow2(w), h, l * Pow2(b));
  }

  lemma ScaledParts(x: nat, h: nat, l: nat, m: nat, p: nat)
    requires x == h * m + l && l < m && p > 0
    ensures x * p == m * p * h + l * p && l * p < m * p
  {
    Distributes(p, h * m, l);
    Associates(h, m, p);
    Monotonic(l + 1, m, p);
    Distributes(p, l, 1);
  }

  lemma RotRIsRotL(w: nat, x: nat, b: nat)
    requires 0 < b < w && x < Pow2(w)
    ensures RotR(w, x, b) == RotL(w, x, w - b)
  {
    hide Pow2, Bitwise, Shl, Shr;
    OrCommutes(Shr(x, b), Shl(w, x, w - b));
  }

  lemma FullTurn(w: nat, x: nat)
    requires w > 0 && x < Pow2(w)
    ensures Turns(w, x, w) == x
  {
    TurnsSwapParts(w, x, w, x, 0);
    assert 0 * Pow2(w) == 0;
  }

  // ---------------------------------------------------------------- sequences of rotations

  datatype Rotation = Left(amount: nat) | Right(amount: nat)

  predicate Amounts(w: nat, rs: seq<Rotation>) {
    forall k :: 0 <= k < |rs| ==> 0 < rs[k].amount < w
  }

  lemma RotLBound(w: nat, x: nat, b: nat)
    requires 0 < b < w && x < Pow2(w)
    ensures RotL(w, x, b) < Pow2(w) && RotR(w, x, b) < Pow2(w)
  {
    hide RotL, RotR, Turns, Pow2;
    RotLTurns(w, x, b);
    RotRIsRotL(w, x, b);
    RotLTurns(w, x, w - b);
  }

  /** The rotations `rs` of `x`, one after the other. */
  function RotateAll(w: nat, x: nat, rs: seq<Rotation>): (y: nat)
    requires w > 0 && x < Pow2(w) && Amounts(w, rs)
    ensures y < Pow2(w)
    decreases |rs|
  {
    if rs == [] then x
    else
      RotLBound(w, x, rs[0].amount);
      RotateAll(w, if rs[0].Left? then RotL(w, x, rs[0].amount) else RotR(w, x, rs[0].amount), rs[1..])
  }

  /** How far `rs` turn a word to the left, all in all. */
  function Net(rs: seq<Rotation>): int {
    if rs == [] then 0
    else (if rs[0].Left? then rs[0].amount else -(rs[0].amount as int)) + Net(rs[1..])
  }

  lemma {:induction false} TurnsPeriod(w: nat, x: nat, k: nat, n: nat)
    requires w > 0 && x < Pow2(w)
    ensures Turns(w, x, k + w * n) == Turns(w, x, k)
    decreases n
  {
    hide Turns, Pow2;
    if n == 0 {
      assert k + w * 0 == k;
    } else {
      assert k + w * n == k + w * (n - 1) + w;
      TurnsPeriod(w, x, k, n - 1);
      TurnsAdd(w, x, k + w * (n - 1), w);
      FullTurn(w, Turns(w, x, k));
    }
  }

  lemma TurnsMod(w: nat, x: nat, k: nat)
    requires w > 0 && x < Pow2(w)
    ensures Turns(w, x, k) == Turns(w, x, k % w)
  {
    hide Turns, Pow2;
    Division(k, w);
    TurnsPeriod(w, x, k % w, k / w);
  }

  lemma OneRotation(w: nat, x: nat, r: Rotation)
    requires 0 < r.amount < w && x < Pow2(w)
    ensures (if r.Left? then RotL(w, x, r.amount) else RotR(w, x, r.amount))
         == Turns(w, x, if r.Left? then r.amount else w - r.amount)
  {
    hide RotL, RotR, Turns, Pow2;
    if r.Left? {
      RotLTurns(w, x, r.amount);
    } else {
      RotRIsRotL(w, x, r.amount);
      RotLTurns(w, x, w - r.amount);
    }
  }

  /** Any sequence of rotations is one turn by their net amount. */
  lemma {:induction false} RotateAllTurns(w: nat, x: nat, rs: seq<Rotation>)
    requires w > 0 && x < Pow2(w) && Amounts(w, rs)
    ensures RotateAll(w, x, rs) == Turns(w, x, Net(rs) % w)
    decreases |rs|
  {
    hide RotL, RotR, Turns, Pow2;
    if rs == [] {
      NoTurn(w, x);
    } else {
      var r := rs[0];
      var k := if r.Left? then r.amount else w - r.amount;
      OneRotation(w, x, r);
      RotateAllTurns(w, Turns(w, x, k), rs[1..]);
      var n := Net(rs[1..]) % w;
      TurnsAdd(w, x, k, n);
      TurnsMod(w, x, k + n);
      NetMod(w, k, Net(rs[1..]), Net(rs));
    }
  }

  lemma NoTurn(w: nat, x: nat)
    requires w > 0 && x < Pow2(w)
    ensures 0 % w == 0 && Turns(w, x, 0) == x
  {}

  lemma NetMod(w: nat, k: nat, rest: int, net: int)
    requires w > 0 && (net == k + rest || net == k + rest - w)
    ensures (k + rest % w) % w == net % w
  {
    Division(rest, w);
    NetModFor(w, k, rest, net, rest / w, rest % w);
  }

  lemma NetModFor(w: nat, k: nat, rest: int, net: int, q: int, r: nat)
    requires w > 0 && (net == k + rest || net == k + rest - w) && rest == w * q + r
    ensures (k + r) % w == net % w
  {
    ShiftedRemainder(k + r, w, q);
    if net != k + rest {
      ShiftedRemainder(net, w, 1);
    }
  }

  lemma TurnsOfOne(w: nat, k: nat)
    requires k < w
    ensures 1 < Pow2(w) && Turns(w, 1, k) == Pow2(k)
  {
    Pow2Monotonic(1, w);
    Pow2Monotonic(1, w - k);
    assert Pow2(1) == 2;
    hide Pow2;
    Pow2Positive(k);
    assert 0 * Pow2(w - k) == 0 && 1 * Pow2(k) == Pow2(k);
    TurnsSwapParts(w, 1, k, 0, 1);
  }

  lemma Pow2Positive(k: nat)
    ensures 0 < Pow2(k)
    ensures k > 0 ==> 1 < Pow2(k)
  {}

  /** A sequence of rotations leaves every word as it was if and only if its net amount is a multiple of
      the width. */
  lemma RotateAllIdentity(w: nat, rs: seq<Rotation>)
    requires w > 0 && Amounts(w, rs)
    ensures (forall x: nat :: x < Pow2(w) ==> RotateAll(w, x, rs) == x) <==> Net(rs) % w == 0
  {
    hide RotateAll, Turns, Pow2, Net;
    var k := Net(rs) % w;
    if k == 0 {
      forall x: nat | x < Pow2(w)
        ensures RotateAll(w, x, rs) == x
      {
        RotateAllTurns(w, x, rs);
        NoTurn(w, x);
      }
    } else {
      TurnsOfOne(w, k);
      Pow2Positive(k);
      RotateAllTurns(w, 1, rs);
      assert RotateAll(w, 1, rs) != 1;
    }
  }

  // ---------------------------------------------------------------- bits

  /** The bit of `x` at place `i`. */
  function BitAt(x: nat, i: nat): (b: nat)
    ensures b < 2
  {
    if i == 0 then x % 2 else BitAt(x / 2, i - 1)
  }

  /** The bitwise operators work on every place apart. */
  lemma {:induction false} BitOfBitwise(op: Op, a: nat, b: nat, i: nat)
    ensures BitAt(Bitwise(op, a, b), i) == OnBits(op, BitAt(a, i), BitAt(b, i))
    decreases i
  {
    hide Bitwise, OnBits;
    Halves(op, a, b);
    if i > 0 {
      BitOfBitwise(op, a / 2, b / 2, i - 1);
    }
  }

  lemma {:induction false} BitOfShr(x: nat, b: nat, i: nat)
    ensures BitAt(Shr(x, b), i) == BitAt(x, i + b)
    decreases b
  {
    if b > 0 {
      BitOfShr(x / 2, b - 1, i);
    }
  }

  lemma {:induction false} BitBelow(x: nat, m: nat, i: nat)
    requires i < m
    ensures BitAt(x + Pow2(m), i) == BitAt(x, i)
    decreases i
  {
    assert Pow2(m) == 2 * Pow2(m - 1);
    if i > 0 {
      BitBelow(x / 2, m - 1, i - 1);
      assert (x + Pow2(m)) / 2 == x / 2 + Pow2(m - 1);
    }
  }

  lemma {:induction false} BitOnTop(x: nat, m: nat)
    requires x < Pow2(m + 1)
    ensures BitAt(x, m) == if x < Pow2(m) then 0 else 1
    decreases m
  {
    if m > 0 {
      BitOnTop(x / 2, m - 1);
    }
  }

  lemma TurnMovesTop(w: nat, x: nat)
    requires w > 0 && x < Pow2(w)
    ensures BitAt(Turn(w, x), 0) == BitAt(x, w - 1)
  {
    BitOnTop(x, w - 1);
  }

  lemma TurnMovesOther(w: nat, x: nat, i: nat)
    requires i + 1 < w && x < Pow2(w)
    ensures BitAt(Turn(w, x), i + 1) == BitAt(x, i)
  {
    var top := Pow2(w - 1);
    var low := if x < top then x else x - top;
    assert Turn(w, x) / 2 == low;
    if x >= top {
      BitBelow(low, w - 1, i);
    }
  }

  lemma NextOf(i: nat, w: nat)
    requires i < w
    ensures (i + 1) % w == if i + 1 == w then 0 else i + 1
  {
    if i + 1 == w {
      assert w == w * 1 + 0;
      RemainderIs(w, w, 1, 0);
    } else {
      SmallRemainder(i + 1, w);
    }
  }

  lemma TurnMovesBit(w: nat, x: nat, i: nat)
    requires i < w && x < Pow2(w)
    ensures BitAt(Turn(w, x), (i + 1) % w) == BitAt(x, i)
  {
    hide Turn, BitAt, Pow2;
    NextOf(i, w);
    if i + 1 == w {
      TurnMovesTop(w, x);
    } else {
      TurnMovesOther(w, x, i);
    }
  }

  /** A turn by `k` moves the bit at place `i` to place `i + k`, going round. */
  lemma {:induction false} TurnsMoveBit(w: nat, x: nat, k: nat, i: nat)
    requires i < w && x < Pow2(w)
    ensures BitAt(Turns(w, x, k), (i + k) % w) == BitAt(x, i)
    decreases k
  {
    hide Turn, BitAt, Pow2;
    if k == 0 {
      SmallRemainder(i, w);
    } else {
      var n := i + (k - 1);
      TurnsMoveBit(w, x, k - 1, i);
      TurnMovesBit(w, Turns(w, x, k - 1), n % w);
      NextPlace(n, w);
      assert n + 1 == i + k;
    }
  }

  lemma NextPlace(n: nat, w: nat)
    requires w > 0
    ensures (n % w + 1) % w == (n + 1) % w
  {
    Division(n, w);
    ShiftedRemainder(n % w + 1, w, n / w);
  }

  /** What the rotations do to the bits of a word. */
  lemma RotationMovesBits(w: nat, x: nat, b: nat, i: nat)
    requires 0 < b < w && x < Pow2(w) && i < w
    ensures BitAt(RotL(w, x, b), (i + b) % w) == BitAt(x, i)
    ensures BitAt(RotR(w, x, b), i) == BitAt(x, (i + b) % w)
  {
    hide RotL, RotR, Turns, Pow2, BitAt;
    RotLTurns(w, x, b);
    TurnsMoveBit(w, x, b, i);
    RotRIsRotL(w, x, b);
    RotLTurns(w, x, w - b);
    var j := (i + b) % w;
    TurnsMoveBit(w, x, w - b, j);
    Division(i + b, w);
    RoundTrip(i, b, w);
  }

  lemma RoundTrip(i: nat, b: nat, w: nat)
    requires i < w && b < w
    ensures ((i + b) % w + (w - b)) % w == i
  {
    if i + b < w {
      SmallRemainder(i + b, w);
      RemainderIs(i + w, w, 1, i);
    } else {
      RemainderIs(i + b, w, 1, i + b - w);
      SmallRemainder(i, w);
    }
  }
}
