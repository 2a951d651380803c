/** The scalars of `ge25519_scalarmult` and `ge25519_scalarmult_base` of external/VRF_functions/ed25519_ref10.cpp: they
    are recoded into 64 signed digits in base 16, so that a table of eight multiples is enough. */
module ScalarMult {
  import Arithmetic
  import opened Bits
  import opened Bytes
  import opened WordCodec
  import opened PointDecoding
  import opened PointCodec
  import opened CurveGroup

  /** A `signed char`. */
  type SChar = x: int | -128 <= x < 128

  // ---------------------------------------------------------------- digits in base 16

  /** The value of digits, the lowest first; digits may be negative. */
  function Radix16(e: seq<SChar>): int {
    if e == [] then 0 else e[0] + 16 * Radix16(e[1..])
  }

  /** 16^n */
  function Pow16(n: nat): nat { Pow2(4 * n) }

  lemma Pow16Next(n: nat)
    ensures Pow16(n + 1) == 16 * Pow16(n)
  {
    hide Pow2;
    Pow2Add(4, 4 * n);
    Pow2Byte();
  }

  lemma Pow16Zero()
    ensures Pow16(0) == 1
  {}

  /** Changing one digit. */
  lemma {:induction false} Radix16Update(e: seq<SChar>, i: nat, v: SChar)
    requires i < |e|
    ensures Radix16(e[i := v]) == Radix16(e) + (v - e[i]) * Pow16(i)
    decreases i
  {
    hide Pow16;
    if i == 0 {
      Pow16Zero();
      assert e[0 := v][1..] == e[1..];
    } else {
      assert e[i := v][1..] == e[1..][i - 1 := v];
      Radix16Update(e[1..], i - 1, v);
      Pow16Next(i - 1);
      Scaled(v - e[i], Pow16(i - 1), Pow16(i));
    }
  }

  lemma Scaled(d: int, q: nat, p: nat)
    requires p == 16 * q
    ensures 16 * (d * q) == d * p
  {
    Arithmetic.Associates(d, 16, q);
    Arithmetic.Associates(16, d, q);
  }

  /** The two hexadecimal digits of each byte. */
  function Nibbles(a: seq<Byte>): (e: seq<SChar>)
    ensures |e| == 2 * |a|
    ensures forall i :: 0 <= i < |a| ==> e[2 * i] == a[i] % 16 && e[2 * i + 1] == a[i] / 16
  {
    if a == [] then [] else [a[0] % 16, a[0] / 16] + Nibbles(a[1..])
  }

  lemma {:induction false} NibblesValue(a: seq<Byte>)
    ensures Radix16(Nibbles(a)) == LittleEndian(a)
    decreases |a|
  {
    if a != [] {
      NibblesValue(a[1..]);
      var e := Nibbles(a);
      assert e[1..] == [a[0] / 16] + Nibbles(a[1..]);
      assert e[1..][1..] == Nibbles(a[1..]);
    }
  }

  lemma NibbleBits(b: Byte)
    ensures And(Shr(b, 0), 15) == b % 16 && And(Shr(b, 4), 15) == b / 16
  {
    hide Bitwise, Pow2;
    Pow2Byte();
    ShrValue(b, 4);
    hide Shr;
    NoShift(b);
    AndMask(b, 4);
    AndMask(b / 16, 4);
  }

  lemma NoShift(b: nat)
    ensures Shr(b, 0) == b
  {}

  /** The loop that takes the scalar apart. */
  method Split(a: String32) returns (e: array<SChar>)
    ensures fresh(e) && e[..] == Nibbles(a)
  {
    hide Bitwise, Shr, Nibbles;
    e := new SChar[64](_ => 0);
    var i := 0;
    while i < 32
      invariant 0 <= i <= 32
      invariant forall k :: 0 <= k < i ==> e[2 * k] == a[k] % 16 && e[2 * k + 1] == a[k] / 16
    {
      NibbleBits(a[i]);
      e[2 * i + 0] := And(Shr(a[i], 0), 15);
      e[2 * i + 1] := And(Shr(a[i], 4), 15);
      i := i + 1;
    }
    SameNibbles(e[..], a);
  }

  lemma SameNibbles(e: seq<SChar>, a: String32)
    requires |e| == 64 && forall k :: 0 <= k < 32 ==> e[2 * k] == a[k] % 16 && e[2 * k + 1] == a[k] / 16
    ensures e == Nibbles(a)
  {
    hide Nibbles;
    var n := Nibbles(a);
    forall j | 0 <= j < 64
      ensures e[j] == n[j]
    {
      var k := j / 2;
      assert e[2 * k] == n[2 * k] && e[2 * k + 1] == n[2 * k + 1];
    }
  }

  // ---------------------------------------------------------------- signed digits

  /** The digits below `i` have been recoded. */
  ghost predicate Recoded(e: seq<SChar>, i: nat) {
    && |e| == 64 && i <= 63
    && (forall k :: 0 <= k < i ==> -8 <= e[k] < 8)
    && (forall k :: i <= k < 63 ==> 0 <= e[k] < 16)
    && 0 <= e[63] < 8
  }

  lemma StartRecoding(a: String32)
    requires a[31] <= 127
    ensures Recoded(Nibbles(a), 0)
  {
    hide Nibbles;
    var e := Nibbles(a);
    forall k | 0 <= k < 64
      ensures 0 <= e[k] < 16
    {
      var j := k / 2;
      assert e[2 * j] == a[j] % 16 && e[2 * j + 1] == a[j] / 16;
    }
    assert e[2 * 31 + 1] == a[31] / 16;
  }

  lemma RecodeStep(e: seq<SChar>, i: nat, carry: int, v: SChar, carry': int, total: int)
    requires i < 63 && Recoded(e, i) && 0 <= carry <= 1
    requires carry' == (e[i] + carry + 8) / 16 && v == e[i] + carry - 16 * carry'
    requires Radix16(e) + carry * Pow16(i) == total
    ensures Recoded(e[i := v], i + 1) && 0 <= carry' <= 1
    ensures Radix16(e[i := v]) + carry' * Pow16(i + 1) == total
  {
    hide Radix16, Pow16;
    Radix16Update(e, i, v);
    Pow16Next(i);
    assert carry' * Pow16(i + 1) == 16 * carry' * Pow16(i);
    assert (carry - 16 * carry') * Pow16(i) == carry * Pow16(i) - 16 * carry' * Pow16(i);
  }

  /** The signed digits of the scalar `a`. */
  ghost predicate DigitsOf(e: seq<SChar>, a: String32) {
    |e| == 64 && (forall k :: 0 <= k < 64 ==> -8 <= e[k] <= 8) && Radix16(e) == LittleEndian(a)
  }

  /** The recoding at the start of both multiplications: the digits end between -8 and 8. */
  method Recode(a: String32) returns (e: array<SChar>)
    requires a[31] <= 127
    ensures fresh(e) && DigitsOf(e[..], a)
  {
    hide Radix16, Nibbles, Pow16, LittleEndian;
    e := Split(a);
    NibblesValue(a);
    StartRecoding(a);
    var carry: SChar := 0;
    var i := 0;
    while i < 63
      invariant 0 <= i <= 63
      invariant e.Length == 64 && Recoded(e[..], i) && 0 <= carry <= 1
      invariant Radix16(e[..]) + carry * Pow16(i) == LittleEndian(a)
    {
      ghost var before, c := e[..], carry as int;
      e[i] := e[i] + carry;
      carry := (e[i] + 8) / 16;
      e[i] := e[i] - carry * 16;
      RecodeStep(before, i, c, e[i], carry, LittleEndian(a));
      assert e[..] == before[i := e[i]];
      i := i + 1;
    }
    ghost var before := e[..];
    Radix16Update(before, 63, before[63] + carry);
    e[63] := e[63] + carry;
    assert e[..] == before[63 := before[63] + carry];
  }

  // ---------------------------------------------------------------- choosing from a table

  /** A `signed char` converted to `unsigned char`. */
  function Unsigned8(b: SChar): Byte { if b < 0 then b + 256 else b }

  /** `equal`: 1 when the two agree and 0 when not, without a branch on them. */
  method Equal(b: SChar, c: SChar) returns (y: nat)
    ensures y == if b == c then 1 else 0
  {
    hide Bitwise, Shr, Minus32;
    var x := Xor(Unsigned8(b), Unsigned8(c));
    ByteBits(XorOp, Unsigned8(b), Unsigned8(c));
    Differs(Unsigned8(b), Unsigned8(c));
    y := Minus32(x, 1);
    TopBitOfBorrow(x);
    y := Shr(y, 31);
  }

  /** Bit 31 of `x - 1` is set only when `x` is zero. */
  lemma TopBitOfBorrow(x: Byte)
    ensures Shr(Minus32(x, 1), 31) == if x == 0 then 1 else 0
  {
    hide Shr, Minus32, Pow2;
    Borrow(x, 1);
    Pow2Words();
    Pow2Add(1, 31);
    Pow2Small();
    TopBit(32, Minus32(x, 1));
  }

  /** The top bit of a word. */
  lemma TopBit(w: nat, x: nat)
    requires w > 0 && x < Pow2(w)
    ensures Shr(x, w - 1) == if x < Pow2(w - 1) then 0 else 1
  {
    hide Shr;
    ShrValue(x, w - 1);
    var p := Pow2(w - 1);
    assert Pow2(w) == 2 * p;
    hide Pow2;
    if x < p {
      RemainderIs(x, p, 0, x);
    } else {
      RemainderIs(x, p, 1, x - p);
    }
  }

  /** `negative`: the sign of a `signed char`, from bit 63 of its conversion to `uint64_t`. */
  method Negative(b: SChar) returns (x: nat)
    ensures x == if b < 0 then 1 else 0
  {
    hide Shr, Pow2;
    x := if b < 0 then 0x1_0000_0000_0000_0000 + b else b;
    Pow2Words();
    Pow2Add(1, 63);
    Pow2Small();
    TopBit(64, x);
    x := Shr(x, 63);
  }

  /** The bits of an `int`. */
  function IntBits(x: int): nat
    requires -0x8000_0000 <= x < 0x8000_0000
  {
    if x < 0 then x + 0x1_0000_0000 else x
  }

  /** The `int` with these bits. */
  function BitsInt(n: nat): int { if n >= 0x8000_0000 then n - 0x1_0000_0000 else n }

  /** `b - (((-bnegative) & b) * 2)`, cut to an `unsigned char`: the absolute value of a digit. */
  method Magnitude(b: SChar, bnegative: nat) returns (babs: Byte)
    requires bnegative == if b < 0 then 1 else 0
    ensures babs as int == if b < 0 then -(b as int) else b
  {
    hide Bitwise;
    SignMask(b);
    var masked := BitsInt(And(IntBits(0 - bnegative), IntBits(b)));
    babs := (b - masked * 2) % 256;
  }

  lemma SignMask(b: SChar)
    ensures BitsInt(And(IntBits(-1), IntBits(b))) == b && BitsInt(And(IntBits(0), IntBits(b))) == 0
  {
    hide Bitwise, Pow2;
    Pow2Words();
    AndCommutes(IntBits(-1), IntBits(b));
    AndOnes(IntBits(b), 32);
    AndOfZero(IntBits(b));
  }

  // ---------------------------------------------------------------- sums of digits

  lemma HornerStep(e: seq<SChar>, i: nat)
    requires i < |e|
    ensures Radix16(e[i..]) == e[i] + 16 * Radix16(e[i + 1..])
  {
    assert e[i..][1..] == e[i + 1..];
  }

  lemma HornerEnd(e: seq<SChar>)
    ensures Radix16(e[|e|..]) == 0 && e[0..] == e
  {
    assert e[|e|..] == [];
  }

  /** 256^n */
  function Pow256(n: nat): nat { Pow2(8 * n) }

  /** The first `m` digits at every second place from `o` on, in base 256. */
  function Sum256(e: seq<SChar>, o: nat, m: nat): int
    requires o < 2 && 2 * m <= |e|
  {
    if m == 0 then 0 else Sum256(e, o, m - 1) + e[2 * (m - 1) + o] * Pow256(m - 1)
  }

  lemma {:induction false} Radix16Append(s: seq<SChar>, a: SChar)
    ensures Radix16(s + [a]) == Radix16(s) + a * Pow16(|s|)
    decreases |s|
  {
    hide Pow16;
    if s == [] {
      Pow16Zero();
      assert s + [a] == [a] && [a][1..] == [];
      assert a * 1 == a;
    } else {
      assert (s + [a])[1..] == s[1..] + [a];
      Radix16Append(s[1..], a);
      Pow16Next(|s| - 1);
      Scaled(a, Pow16(|s| - 1), Pow16(|s|));
    }
  }

  /** Summing the digits at even places and those at odd places apart gives the same value. */
  lemma {:induction false} EvenAndOdd(e: seq<SChar>, m: nat)
    requires 2 * m <= |e|
    ensures Radix16(e[..2 * m]) == Sum256(e, 0, m) + 16 * Sum256(e, 1, m)
    decreases m
  {
    hide Pow16, Pow256, Radix16;
    if m == 0 {
      assert e[..0] == [];
      NoDigits();
    } else {
      var k := 2 * (m - 1);
      EvenAndOdd(e, m - 1);
      assert e[..k + 1] == e[..k] + [e[k]] && e[..k + 2] == e[..k + 1] + [e[k + 1]];
      Radix16Append(e[..k], e[k]);
      Radix16Append(e[..k + 1], e[k + 1]);
      Pow16Next(k);
      SquarePow(m - 1);
      Scaled(e[k + 1], Pow16(k), Pow16(k + 1));
    }
  }

  lemma NoDigits()
    ensures Radix16([]) == 0
  {}

  lemma SquarePow(n: nat)
    ensures Pow256(n) == Pow16(2 * n)
  {
    assert 8 * n == 4 * (2 * n);
  }

  // ---------------------------------------------------------------- multiples

  lemma Twice(g: Group, n: int, p: Point)
    requires Lawful(g) && g.member(p)
    ensures g.add(Times(g, n, p), Times(g, n, p)) == Times(g, 2 * n, p)
  {
    hide Lawful, Times;
    TimesAdd(g, n, n, p);
  }

  lemma TimesZero(g: Group, p: Point)
    ensures Times(g, 0, p) == IDENTITY
  {}
}
