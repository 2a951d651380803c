/** `ge25519_has_small_order` of external/VRF_functions/ed25519_ref10.cpp: public keys that are turned away. */
module SmallOrder {
  import opened Bits
  import opened Bytes
  import opened WordCodec
  import opened Rotations
  import opened PointCodec

  /** The strings of y for the points of small order, the last two of them not reduced. */
  const BLACKLIST: seq<seq<Byte>> := [
    ZERO_STRING, ONE_STRING, ORDER_8_STRING, MINUS_ORDER_8_STRING,
    MINUS_ONE_STRING, P_STRING, P_PLUS_1_STRING
  ]

  const ZERO_STRING: String32 := [
     0x00, 0x00, 0x00, 0x00, 0x00, 0x00, 0x00, 0x00, 0x00, 0x00, 0x00, 0x00, 0x00, 0x00, 0x00, 0x00,
     0x00, 0x00, 0x00, 0x00, 0x00, 0x00, 0x00, 0x00, 0x00, 0x00, 0x00, 0x00, 0x00, 0x00, 0x00, 0x00]

  const ONE_STRING: String32 := [
     0x01, 0x00, 0x00, 0x00, 0x00, 0x00, 0x00, 0x00, 0x00, 0x00, 0x00, 0x00, 0x00, 0x00, 0x00, 0x00,
     0x00, 0x00, 0x00, 0x00, 0x00, 0x00, 0x00, 0x00, 0x00, 0x00, 0x00, 0x00, 0x00, 0x00, 0x00, 0x00]

  const ORDER_8_STRING: String32 := [
     0x26, 0xe8, 0x95, 0x8f, 0xc2, 0xb2, 0x27, 0xb0, 0x45, 0xc3, 0xf4, 0x89, 0xf2, 0xef, 0x98, 0xf0,
     0xd5, 0xdf, 0xac, 0x05, 0xd3, 0xc6, 0x33, 0x39, 0xb1, 0x38, 0x02, 0x88, 0x6d, 0x53, 0xfc, 0x05]

  const MINUS_ORDER_8_STRING: String32 := [
     0xc7, 0x17, 0x6a, 0x70, 0x3d, 0x4d, 0xd8, 0x4f, 0xba, 0x3c, 0x0b, 0x76, 0x0d, 0x10, 0x67, 0x0f,
     0x2a, 0x20, 0x53, 0xfa, 0x2c, 0x39, 0xcc, 0xc6, 0x4e, 0xc7, 0xfd, 0x77, 0x92, 0xac, 0x03, 0x7a]

  const MINUS_ONE_STRING: String32 := [
     0xec, 0xff, 0xff, 0xff, 0xff, 0xff, 0xff, 0xff, 0xff, 0xff, 0xff, 0xff, 0xff, 0xff, 0xff, 0xff,
     0xff, 0xff, 0xff, 0xff, 0xff, 0xff, 0xff, 0xff, 0xff, 0xff, 0xff, 0xff, 0xff, 0xff, 0xff, 0x7f]

  const P_STRING: String32 := [
     0xed, 0xff, 0xff, 0xff, 0xff, 0xff, 0xff, 0xff, 0xff, 0xff, 0xff, 0xff, 0xff, 0xff, 0xff, 0xff,
     0xff, 0xff, 0xff, 0xff, 0xff, 0xff, 0xff, 0xff, 0xff, 0xff, 0xff, 0xff, 0xff, 0xff, 0xff, 0x7f]

  const P_PLUS_1_STRING: String32 := [
     0xee, 0xff, 0xff, 0xff, 0xff, 0xff, 0xff, 0xff, 0xff, 0xff, 0xff, 0xff, 0xff, 0xff, 0xff, 0xff,
     0xff, 0xff, 0xff, 0xff, 0xff, 0xff, 0xff, 0xff, 0xff, 0xff, 0xff, 0xff, 0xff, 0xff, 0xff, 0x7f]

  lemma BlacklistShape()
    ensures |BLACKLIST| == 7 && forall i :: 0 <= i < 7 ==> |BLACKLIST[i]| == 32
  {}

  /** The string without its sign bit. */
  function Unsigned(s: String32): String32 { s[..31] + [s[31] % 128] }

  predicate HasSmallOrder(s: String32) { Unsigned(s) in BLACKLIST }

  // ---------------------------------------------------------------- bits of an or

  lemma {:induction false} BitIsShift(x: nat, i: nat)
    ensures BitAt(x, i) == Shr(x, i) % 2
    decreases i
  {
    if i > 0 {
      BitIsShift(x / 2, i - 1);
    }
  }

  /** Bit 8 of `c - 1` in 32 bits is set only when `c` is zero. */
  lemma BorrowsFromBit8(c: Byte)
    ensures BitAt(Minus32(c, 1), 8) == if c == 0 then 1 else 0
  {
    hide BitAt, Shr;
    BitIsShift(Minus32(c, 1), 8);
    ShrByte(Minus32(c, 1));
  }

  // ---------------------------------------------------------------- the comparison

  /** `c[i]` tells the strings apart that differ in their first `n` bytes. */
  ghost predicate Compared(c: seq<Byte>, list: seq<seq<Byte>>, t: String32, n: nat) {
    && |c| == |list| && n <= 32
    && forall i :: 0 <= i < |list| ==> |list[i]| == 32 && (c[i] == 0 <==> list[i][..n] == t[..n])
  }

  lemma OneMoreByte(c: Byte, l: seq<Byte>, t: String32, n: nat)
    requires n < 32 && |l| == 32 && (c == 0 <==> l[..n] == t[..n])
    ensures Or(c, Xor(t[n], l[n])) < 256
    ensures Or(c, Xor(t[n], l[n])) == 0 <==> l[..n + 1] == t[..n + 1]
  {
    hide Bitwise;
    ByteBits(XorOp, t[n], l[n]);
    ByteBits(OrOp, c, Xor(t[n], l[n]));
    OrIsZero(c, Xor(t[n], l[n]));
    Differs(t[n], l[n]);
    assert l[..n + 1] == l[..n] + [l[n]] && t[..n + 1] == t[..n] + [t[n]];
    if l[..n + 1] == t[..n + 1] {
      assert l[..n + 1][..n] == l[..n] && t[..n + 1][..n] == t[..n];
      assert l[..n + 1][n] == t[..n + 1][n];
    }
  }

  /** The inner loops: one byte of every string of the list. */
  method CompareByte(c: array<Byte>, list: seq<seq<Byte>>, b: Byte, ghost t: String32, n: nat)
    requires n < 32 && b == t[n] && Compared(c[..], list, t, n)
    modifies c
    ensures Compared(c[..], list, t, n + 1)
  {
    hide Bitwise;
    var i := 0;
    while i < |list|
      invariant 0 <= i <= |list| == c.Length
      invariant forall k :: 0 <= k < i ==> (c[k] == 0 <==> list[k][..n + 1] == t[..n + 1])
      invariant forall k :: i <= k < |list| ==> (c[k] == 0 <==> list[k][..n] == t[..n])
    {
      OneMoreByte(c[i], list[i], t, n);
      c[i] := Or(c[i], Xor(b, list[i][n]));
      i := i + 1;
    }
  }

  /** The last loop and the result: whether some string is like `t`. */
  method AnyZero(c: array<Byte>) returns (r: nat)
    ensures r == if 0 in c[..] then 1 else 0
  {
    hide Bitwise, BitAt, Shr, Minus32;
    var k: nat := 0;
    var i := 0;
    NoBit(8);
    while i < c.Length
      invariant 0 <= i <= c.Length
      invariant BitAt(k, 8) == if 0 in c[..i] then 1 else 0
    {
      BitOfBitwise(OrOp, k, Minus32(c[i], 1), 8);
      BorrowsFromBit8(c[i]);
      assert c[..i + 1] == c[..i] + [c[i]];
      k := Or(k, Minus32(c[i], 1));
      i := i + 1;
    }
    assert c[..i] == c[..];
    BitIsShift(k, 8);
    LowBit(Shr(k, 8));
    r := And(Shr(k, 8), 1);
  }

  lemma {:induction false} NoBit(i: nat)
    ensures BitAt(0, i) == 0
  {
    if i > 0 {
      NoBit(i - 1);
    }
  }

  /** `ge25519_has_small_order` */
  method CheckSmallOrder(s: String32) returns (r: nat)
    ensures r == if HasSmallOrder(s) then 1 else 0
  {
    BlacklistShape();
    var list := BLACKLIST;
    hide BLACKLIST, Bitwise, Compared;
    ghost var t := Unsigned(s);
    var c := new Byte[7](_ => 0);
    NothingCompared(c[..], list, t);
    var j := 0;
    while j < 31
      invariant 0 <= j <= 31 && Compared(c[..], list, t, j)
    {
      CompareByte(c, list, s[j], t, j);
      j := j + 1;
    }
    MaskLow7(s[31]);
    CompareByte(c, list, And(s[31], 0x7f), t, 31);
    AllCompared(c[..], list, t);
    r := AnyZero(c);
  }

  lemma NothingCompared(c: seq<Byte>, list: seq<seq<Byte>>, t: String32)
    requires |c| == |list| && forall i :: 0 <= i < |list| ==> c[i] == 0 && |list[i]| == 32
    ensures Compared(c, list, t, 0)
  {}

  lemma AllCompared(c: seq<Byte>, list: seq<seq<Byte>>, t: String32)
    requires Compared(c, list, t, 32)
    ensures 0 in c <==> t in list
  {
    assert t[..32] == t;
    assert forall i :: 0 <= i < |list| ==> list[i][..32] == list[i];
    if 0 in c {
      var i :| 0 <= i < |c| && c[i] == 0;
      assert list[i] == t;
    }
    if t in list {
      var i :| 0 <= i < |list| && list[i] == t;
      assert c[i] == 0;
    }
  }
}
