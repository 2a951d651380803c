/** Points of the curve as byte strings: `ge25519_is_canonical`, `ge25519_frombytes` and `ge25519_p3_tobytes` of
    external/VRF_functions/ed25519_ref10.cpp, and `_vrf_ietfdraft03_string_to_point` of
    external/VRF_functions/convert.cpp.

    A string holds the y coordinate in its low 255 bits and the sign of x in its top bit. */
module PointCodec {
  import opened Bits
  import opened Bytes
  import opened WordCodec
  import opened Field25519

  const TOP: nat := 57896044618658097711785492504343953926634992332820282019728792003956564819968

  type String32 = s: seq<Byte> | |s| == 32 witness seq(32, _ => 0)

  /** The low 255 bits. */
  function YOf(s: String32): nat { LittleEndian(s[..31]) + TopByte() * (s[31] % 128) }

  /** The top bit. */
  function SignOf(s: String32): nat { s[31] / 128 }

  /** The weight of byte 31. */
  function TopByte(): nat { Pow2(248) }

  lemma Weights()
    ensures TopByte() == 452312848583266388373324160190187140051835877600158453279131187530910662656
    ensures Pow2(255) == TOP && TOP == 128 * TopByte() && P == TOP - 19
  {
    hide Pow2;
    Pow2Words();
    Pow2Byte();
    Pow2Add(64, 64);
    Pow2Add(128, 64);
    Pow2Add(192, 32);
    Pow2Add(224, 16);
    Pow2Add(240, 8);
    Pow2Add(248, 7);
    Pow2Small();
  }

  /** The two parts of a string make up its value. */
  lemma StringValue(s: String32)
    ensures LittleEndian(s) == YOf(s) + TOP * SignOf(s)
    ensures YOf(s) < TOP && SignOf(s) < 2
  {
    hide LittleEndian, Pow2, TopByte;
    Weights();
    assert s == s[..31] + [s[31]];
    LittleEndianAppend(s[..31], [s[31]]);
    OneByte(s[31]);
    TopIs();
    LittleEndianBound(s[..31]);
    assert TopByte() * s[31] == TopByte() * (s[31] % 128) + TOP * (s[31] / 128);
  }

  lemma TopIs()
    ensures TopByte() == Pow2(8 * 31)
  {}

  lemma PartsDetermine(s: String32, t: String32)
    requires YOf(s) == YOf(t) && SignOf(s) == SignOf(t)
    ensures s == t
  {
    hide YOf, SignOf, LittleEndian;
    StringValue(s);
    StringValue(t);
    LittleEndianInjective(s, t);
  }

  // ---------------------------------------------------------------- canonical strings

  /** The y coordinate is reduced. */
  predicate Canonical(s: String32) { YOf(s) < P }

  lemma {:induction false} AllOnes(s: seq<Byte>)
    ensures LittleEndian(s) <= Pow2(8 * |s|) - 1
    ensures LittleEndian(s) == Pow2(8 * |s|) - 1 <==> forall k :: 0 <= k < |s| ==> s[k] == 255
    decreases |s|
  {
    hide Pow2;
    if s == [] {
      Pow2Small();
    } else {
      AllOnes(s[1..]);
      Pow2Bytes(|s| - 1);
      if forall k :: 0 <= k < |s| ==> s[k] == 255 {
        assert forall k :: 0 <= k < |s[1..]| ==> s[1..][k] == s[k + 1];
      }
      if LittleEndian(s) == Pow2(8 * |s|) - 1 {
        assert s[0] == 255 && LittleEndian(s[1..]) == Pow2(8 * (|s| - 1)) - 1;
        assert forall k :: 1 <= k < |s| ==> s[k] == s[1..][k - 1];
      }
    }
  }

  /** When the low 255 bits are not reduced: they are all ones but for the lowest byte. */
  lemma NotCanonical(s: String32)
    ensures !Canonical(s)
       <==> s[31] % 128 == 127 && (forall k :: 1 <= k < 31 ==> s[k] == 255) && s[0] >= 0xed
  {
    hide LittleEndian, Pow2, TopByte;
    Weights();
    var mid := s[1..31];
    AllOnes(mid);
    MidWeight();
    LowBytes(s);
    assert (forall k :: 0 <= k < |mid| ==> mid[k] == 255) <==> (forall k :: 1 <= k < 31 ==> s[k] == 255) by {
      assert forall k :: 0 <= k < 30 ==> mid[k] == s[k + 1];
      assert forall k :: 1 <= k < 31 ==> s[k] == mid[k - 1];
    }
  }

  lemma MidWeight()
    ensures 256 * Pow2(8 * 30) == TopByte()
  {
    hide Pow2;
    Pow2Bytes(30);
  }

  lemma LowBytes(s: String32)
    ensures LittleEndian(s[..31]) == s[0] + 256 * LittleEndian(s[1..31])
  {
    assert s[..31][1..] == s[1..31];
  }

  lemma MaskLow7(x: nat)
    ensures And(x, 0x7f) == x % 128
  {
    hide Bitwise, Pow2;
    Pow2Small();
    AndMask(x, 7);
  }

  /** Subtraction of `unsigned int`. */
  function Minus32(a: nat, b: nat): nat { (a - b) % 0x1_0000_0000 }

  /** The difference of two bytes, without and with a borrow. */
  lemma Borrow(a: Byte, b: Byte)
    ensures Minus32(a, b) == if a >= b then a - b else 0x1_0000_0000 - (b - a)
    ensures a < b ==> Minus32(a, b) / 256 == 0xff_ffff
    ensures a >= b ==> Minus32(a, b) / 256 == 0
  {
    if a < b {
      ShiftedRemainder(0x1_0000_0000 - (b - a), 0x1_0000_0000, -1);
      RemainderIs(0x1_0000_0000 - (b - a), 256, 0xff_ffff, 256 - (b - a));
    }
  }

  lemma ByteBits(op: Op, a: Byte, b: Byte)
    ensures Bitwise(op, a, b) < 256
  {
    hide Bitwise, Pow2;
    Pow2Byte();
    BitwiseBound(op, 8, a, b);
  }

  /** `((unsigned) c - 1) >> 8`, cut to a byte: all ones when `c` is zero, else nothing. */
  lemma ZeroMask(c: Byte)
    ensures Shr(Minus32(c, 1), 8) % 256 == if c == 0 then 255 else 0
  {
    hide Shr, Minus32;
    ShrByte(Minus32(c, 1));
    Borrow(c, 1);
  }

  /** `(0xed - 1 - s0) >> 8`, cut to a byte: all ones when `s0` is at least 0xed, else nothing. */
  lemma AtLeastMask(s0: Byte)
    ensures Shr(Minus32(0xed - 1, s0), 8) % 256 == if s0 >= 0xed then 255 else 0
  {
    hide Shr, Minus32;
    ShrByte(Minus32(0xed - 1, s0));
    Borrow(0xed - 1, s0);
  }

  lemma MaskedBits()
    ensures And(And(255, 255), 1) == 1 && And(And(0, 255), 1) == 0 && And(And(255, 0), 1) == 0 && And(And(0, 0), 1) == 0
  {
    hide Bitwise;
    Pow2Byte();
    AndOnes(255, 8);
    AndZero(255);
    AndZero(0);
    BitwiseOfZeros(AndOp);
    LowBit(255);
    LowBit(0);
    AndOfZero(255);
  }

  lemma LowBit(x: nat)
    ensures And(x, 1) == x % 2
  {
    hide Bitwise;
    Pow2Small();
    AndMask(x, 1);
  }

  lemma {:induction false} AndOfZero(x: nat)
    ensures And(0, x) == 0
  {
    if x > 0 {
      AndOfZero(x / 2);
    }
  }

  /** `ge25519_is_canonical`, without a branch on the bytes. */
  method IsCanonical(s: String32) returns (r: nat)
    ensures r == if Canonical(s) then 1 else 0
  {
    hide Bitwise, Shr, Minus32, Canonical;
    MaskLow7(s[31]);
    ByteBits(XorOp, s[31] % 128, 0x7f);
    var c: Byte := Xor(And(s[31], 0x7f), 0x7f);
    Differs(s[31] % 128, 0x7f);
    var i := 30;
    while i > 0
      invariant 0 <= i <= 30
      invariant c == 0 <==> s[31] % 128 == 127 && forall k :: i < k < 31 ==> s[k] == 255
    {
      ByteBits(XorOp, s[i], 0xff);
      ByteBits(OrOp, c, Xor(s[i], 0xff));
      OrIsZero(c, Xor(s[i], 0xff));
      Differs(s[i], 0xff);
      c := Or(c, Xor(s[i], 0xff));
      i := i - 1;
    }
    NotCanonical(s);
    ZeroMask(c);
    AtLeastMask(s[0]);
    MaskedBits();
    c := Shr(Minus32(c, 1), 8) % 256;
    var d := Shr(Minus32(0xed - 1, s[0]), 8) % 256;
    r := 1 - And(And(c, d), 1);
  }

  lemma Differs(a: nat, b: nat)
    ensures Xor(a, b) == 0 <==> a == b
  {
    if a == b {
      XorSelf(a);
    } else if Xor(a, b) == 0 {
      XorIsZero(a, b);
    }
  }
}
