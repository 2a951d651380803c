/** The scalars of external/VRF_functions: residues modulo the order of the base point, and the secret scalar that
    keypair.cpp and prove.cpp make of a hash. */
module Scalars {
  import opened Arithmetic
  import opened Bits
  import opened Bytes
  import opened WordCodec
  import opened PointCodec
  import opened PointDecoding

  /** The order of the base point. */
  const L: nat := 7237005577332262213973186563042994240857116359379907606001950938285454250989

  /** As section 5.1 of RFC 8032 gives it. */
  lemma OrderIs()
    ensures L == Pow2(252) + 27742317777372353535851937790883648493
  {
    hide Pow2;
    Weights();
    Pow2Add(252, 3);
    Pow2Small();
  }

  type String64 = s: seq<Byte> | |s| == 64 witness seq(64, _ => 0)

  function LowerHalf(s: String64): String32 { s[..32] }

  function UpperHalf(s: String64): String32 { s[32..] }

  // ---------------------------------------------------------------- residues

  /** `sc25519_reduce` and `sc25519_muladd` give the residue modulo `L` as 32 bytes. */
  function Scalar(n: nat): String32 { Digits(32, n % L) }

  lemma ScalarValue(n: nat)
    ensures LittleEndian(Scalar(n)) == n % L && Scalar(n)[31] <= 127
  {
    hide Digits, LittleEndian, Pow2, YOf, SignOf;
    Width();
    ValueOfDigits(32, n % L);
    StringValue(Scalar(n));
    SignBit(Scalar(n));
  }

  lemma SignBit(s: String32)
    requires SignOf(s) == 0
    ensures s[31] <= 127
  {}

  /** A 16-byte scalar in 32 bytes. */
  function Widened(c: seq<Byte>): String32
    requires |c| == 16
  {
    c + seq(16, _ => 0)
  }

  lemma WidenedValue(c: seq<Byte>)
    requires |c| == 16
    ensures LittleEndian(Widened(c)) == LittleEndian(c) && Widened(c)[31] == 0
  {
    hide LittleEndian, Pow2;
    LittleEndianAppend(c, seq(16, _ => 0));
    ZeroValue(16);
    assert Pow2(8 * 16) * 0 == 0;
  }

  // ---------------------------------------------------------------- the secret scalar

  /** The secret scalar: three low bits and the top bit cleared, the bit below the top set. */
  function Clamp(digest: String64): String32 {
    ClampFits(digest[0], digest[31]);
    digest[..32][0 := And(digest[0], 248)][31 := Or(And(digest[31], 127), 64)]
  }

  lemma ClampFits(lo: Byte, hi: Byte)
    ensures And(lo, 248) < 256 && Or(And(hi, 127), 64) < 128
  {
    hide Bitwise, Pow2;
    ByteBits(AndOp, lo, 248);
    MaskLow7(hi);
    Pow2Small();
    BitwiseBound(OrOp, 7, hi % 128, 64);
  }

  /** The three statements that clamp a hash in place; its second half stays. */
  method ClampBytes(h: array<Byte>)
    requires h.Length == 64
    modifies h
    ensures h[..32] == Clamp(old(h[..])) && h[32..] == old(h[32..])
  {
    hide Bitwise;
    ClampFits(h[0], h[31]);
    ByteBits(AndOp, h[31], 127);
    h[0] := And(h[0], 248);
    h[31] := And(h[31], 127);
    h[31] := Or(h[31], 64);
  }

  lemma ClampTop(digest: String64)
    ensures Clamp(digest)[31] <= 127
  {
    hide Bitwise;
    ClampFits(digest[0], digest[31]);
  }

  lemma ClampedBytes(lo: Byte, hi: Byte)
    ensures And(lo, 248) == lo - lo % 8
    ensures Or(And(hi, 127), 64) == 64 + hi % 64
  {
    hide Bitwise, Pow2;
    Pow2Small();
    BitwiseSplit(AndOp, 3, lo % 8, 0, lo / 8, 31);
    AndZero(lo % 8);
    AndMask(lo / 8, 5);
    MaskLow7(hi);
    var h := hi % 128;
    BitwiseSplit(OrOp, 6, h % 64, 0, h / 64, 1);
    OrZero(h % 64);
    OrWithOne(h / 64);
  }

  lemma OrWithOne(b: nat)
    requires b < 2
    ensures Or(b, 1) == 1
  {
    assert Or(0, 1) == 1 && Or(1, 1) == 1;
  }

  /** The secret scalar is a multiple of the cofactor with its top bit at place 254. */
  lemma ClampMeaning(digest: String64)
    ensures var x := LittleEndian(Clamp(digest)); x % 8 == 0 && TOP <= 2 * x && x < TOP
  {
    hide Bitwise, LittleEndian;
    ClampedBytes(digest[0], digest[31]);
    ScalarOfBytes(Clamp(digest));
  }

  lemma ScalarOfBytes(s: String32)
    requires s[0] % 8 == 0 && 64 <= s[31] < 128
    ensures var x := LittleEndian(s); x % 8 == 0 && TOP <= 2 * x && x < TOP
  {
    hide LittleEndian;
    ScalarRange(s);
    LowestByte(s);
    MultipleOfEight(s[0], LittleEndian(s[1..]));
  }

  lemma MultipleOfEight(a: nat, r: nat)
    requires a % 8 == 0
    ensures (a + 256 * r) % 8 == 0
  {}

  lemma ScalarRange(s: String32)
    requires 64 <= s[31] < 128
    ensures var x := LittleEndian(s); TOP <= 2 * x && x < TOP
  {
    hide LittleEndian, TopByte;
    Weights();
    StringValue(s);
    assert s[31] / 128 == 0 && s[31] % 128 == s[31];
    assert TopByte() * s[31] >= TopByte() * 64;
  }

  lemma LowestByte(s: String32)
    ensures LittleEndian(s) == s[0] + 256 * LittleEndian(s[1..])
  {}

  /** A string by its first, its middle and its last bytes. */
  lemma ByteParts(s: String32)
    ensures LittleEndian(s) == s[0] + 256 * LittleEndian(s[1..31]) + TopByte() * s[31]
    ensures 256 * LittleEndian(s[1..31]) + 255 < TopByte()
  {
    hide LittleEndian, Pow2, TopByte;
    assert s == s[..31] + [s[31]];
    LittleEndianAppend(s[..31], [s[31]]);
    OneByte(s[31]);
    TopIs();
    LowBytes(s);
    LittleEndianBound(s[1..31]);
    Pow2Add(8, 8 * 30);
    Pow2Byte();
  }

  /** Every bit of the secret scalar: the lower half of the hash without its three lowest and its two highest bits, and
      then bit 254. */
  lemma ClampValue(digest: String64)
    ensures LittleEndian(Clamp(digest)) == Pow2(254) + 8 * (LittleEndian(digest[..32]) / 8 % Pow2(251))
  {
    hide Bitwise, LittleEndian, Pow2, TopByte;
    var s: String32, t := digest[..32], Clamp(digest);
    ClampedBytes(digest[0], digest[31]);
    ByteParts(s);
    ByteParts(t);
    assert t[1..31] == s[1..31];
    TopPowers();
    ClampJoin(s[0], LittleEndian(s[1..31]), s[31], TopByte() / 8);
  }

  lemma TopPowers()
    ensures TopByte() == 8 * (TopByte() / 8) && Pow2(251) == 64 * (TopByte() / 8) && Pow2(254) == 64 * TopByte()
  {
    hide Pow2;
    Pow2Add(245, 3);
    Pow2Add(245, 6);
    Pow2Add(248, 6);
    Pow2Small();
  }

  /** Removing the three lowest bits and the two highest of a number, with e = 2^245. */
  lemma ClampArithmetic(lo: Byte, mid: nat, hi: Byte, e: nat)
    requires 256 * mid + 255 < 8 * e
    ensures 8 * ((lo + 256 * mid + 8 * e * hi) / 8 % (64 * e)) == lo - lo % 8 + 256 * mid + 8 * e * (hi % 64)
  {
    var low, q, r := lo / 8 + 32 * mid, hi / 64, hi % 64;
    Associates(8, e, hi);
    Associates(8, e, r);
    RemainderIs(lo + 256 * mid + 8 * e * hi, 8, low + e * hi, lo % 8);
    SplitProduct(e, hi, q, r);
    Monotonic(r, 63, e);
    RemainderIs(low + e * hi, 64 * e, q, low + e * r);
  }

  lemma ClampJoin(lo: Byte, mid: nat, hi: Byte, e: nat)
    requires 256 * mid + 255 < 8 * e
    ensures lo - lo % 8 + 256 * mid + 8 * e * (64 + hi % 64)
         == 64 * (8 * e) + 8 * ((lo + 256 * mid + 8 * e * hi) / 8 % (64 * e))
  {
    ClampArithmetic(lo, mid, hi, e);
    Distributes(8 * e, 64, hi % 64);
  }

  lemma SplitProduct(e: nat, hi: nat, q: nat, r: nat)
    requires hi == 64 * q + r
    ensures e * hi == 64 * e * q + e * r
  {
    Distributes(e, 64 * q, r);
    Associates(64, e, q);
    Associates(e, 64, q);
  }

  /** A multiple of 8 with its top bit at place 254 is not a multiple of `L` when it is multiplied by 8 again. */
  lemma NotMultiple(x: nat)
    requires x % 8 == 0 && TOP <= 2 * x && x < TOP
    ensures (8 * x) % L != 0
  {
    if (8 * x) % L == 0 {
      var m, t := x / 8, (8 * x) / L;
      Division(8 * x, L);
      var k := MultipleOfOdd(m, t);
      BetweenMultiples(m, k);
    }
  }

  lemma BetweenMultiples(m: int, k: int)
    requires 0 < m < L
    ensures m != L * k
  {
    if k >= 1 {
      assert L * k >= L;
    } else {
      assert L * k <= 0;
    }
  }

  /** `L` is odd, so it divides what it divides 64 times of. */
  lemma MultipleOfOdd(m: int, t: int) returns (k: int)
    requires 64 * m == L * t
    ensures m == L * k
  {
    var b := (37 * L - 1) / 64;
    assert 37 * L == 64 * b + 1;
    k := 37 * m - b * t;
    assert 37 * (L * t) == 64 * (b * t) + t;
    assert t == 64 * k;
    assert L * t == 64 * (L * k);
  }
}
