/** SHA-512 as FIPS 180-4 defines it: the functions of section 4.1.3, the constants of sections 4.2.3 and 5.3.5,
    the padding of section 5.1.2 and the computation of section 6.4. */
module Sha512Spec {
  import opened Bits
  import opened Bytes
  import opened WordCodec
  import opened Rotations

  /** Addition modulo 2^64 of as many terms as `x` is a sum of. */
  function Word(x: nat): Word64 { x % 0x1_0000_0000_0000_0000 }

  // ---------------------------------------------------------------- words

  lemma WordBits(op: Op, x: Word64, y: Word64)
    ensures Bitwise(op, x, y) < 0x1_0000_0000_0000_0000
  {
    hide Bitwise, Pow2;
    Pow2Words();
    BitwiseBound(op, 64, x, y);
  }

  function AndW(x: Word64, y: Word64): Word64 { WordBits(AndOp, x, y); And(x, y) }

  function OrW(x: Word64, y: Word64): Word64 { WordBits(OrOp, x, y); Or(x, y) }

  function XorW(x: Word64, y: Word64): Word64 { WordBits(XorOp, x, y); Xor(x, y) }

  function NotW(x: Word64): Word64 { 0xffff_ffff_ffff_ffff - x }

  lemma RotrBound(x: Word64, b: nat)
    requires 0 < b < 64
    ensures x < Pow2(64) && RotR(64, x, b) < 0x1_0000_0000_0000_0000
  {
    hide RotR, Pow2;
    Pow2Words();
    RotLBound(64, x, b);
  }

  function Rotr(x: Word64, b: nat): Word64
    requires 0 < b < 64
  {
    RotrBound(x, b);
    RotR(64, x, b)
  }

  function ShrW(x: Word64, b: nat): Word64 { Shr(x, b) }

  // ---------------------------------------------------------------- the functions of the rounds

  function Ch(x: Word64, y: Word64, z: Word64): Word64 { XorW(AndW(x, y), AndW(NotW(x), z)) }

  function Maj(x: Word64, y: Word64, z: Word64): Word64 { XorW(XorW(AndW(x, y), AndW(x, z)), AndW(y, z)) }

  function BigSigma0(x: Word64): Word64 { XorW(XorW(Rotr(x, 28), Rotr(x, 34)), Rotr(x, 39)) }

  function BigSigma1(x: Word64): Word64 { XorW(XorW(Rotr(x, 14), Rotr(x, 18)), Rotr(x, 41)) }

  function SmallSigma0(x: Word64): Word64 { XorW(XorW(Rotr(x, 1), Rotr(x, 8)), ShrW(x, 7)) }

  function SmallSigma1(x: Word64): Word64 { XorW(XorW(Rotr(x, 19), Rotr(x, 61)), ShrW(x, 6)) }

  /** The round constants, in groups of eight. */
  const K0: seq<Word64> := [
    0x428a2f98d728ae22, 0x7137449123ef65cd, 0xb5c0fbcfec4d3b2f, 0xe9b5dba58189dbbc,
    0x3956c25bf348b538, 0x59f111f1b605d019, 0x923f82a4af194f9b, 0xab1c5ed5da6d8118
  ]

  const K1: seq<Word64> := [
    0xd807aa98a3030242, 0x12835b0145706fbe, 0x243185be4ee4b28c, 0x550c7dc3d5ffb4e2,
    0x72be5d74f27b896f, 0x80deb1fe3b1696b1, 0x9bdc06a725c71235, 0xc19bf174cf692694
  ]

  const K2: seq<Word64> := [
    0xe49b69c19ef14ad2, 0xefbe4786384f25e3, 0x0fc19dc68b8cd5b5, 0x240ca1cc77ac9c65,
    0x2de92c6f592b0275, 0x4a7484aa6ea6e483, 0x5cb0a9dcbd41fbd4, 0x76f988da831153b5
  ]

  const K3: seq<Word64> := [
    0x983e5152ee66dfab, 0xa831c66d2db43210, 0xb00327c898fb213f, 0xbf597fc7beef0ee4,
    0xc6e00bf33da88fc2, 0xd5a79147930aa725, 0x06ca6351e003826f, 0x142929670a0e6e70
  ]

  const K4: seq<Word64> := [
    0x27b70a8546d22ffc, 0x2e1b21385c26c926, 0x4d2c6dfc5ac42aed, 0x53380d139d95b3df,
    0x650a73548baf63de, 0x766a0abb3c77b2a8, 0x81c2c92e47edaee6, 0x92722c851482353b
  ]

  const K5: seq<Word64> := [
    0xa2bfe8a14cf10364, 0xa81a664bbc423001, 0xc24b8b70d0f89791, 0xc76c51a30654be30,
    0xd192e819d6ef5218, 0xd69906245565a910, 0xf40e35855771202a, 0x106aa07032bbd1b8
  ]

  const K6: seq<Word64> := [
    0x19a4c116b8d2d0c8, 0x1e376c085141ab53, 0x2748774cdf8eeb99, 0x34b0bcb5e19b48a8,
    0x391c0cb3c5c95a63, 0x4ed8aa4ae3418acb, 0x5b9cca4f7763e373, 0x682e6ff3d6b2b8a3
  ]

  const K7: seq<Word64> := [
    0x748f82ee5defb2fc, 0x78a5636f43172f60, 0x84c87814a1f0ab72, 0x8cc702081a6439ec,
    0x90befffa23631e28, 0xa4506cebde82bde9, 0xbef9a3f7b2c67915, 0xc67178f2e372532b
  ]

  const K8: seq<Word64> := [
    0xca273eceea26619c, 0xd186b8c721c0c207, 0xeada7dd6cde0eb1e, 0xf57d4f7fee6ed178,
    0x06f067aa72176fba, 0x0a637dc5a2c898a6, 0x113f9804bef90dae, 0x1b710b35131c471b
  ]

  const K9: seq<Word64> := [
    0x28db77f523047d84, 0x32caab7b40c72493, 0x3c9ebe0a15c9bebc, 0x431d67c49c100d4c,
    0x4cc5d4becb3e42b6, 0x597f299cfc657e2a, 0x5fcb6fab3ad6faec, 0x6c44198c4a475817
  ]

  const K: seq<Word64> := K0 + K1 + K2 + K3 + K4 + K5 + K6 + K7 + K8 + K9

  const INITIAL: Hash := [
    0x6a09e667f3bcc908, 0xbb67ae8584caa73b, 0x3c6ef372fe94f82b, 0xa54ff53a5f1d36f1,
    0x510e527fade682d1, 0x9b05688c2b3e6c1f, 0x1f83d9abfb41bd6b, 0x5be0cd19137e2179
  ]

  // ---------------------------------------------------------------- one block

  /** The message schedule. */
  function Schedule(block: seq<Byte>, t: nat): Word64
    requires |block| == 128 && t < 80
  {
    if t < 16 then
      BigEndianFits(block[8 * t..8 * t + 8]);
      BigEndian(block[8 * t..8 * t + 8])
    else
      Word(SmallSigma1(Schedule(block, t - 2)) + Schedule(block, t - 7)
           + SmallSigma0(Schedule(block, t - 15)) + Schedule(block, t - 16))
  }

  lemma BigEndianFits(s: seq<Byte>)
    requires |s| == 8
    ensures BigEndian(s) < 0x1_0000_0000_0000_0000
  {
    hide BigEndian, Reversed;
    BigEndianIsReversed(s);
    LittleEndianFits(Reversed(s));
  }

  datatype Vars = Vars(a: Word64, b: Word64, c: Word64, d: Word64, e: Word64, f: Word64, g: Word64, h: Word64)

  function Round(v: Vars, k: Word64, w: Word64): Vars {
    var t1 := v.h + BigSigma1(v.e) + Ch(v.e, v.f, v.g) + k + w;
    var t2 := BigSigma0(v.a) + Maj(v.a, v.b, v.c);
    Vars(Word(t1 + t2), v.a, v.b, v.c, Word(v.d + t1), v.e, v.f, v.g)
  }

  lemma KLength()
    ensures |K| == 80
  {}

  /** The working variables after `t` rounds with the constants `ks`. */
  function Rounds(ks: seq<Word64>, v: Vars, block: seq<Byte>, t: nat): Vars
    requires |ks| == 80 && |block| == 128 && t <= 80
  {
    if t == 0 then v
    else Round(Rounds(ks, v, block, t - 1), ks[t - 1], Schedule(block, t - 1))
  }

  function VarsOf(h: seq<Word64>): Vars
    requires |h| == 8
  {
    Vars(h[0], h[1], h[2], h[3], h[4], h[5], h[6], h[7])
  }

  /** The eight words of a hash value, and the 128 bytes of a block. */
  type Hash = h: seq<Word64> | |h| == 8 witness [0, 0, 0, 0, 0, 0, 0, 0]
  type Block = b: seq<Byte> | |b| == 128 witness seq(128, _ => 0)

  function AddVars(h: Hash, v: Vars): Hash {
    [Word(h[0] + v.a), Word(h[1] + v.b), Word(h[2] + v.c), Word(h[3] + v.d),
     Word(h[4] + v.e), Word(h[5] + v.f), Word(h[6] + v.g), Word(h[7] + v.h)]
  }

  function Compress(h: Hash, block: Block): Hash {
    KLength();
    AddVars(h, Rounds(K, VarsOf(h), block, 80))
  }

  // ---------------------------------------------------------------- whole messages

  /** All blocks of `s`, one after the other. */
  function Blocks(compress: (Hash, Block) -> Hash, h: Hash, s: seq<Byte>): Hash
    requires |s| % 128 == 0
    decreases |s|
  {
    if s == [] then h else Blocks(compress, compress(h, s[..128]), s[128..])
  }

  function Zeros(n: nat): (s: seq<Byte>)
    ensures |s| == n
  {
    seq(n, _ => 0)
  }

  /** The length of a message in bits, as a 128-bit big-endian number. */
  function LengthField(n: nat): (s: seq<Byte>)
    ensures |s| == 16
  {
    Reversed(Digits(16, 8 * n % 0x1_0000_0000_0000_0000_0000_0000_0000_0000))
  }

  /** A one bit, as few zeros as possible, and the length, to a multiple of 128 bytes. */
  function Padding(n: nat): (s: seq<Byte>)
    ensures (n + |s|) % 128 == 0 && 17 <= |s| <= 144
  {
    hide Zeros, LengthField;
    [0x80] + Zeros(ZeroCount(n)) + LengthField(n)
  }

  /** How many zeros bring `n` bytes, the one bit and the length to a multiple of 128. */
  function ZeroCount(n: nat): (z: nat)
    ensures z < 128 && (n + 1 + z + 16) % 128 == 0
  {
    (111 - n) % 128
  }

  /** The words of a hash value, high byte first. */
  function WordBytes(h: seq<Word64>): (s: seq<Byte>)
    ensures |s| == 8 * |h|
  {
    if h == [] then [] else Reversed(Digits(8, h[0])) + WordBytes(h[1..])
  }

  /** The hash value after the last block of the padded message. */
  function FinalHash(msg: seq<Byte>): Hash { Blocks(Compress, INITIAL, msg + Padding(|msg|)) }

  function Sha512(msg: seq<Byte>): (digest: seq<Byte>)
    ensures |digest| == 64
  {
    WordBytes(FinalHash(msg))
  }

  lemma {:induction false} BlocksAppend(f: (Hash, Block) -> Hash, h: Hash, s: seq<Byte>, t: seq<Byte>)
    requires |s| % 128 == 0 && |t| % 128 == 0
    ensures Blocks(f, h, s + t) == Blocks(f, Blocks(f, h, s), t)
    decreases |s|
  {
    if s == [] {
      assert s + t == t;
    } else {
      assert (s + t)[..128] == s[..128] && (s + t)[128..] == s[128..] + t;
      BlocksAppend(f, f(h, s[..128]), s[128..], t);
    }
  }

  lemma OneBlock(f: (Hash, Block) -> Hash, h: Hash, s: seq<Byte>)
    requires |s| == 128
    ensures Blocks(f, h, s) == f(h, s)
  {
    assert s[..128] == s && s[128..] == [];
  }
}
