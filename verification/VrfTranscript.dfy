/** external/VRF_functions/convert.cpp: the strings that the verifiable random function hashes, and the layout of
    its proofs. */
module VrfTranscript {
  import opened Wrappers
  import opened Bits
  import opened Bytes
  import opened WordCodec
  import opened Sha512Spec
  import opened Sha512Stream
  import opened PointCodec
  import opened PointDecoding
  import opened SquareRoots
  import opened PointRoundTrip
  import opened Rfc8032
  import opened Projective
  import opened FromUniform

  const SUITE: Byte := 0x04
  const ONE: Byte := 0x01
  const TWO: Byte := 0x02
  const THREE: Byte := 0x03

  // ---------------------------------------------------------------- the hashed strings

  function PointsInput(p1: Point, p2: Point, p3: Point, p4: Point): seq<Byte> {
    [SUITE, TWO] + ToBytes(p1) + ToBytes(p2) + ToBytes(p3) + ToBytes(p4)
  }

  function CurveInput(y: Point, alpha: seq<Byte>): seq<Byte> { [SUITE, ONE] + ToBytes(y) + alpha }

  function OutputInput(q: Point): seq<Byte> { [SUITE, THREE] + ToBytes(q) }

  lemma PointsInputParts(p1: Point, p2: Point, p3: Point, p4: Point)
    ensures var s := PointsInput(p1, p2, p3, p4);
      && |s| == 130 && s[..2] == [0x04, 0x02] && s[2..34] == ToBytes(p1) && s[34..66] == ToBytes(p2)
      && s[66..98] == ToBytes(p3) && s[98..130] == ToBytes(p4)
  {
    hide ToBytes;
  }

  lemma CurveInputParts(y: Point, alpha: seq<Byte>)
    ensures var s := CurveInput(y, alpha);
      |s| == 34 + |alpha| && s[..2] == [0x04, 0x01] && s[2..34] == ToBytes(y) && s[34..] == alpha
  {
    hide ToBytes;
  }

  lemma OutputInputParts(q: Point)
    ensures var s := OutputInput(q); |s| == 34 && s[..2] == [0x04, 0x03] && s[2..] == ToBytes(q)
  {
    hide ToBytes;
  }

  /** The string that is hashed to the output determines its point. */
  lemma OutputInputInjective(q: Point, q': Point)
    requires Fermat() && OnCurve(q) && OnCurve(q')
    requires OutputInput(q) == OutputInput(q')
    ensures q == q'
  {
    hide Fermat, OnCurve, OutputInput, ToBytes;
    OutputInputParts(q);
    OutputInputParts(q');
    EncodedDifferently(q, q');
  }

  /** The hashed string determines the four points and their order. */
  lemma PointsInputInjective(p1: Point, p2: Point, p3: Point, p4: Point, q1: Point, q2: Point, q3: Point, q4: Point)
    requires Fermat() && OnCurve(p1) && OnCurve(p2) && OnCurve(p3) && OnCurve(p4)
    requires OnCurve(q1) && OnCurve(q2) && OnCurve(q3) && OnCurve(q4)
    requires PointsInput(p1, p2, p3, p4) == PointsInput(q1, q2, q3, q4)
    ensures p1 == q1 && p2 == q2 && p3 == q3 && p4 == q4
  {
    hide Fermat, OnCurve, PointsInput, ToBytes;
    PointsInputParts(p1, p2, p3, p4);
    PointsInputParts(q1, q2, q3, q4);
    EncodedDifferently(p1, q1);
    EncodedDifferently(p2, q2);
    EncodedDifferently(p3, q3);
    EncodedDifferently(p4, q4);
  }

  /** The hashed string determines the key and the message, whatever the length of the message. */
  lemma CurveInputInjective(y: Point, alpha: seq<Byte>, y': Point, alpha': seq<Byte>)
    requires Fermat() && OnCurve(y) && OnCurve(y')
    requires CurveInput(y, alpha) == CurveInput(y', alpha')
    ensures y == y' && alpha == alpha'
  {
    hide Fermat, OnCurve, CurveInput, ToBytes;
    CurveInputParts(y, alpha);
    CurveInputParts(y', alpha');
    EncodedDifferently(y, y');
  }

  /** No string is hashed for two purposes. */
  lemma DomainsSeparate(p1: Point, p2: Point, p3: Point, p4: Point, y: Point, alpha: seq<Byte>, q: Point)
    ensures PointsInput(p1, p2, p3, p4) != CurveInput(y, alpha)
    ensures CurveInput(y, alpha) != OutputInput(q)
    ensures OutputInput(q) != PointsInput(p1, p2, p3, p4)
  {
    hide ToBytes;
    assert PointsInput(p1, p2, p3, p4)[1] == TWO;
    assert CurveInput(y, alpha)[1] == ONE;
    assert OutputInput(q)[1] == THREE;
  }

  // ---------------------------------------------------------------- hashing points

  function HashOfPoints(p1: Point, p2: Point, p3: Point, p4: Point): (c: seq<Byte>)
    ensures |c| == 16
  {
    Sha512(PointsInput(p1, p2, p3, p4))[..16]
  }

  /** As numbers, the low bits of a hash are those of its first bytes. */
  lemma LowBits(d: seq<Byte>, n: nat)
    requires n <= |d|
    ensures LittleEndian(d[..n]) == LittleEndian(d) % Pow2(8 * n)
  {
    hide LittleEndian, Pow2;
    assert d == d[..n] + d[n..];
    LittleEndianAppend(d[..n], d[n..]);
    LittleEndianBound(d[..n]);
    RemainderIs(LittleEndian(d), Pow2(8 * n), LittleEndian(d[n..]), LittleEndian(d[..n]));
  }

  /** A challenge is the low 128 bits of the hash. */
  lemma ChallengeValue(p1: Point, p2: Point, p3: Point, p4: Point)
    ensures LittleEndian(HashOfPoints(p1, p2, p3, p4)) == LittleEndian(Sha512(PointsInput(p1, p2, p3, p4))) % Pow2(128)
  {
    hide Sha512, PointsInput, LittleEndian, Pow2;
    LowBits(Sha512(PointsInput(p1, p2, p3, p4)), 16);
  }

  /** `_vrf_ietfdraft03_point_to_string` and `memmove`: bytes written at `o`. */
  method Write(dst: array<Byte>, o: nat, src: seq<Byte>)
    requires o + |src| <= dst.Length
    modifies dst
    ensures dst[..] == old(dst[..o]) + src + old(dst[o + |src|..])
  {
    forall i | 0 <= i < |src| {
      dst[o + i] := src[i];
    }
    assert forall i :: 0 <= i < |src| ==> dst[o + i] == src[i];
    ghost var r := old(dst[..o]) + src + old(dst[o + |src|..]);
    forall k | 0 <= k < dst.Length
      ensures dst[k] == r[k]
    {
      if o <= k < o + |src| {
        assert dst[o + (k - o)] == src[k - o];
      }
    }
  }

  /** `_vrf_ietfdraft03_hash_points`; it writes the first 16 bytes of `c`. */
  method HashPoints(c: array<Byte>, q1: P3, q2: P3, q3: P3, q4: P3,
                    ghost p1: Point, ghost p2: Point, ghost p3: Point, ghost p4: Point)
    requires Fermat() && OfP3(q1, p1) && OfP3(q2, p2) && OfP3(q3, p3) && OfP3(q4, p4)
    requires c.Length >= 16
    modifies c
    ensures c[..] == HashOfPoints(p1, p2, p3, p4) + old(c[16..])
  {
    hide Fermat, OfP3, ToBytes, Sha512;
    var str := FillPoints(q1, q2, q3, q4, p1, p2, p3, p4);
    var c1 := new Byte[64](_ => 0);
    HashMessage(c1, str[..]);
    ghost var digest := c1[..];
    Write(c, 0, c1[..16]);
    forall i | 0 <= i < 64 {
      c1[i] := 0;
    }
    assert digest[..16] == HashOfPoints(p1, p2, p3, p4);
  }

  method FillPoints(q1: P3, q2: P3, q3: P3, q4: P3, ghost p1: Point, ghost p2: Point, ghost p3: Point, ghost p4: Point)
    returns (str: array<Byte>)
    requires Fermat() && OfP3(q1, p1) && OfP3(q2, p2) && OfP3(q3, p3) && OfP3(q4, p4)
    ensures fresh(str) && str[..] == PointsInput(p1, p2, p3, p4)
  {
    hide Fermat, OfP3, ToBytes;
    str := new Byte[2 + 32 * 4](_ => 0);
    str[0] := SUITE;
    str[1] := TWO;
    assert str[..2] == [SUITE, TWO];
    var s := P3ToBytes(q1, p1);
    Write(str, 2 + 32 * 0, s);
    s := P3ToBytes(q2, p2);
    Write(str, 2 + 32 * 1, s);
    s := P3ToBytes(q3, p3);
    Write(str, 2 + 32 * 2, s);
    s := P3ToBytes(q4, p4);
    Write(str, 2 + 32 * 3, s);
  }

  // ---------------------------------------------------------------- hashing to the curve

  /** The first 32 bytes of a hash with the sign bit cleared. */
  function Uniform(digest: seq<Byte>): String32
    requires |digest| == 64
  {
    digest[..31] + [digest[31] % 128]
  }

  /** It is the low 255 bits of the hash. */
  lemma UniformValue(digest: seq<Byte>)
    requires |digest| == 64
    ensures LittleEndian(Uniform(digest)) == LittleEndian(digest) % Pow2(255)
  {
    hide LittleEndian, Pow2, TopByte;
    var s: String32, u := digest[..32], Uniform(digest);
    LowBits(digest, 32);
    StringValue(s);
    StringValue(u);
    Weights();
    Width();
    assert u[..31] == s[..31];
    assert YOf(u) == YOf(s) && SignOf(u) == 0;
    LowOfLow(LittleEndian(digest), YOf(s), SignOf(s));
  }

  lemma LowOfLow(n: nat, y: nat, sign: nat)
    requires n % (2 * TOP) == y + TOP * sign && y < TOP && sign < 2
    ensures n % TOP == y
  {
    Division(n, 2 * TOP);
    RemainderIs(n, TOP, 2 * (n / (2 * TOP)) + sign, y);
  }

  /** The string that Elligator 2 makes of a key and a message. */
  ghost function HashedToCurve(y: Point, alpha: seq<Byte>): String32 {
    Mapped(Uniform(Sha512(CurveInput(y, alpha))))
  }

  /** The hash of the suite, a tag, the key and the message, absorbed one after the other. */
  method HashCurveInput(q: P3, ghost y: Point, alpha: seq<Byte>) returns (r: array<Byte>)
    requires Fermat() && OfP3(q, y) && |alpha| < 0x1_0000_0000_0000_0000
    ensures fresh(r) && r[..] == Sha512(CurveInput(y, alpha))
  {
    hide *;
    var yString := P3ToBytes(q, y);
    var hs := new HashState();
    hs.Update([SUITE]);
    hs.Update([ONE]);
    hs.Update(yString);
    hs.Update(alpha);
    CurveInputPieces(y, alpha);
    r := new Byte[64](_ => 0);
    hs.Final(r);
  }

  lemma CurveInputPieces(y: Point, alpha: seq<Byte>)
    ensures [] + [SUITE] + [ONE] + ToBytes(y) + alpha == CurveInput(y, alpha)
  {
    hide ToBytes;
    assert [] + [SUITE] + [ONE] == [SUITE, ONE];
  }

  /** `_vrf_ietfdraft03_hash_to_curve_elligator2_25519` */
  method HashToCurve(q: P3, ghost y: Point, alpha: seq<Byte>) returns (h: String32)
    requires Fermat() && OfP3(q, y) && |alpha| < 0x1_0000_0000_0000_0000
    ensures h == HashedToCurve(y, alpha)
  {
    hide Fermat, OfP3, CurveInput, Sha512, Bitwise, Mapped;
    var r := HashCurveInput(q, y, alpha);
    ghost var digest := r[..];
    MaskLow7(r[31]);
    r[31] := And(r[31], 0x7f);
    assert r[..32] == Uniform(digest);
    var aborted;
    aborted, h := MapUniform(r[..32]);
  }

  // ---------------------------------------------------------------- proofs

  type Proof = pi: seq<Byte> | |pi| == 80 witness seq(80, _ => 0)

  datatype Parts = Parts(gamma: Point, c: seq<Byte>, s: seq<Byte>)

  function ProofParts(pi: Proof): Option<Parts> {
    var gamma :- StringToPoint(pi[..32]);
    Some(Parts(gamma, pi[32..48], pi[48..80]))
  }

  /** `_vrf_ietfdraft03_decode_proof`: a rejected proof leaves `c` and `s` as they were. */
  method DecodeProof(c: array<Byte>, s: array<Byte>, pi: Proof) returns (ok: bool, gamma: P3)
    requires c.Length >= 16 && s.Length >= 32 && c != s
    modifies c, s
    ensures ok <==> ProofParts(pi).Some?
    ensures ok ==> var p := ProofParts(pi).value;
      OfP3(gamma, p.gamma) && c[..] == p.c + old(c[16..]) && s[..] == p.s + old(s[32..])
    ensures !ok ==> c[..] == old(c[..]) && s[..] == old(s[..])
  {
    hide StringToPoint, OfP3;
    ok, gamma := P3FromString(pi[..32]);
    if ok {
      Write(c, 0, pi[32..48]);
      Write(s, 0, pi[48..80]);
    }
  }

  /** The proof with the sign bit of its point flipped. */
  function FlipProof(pi: Proof): Proof { FlipSign(pi[..32]) + pi[32..] }

  /** Two accepted proofs have the same parts if and only if they are equal, or the y coordinate of their point is 1
      or -1 and they differ in its sign bit only. */
  lemma ProofsInjective(pi: Proof, pi': Proof)
    requires Fermat() && ProofParts(pi).Some? && ProofParts(pi').Some?
    ensures ProofParts(pi) == ProofParts(pi') <==> pi == pi' || (pi' == FlipProof(pi) && OnAxisY(YOf(pi[..32])))
  {
    hide Fermat, StringToPoint, FlipSign, OnAxisY, YOf;
    DecodingInjective(pi[..32], pi'[..32]);
    assert pi == pi[..32] + pi[32..48] + pi[48..80];
    assert pi' == pi'[..32] + pi'[32..48] + pi'[48..80];
    if pi' == FlipProof(pi) {
      assert pi'[..32] == FlipSign(pi[..32]) && pi'[32..] == pi[32..];
      assert pi'[32..48] == pi'[32..][..16] && pi[32..48] == pi[32..][..16];
      assert pi'[48..80] == pi'[32..][16..] && pi[48..80] == pi[32..][16..];
    }
    if pi'[..32] == FlipSign(pi[..32]) && pi'[32..48] == pi[32..48] && pi'[48..80] == pi[48..80] {
      assert pi'[32..] == pi'[32..48] + pi'[48..80] == pi[32..];
      assert pi' == FlipProof(pi);
    }
  }

  /** Flipping the sign bit of an accepted proof gives an accepted proof of the same parts if and only if the y
      coordinate of its point is 1 or -1. */
  lemma FlippedProof(pi: Proof)
    requires Fermat() && ProofParts(pi).Some?
    ensures ProofParts(FlipProof(pi)) == ProofParts(pi) <==> OnAxisY(YOf(pi[..32]))
  {
    hide Fermat, StringToPoint, FlipSign, OnAxisY, YOf;
    var s: String32 := pi[..32];
    var f := FlipProof(pi);
    assert f[..32] == FlipSign(s) && f[32..48] == pi[32..48] && f[48..80] == pi[48..80];
    if OnAxisY(YOf(s)) {
      FlippedOnAxis(s);
    } else if ProofParts(f) == ProofParts(pi) {
      DecodingInjective(s, FlipSign(s));
      Flips(s);
    }
  }

  lemma Flips(s: String32)
    ensures FlipSign(s) != s
  {
    assert FlipSign(s)[31] != s[31];
  }

  // ---------------------------------------------------------------- comparing

  /** `crypto_verify_16`: 0 when the first sixteen bytes agree, -1 when not, without a branch on them. */
  method Verify16(x: seq<Byte>, y: seq<Byte>) returns (r: int)
    requires |x| >= 16 && |y| >= 16
    ensures r == if x[..16] == y[..16] then 0 else -1
  {
    hide Bitwise, Shr;
    var d: Byte := 0;
    var i := 0;
    while i < 16
      invariant 0 <= i <= 16
      invariant d == 0 <==> forall k :: 0 <= k < i ==> x[k] == y[k]
    {
      ByteBits(XorOp, x[i], y[i]);
      ByteBits(OrOp, d, Xor(x[i], y[i]));
      OrIsZero(d, Xor(x[i], y[i]));
      Differs(x[i], y[i]);
      d := Or(d, Xor(x[i], y[i]));
      i := i + 1;
    }
    BorrowBit(d);
    r := And(1, Shr(Minus64(d, 1), 8)) - 1;
    assert (forall k :: 0 <= k < 16 ==> x[k] == y[k]) <==> x[..16] == y[..16] by {
      if x[..16] == y[..16] {
        assert forall k :: 0 <= k < 16 ==> x[..16][k] == y[..16][k];
      }
    }
  }

  /** Subtraction of `uint_fast16_t`, taken as 64 bits wide. */
  function Minus64(a: nat, b: nat): nat { (a - b) % 0x1_0000_0000_0000_0000 }

  lemma BorrowBit(d: Byte)
    ensures And(1, Shr(Minus64(d, 1), 8)) == if d == 0 then 1 else 0
  {
    hide Bitwise, Shr;
    var x := Shr(Minus64(d, 1), 8);
    ShrByte(Minus64(d, 1));
    LowBit(x);
    AndCommutes(1, x);
  }
}
