/** The verifiable random function of external/VRF_functions: keys (keypair.cpp), proofs (prove.cpp) and their
    verification (verify.cpp).  The main result is that every proof made with a key verifies under that key. */
module Vrf {
  import opened Wrappers
  import opened Bits
  import opened Bytes
  import opened Sha512Spec
  import opened Sha512Stream
  import opened PointCodec
  import opened PointDecoding
  import opened PointRoundTrip
  import opened SquareRoots
  import opened CurveGroup
  import opened EdwardsLaw
  import opened EdwardsClosure
  import opened EdwardsAssociative
  import opened Projective
  import opened ScalarMult
  import opened PointMult
  import opened FromUniform
  import opened SmallOrder
  import opened SmallOrderPoints
  import opened Rfc8032
  import opened Scalars
  import opened VrfTranscript

  /** The base point and its precomputed tables. */
  datatype Base = Base(point: Point, tables: seq<seq<Precomp>>)

  /** The order of the curve is 8 L. */
  ghost predicate Annihilated(p: Point) { OnCurve(p) ==> Times(CURVE, 8 * L, p) == IDENTITY }

  ghost predicate CurveOrder() { forall p :: Annihilated(p) }

  /** The base point has the order L. */
  ghost predicate BaseOrder(p: Point) {
    && OnCurve(p) && Times(CURVE, L, p) == IDENTITY
    && (forall n :: 0 < n < L ==> Times(CURVE, n, p) != IDENTITY)
  }

  /** What the library computes with and this model takes as given: that 2^255 - 19 is prime, the order of the curve and
      of its base point, and the values in the tables. */
  ghost predicate Sound(e: Base) {
    Fermat() && CurveOrder() && BaseOrder(e.point) && BaseTables(e.tables, e.point)
  }

  // ---------------------------------------------------------------- keys

  function SecretScalar(seed: String32): String32 { Clamp(Sha512(seed)) }

  /** The half of the hash that the nonces are made of. */
  function SecretHalf(seed: String32): String32 { UpperHalf(Sha512(seed)) }

  /** The hash of the seed as a number: bits 3 to 253 go into the secret scalar, bits 256 and up are the other half. */
  lemma SecretParts(seed: String32)
    ensures var n := LittleEndian(Sha512(seed));
      && LittleEndian(SecretScalar(seed)) == Pow2(254) + 8 * (n % Pow2(256) / 8 % Pow2(251))
      && LittleEndian(SecretHalf(seed)) == n / Pow2(256)
  {
    hide Sha512, Clamp, LittleEndian, Pow2;
    var d: String64 := Sha512(seed);
    ClampValue(d);
    HalvesOf(d);
  }

  lemma HalvesOf(d: String64)
    ensures LittleEndian(d) % Pow2(256) == LittleEndian(d[..32]) && LittleEndian(d) / Pow2(256) == LittleEndian(d[32..])
  {
    hide LittleEndian, Pow2;
    assert d == d[..32] + d[32..];
    LittleEndianAppend(d[..32], d[32..]);
    LittleEndianBound(d[..32]);
    RemainderIs(LittleEndian(d), Pow2(256), LittleEndian(d[32..]), LittleEndian(d[..32]));
  }

  ghost function PublicPoint(e: Base, seed: String32): Point {
    Times(CURVE, LittleEndian(SecretScalar(seed)), e.point)
  }

  /** The public key of a seed. */
  ghost function PublicKey(e: Base, seed: String32): String32 { ToBytes(PublicPoint(e, seed)) }

  /** `crypto_vrf_ietfdraft03_keypair_from_seed`: the secret key is the seed and the public key. */
  method KeypairFromSeed(e: Base, seed: String32) returns (pk: String32, sk: String64)
    requires Sound(e)
    ensures pk == PublicKey(e, seed) && sk == seed + pk
  {
    hide Sound, Fermat, OnCurve, Sha512, Clamp, ToBytes, LittleEndian, BaseTables, Times, OfP3;
    SoundBase(e);
    var h := new Byte[64](_ => 0);
    HashMessage(h, seed);
    ClampTop(h[..]);
    ClampBytes(h);
    var x := h[..32];
    var a := MultiplyBase(e.tables, x, e.point);
    pk := P3ToBytes(a, PublicPoint(e, seed));
    sk := seed + pk;
  }

  lemma SoundBase(e: Base)
    requires Sound(e)
    ensures Fermat() && Lawful(CURVE) && CURVE.member(e.point) && Times(CURVE, L, e.point) == IDENTITY
    ensures CurveOrder() && OnCurve(e.point) && BaseTables(e.tables, e.point)
  {
    hide Lawful, Times, OnCurve, Fermat, CurveOrder, BaseTables;
    CurveIsLawful();
  }

  // ---------------------------------------------------------------- proving

  /** The point that a key and a message hash to. */
  ghost function HashPoint(y: Point, msg: seq<Byte>): Point { FromBytes(HashedToCurve(y, msg)).point }

  /** The nonce of a proof, from the second half of the hashed seed and the hashed message. */
  function Nonce(half: String32, h: String32): String32 { Scalar(LittleEndian(Sha512(half + h))) }

  /** The challenge of a proof. */
  ghost function Challenge(e: Base, h: Point, gamma: Point, k: nat): (c: seq<Byte>)
    ensures |c| == 16
  {
    HashOfPoints(h, gamma, Times(CURVE, k, e.point), Times(CURVE, k, h))
  }

  function JoinProof(gamma: String32, c: seq<Byte>, s: String32): Proof
    requires |c| == 16
  {
    gamma + c + s
  }

  /** The response to a challenge: c x + k modulo `L`. */
  function Response(c: seq<Byte>, x: nat, k: nat): String32 { Scalar(LittleEndian(c) * x + k) }

  /** The proof with the secret scalar `x` and the nonce `k`, over the hashed point `h`. */
  ghost function ProofFrom(e: Base, x: nat, k: nat, h: Point): Proof {
    var gamma := Times(CURVE, x, h);
    var c := Challenge(e, h, gamma, k);
    JoinProof(ToBytes(gamma), c, Response(c, x, k))
  }

  ghost function SecretNonce(seed: String32, y: Point, msg: seq<Byte>): nat {
    LittleEndian(Nonce(SecretHalf(seed), HashedToCurve(y, msg)))
  }

  /** The proof of `msg` under the key of `seed` and `y`. */
  ghost function ProofOf(e: Base, seed: String32, y: Point, msg: seq<Byte>): Proof {
    ProofFrom(e, LittleEndian(SecretScalar(seed)), SecretNonce(seed, y, msg), HashPoint(y, msg))
  }

  /** What `crypto_vrf_ietfdraft03_prove` answers: nothing when the public half of the key does not decode. */
  ghost function Proved(e: Base, sk: String64, msg: seq<Byte>): Option<Proof> {
    match StringToPoint(sk[32..])
    case None => None
    case Some(y) => Some(ProofOf(e, sk[..32], y, msg))
  }

  /** Elligator 2 gives a multiple of eight of a point of the curve, so L times it is zero. */
  lemma MappedSound(r: String32)
    requires Fermat() && CurveOrder()
    ensures var h := FromBytes(Mapped(r)).point; OnCurve(h) && Times(CURVE, L, h) == IDENTITY
  {
    hide Fermat, CurveOrder, Lawful, Times, OnCurve, FromBytes, UniformPoint, Mapped;
    var p := UniformPoint(r);
    MappedDecodes(r);
    AcceptedPoint(Mapped(r));
    UniformIsOnCurve(r);
    OrderOf(p);
    CurveIsLawful();
    TimesTimes(CURVE, L, 8, p);
    assert L * 8 == 8 * L;
  }

  lemma OrderOf(p: Point)
    requires CurveOrder() && OnCurve(p)
    ensures Times(CURVE, 8 * L, p) == IDENTITY
  {
    hide Times, OnCurve;
    assert Annihilated(p);
  }

  lemma HashPointSound(e: Base, y: Point, msg: seq<Byte>)
    requires Sound(e)
    ensures var h := HashPoint(y, msg); OnCurve(h) && Times(CURVE, L, h) == IDENTITY
  {
    hide Fermat, CurveOrder, BaseOrder, BaseTables, Times, OnCurve, FromBytes, HashedToCurve, Mapped;
    MappedSound(Uniform(Sha512(CurveInput(y, msg))));
    HashedIs(y, msg);
  }

  /** The hashed string goes through SHA-512 and Elligator 2, and its point is multiplied by eight. */
  lemma HashPointIs(y: Point, msg: seq<Byte>)
    requires Fermat()
    ensures HashPoint(y, msg) == Times(CURVE, 8, UniformPoint(Uniform(Sha512([0x04, 0x01] + ToBytes(y) + msg))))
  {
    hide Fermat, Times, FromBytes, HashedToCurve, Mapped, Sha512, ToBytes, UniformPoint;
    var r := Uniform(Sha512(CurveInput(y, msg)));
    HashedIs(y, msg);
    MappedDecodes(r);
    AcceptedPoint(Mapped(r));
  }

  lemma HashedIs(y: Point, msg: seq<Byte>)
    ensures HashedToCurve(y, msg) == Mapped(Uniform(Sha512(CurveInput(y, msg))))
  {
    hide Sha512, CurveInput, Mapped;
  }

  /** `vrf_nonce_generation` */
  method NonceGeneration(half: String32, h: String32) returns (k: String32)
    ensures k == Nonce(half, h)
  {
    hide *;
    var hs := new HashState();
    hs.Update(half);
    hs.Update(h);
    assert [] + half + h == half + h;
    var kString := new Byte[64](_ => 0);
    hs.Final(kString);
    k := Scalar(LittleEndian(kString[..]));
    NonceIs(half, h);
  }

  lemma NonceIs(half: String32, h: String32)
    ensures Nonce(half, h) == Scalar(LittleEndian(Sha512(half + h)))
  {
    hide Scalar, LittleEndian, Sha512;
  }

  /** The nonce as a number. */
  lemma NonceValue(half: String32, h: String32)
    ensures LittleEndian(Nonce(half, h)) == LittleEndian(Sha512(half + h)) % L && Nonce(half, h)[31] <= 127
  {
    hide Scalar, LittleEndian, Sha512;
    ScalarValue(LittleEndian(Sha512(half + h)));
  }

  /** `vrf_prove` */
  method ProveWith(e: Base, x: String32, half: String32, q: P3, ghost y: Point, msg: seq<Byte>) returns (pi: Proof)
    requires Sound(e) && OfP3(q, y) && x[31] <= 127 && |msg| < 0x1_0000_0000_0000_0000
    ensures pi == ProofFrom(e, LittleEndian(x), LittleEndian(Nonce(half, HashedToCurve(y, msg))), HashPoint(y, msg))
  {
    hide Sound, Fermat, OnCurve, Times, LittleEndian, Nonce, HashedToCurve, FromBytes, ToBytes, BaseTables,
      Response, HashOfPoints, OfP3;
    SoundBase(e);
    HashPointSound(e, y, msg);
    ghost var h := HashPoint(y, msg);
    var hString := HashToCurve(q, y, msg);
    var ok, hPoint := P3FromBytes(hString);
    var gamma := Multiply(x, hPoint, h);
    ghost var xN := LittleEndian(x);
    var k := NonceGeneration(half, hString);
    ghost var kN := LittleEndian(k);
    NonceValue(half, hString);
    var kB := MultiplyBase(e.tables, k, e.point);
    var kH := Multiply(k, hPoint, h);
    var c := new Byte[32](_ => 0);
    HashPoints(c, hPoint, gamma, kB, kH, h, Times(CURVE, xN, h), Times(CURVE, kN, e.point), Times(CURVE, kN, h));
    var challenge := c[..16];
    var gammaString := P3ToBytes(gamma, Times(CURVE, xN, h));
    pi := JoinProof(gammaString, challenge, Response(challenge, LittleEndian(x), LittleEndian(k)));
  }

  /** `vrf_expand_sk` */
  method ExpandSk(skpk: String64) returns (ok: bool, y: P3, x: String32, half: String32)
    ensures x == SecretScalar(LowerHalf(skpk)) && half == SecretHalf(LowerHalf(skpk)) && x[31] <= 127
    ensures ok <==> StringToPoint(UpperHalf(skpk)).Some?
    ensures ok ==> OfP3(y, StringToPoint(UpperHalf(skpk)).value)
  {
    hide StringToPoint, Sha512, Clamp, OfP3;
    var h := new Byte[64](_ => 0);
    HashMessage(h, skpk[..32]);
    ClampTop(h[..]);
    ClampBytes(h);
    x, half := h[..32], h[32..];
    ok, y := P3FromString(skpk[32..]);
  }

  /** `crypto_vrf_ietfdraft03_prove` */
  method Prove(e: Base, sk: String64, msg: seq<Byte>) returns (ok: bool, pi: Proof)
    requires Sound(e) && |msg| < 0x1_0000_0000_0000_0000
    ensures ok <==> Proved(e, sk, msg).Some?
    ensures ok ==> pi == Proved(e, sk, msg).value
  {
    hide Sound, StringToPoint, SecretScalar, SecretHalf, LittleEndian, Nonce, HashedToCurve, FromBytes, ProofFrom, OfP3;
    var y, x, half;
    ok, y, x, half := ExpandSk(sk);
    pi := seq(80, _ => 0);
    if ok {
      pi := ProveWith(e, x, half, y, StringToPoint(sk[32..]).value, msg);
    }
  }

  // ---------------------------------------------------------------- verifying

  /** The hash that a proof stands for. */
  ghost function OutputOf(gamma: Point): seq<Byte> {
    Sha512(OutputInput(Times(CURVE, 8, gamma)))
  }

  /** A multiple of one point less a multiple of another. */
  ghost function Less(g: Group, m: nat, p: Point, n: nat, q: Point): Point {
    g.add(Times(g, m, p), Inverse(Times(g, n, q)))
  }

  /** The challenge that a verifier computes from a proof. */
  ghost function Recomputed(e: Base, y: Point, h: Point, parts: Parts): (c: seq<Byte>)
    ensures |c| == 16
  {
    var c, s := LittleEndian(parts.c), LittleEndian(parts.s) % L;
    HashOfPoints(h, parts.gamma, Less(CURVE, s, e.point, c, y), Less(CURVE, s, h, c, parts.gamma))
  }

  /** What `crypto_vrf_ietfdraft03_verify` answers: the hash, when the key is valid and the challenge is right. */
  ghost function Verified(e: Base, pk: String32, pi: Proof, msg: seq<Byte>): Option<seq<Byte>> {
    if HasSmallOrder(pk) then None
    else
      match StringToPoint(pk)
      case None => None
      case Some(y) =>
        match ProofParts(pi)
        case None => None
        case Some(parts) =>
          if Recomputed(e, y, HashPoint(y, msg), parts) == parts.c then Some(OutputOf(parts.gamma)) else None
  }

  lemma AcceptedIsOnCurve(s: String32)
    requires StringToPoint(s).Some?
    ensures OnCurve(StringToPoint(s).value)
  {
    hide OnCurve, FromBytes, Canonical;
    AcceptedPoint(s);
    DecodedOnCurve(s);
  }

  lemma PartsAreOnCurve(pi: Proof)
    requires ProofParts(pi).Some?
    ensures OnCurve(ProofParts(pi).value.gamma)
  {
    hide OnCurve, StringToPoint;
    AcceptedIsOnCurve(pi[..32]);
  }

  /** `multiply_by_cofactor`: three doublings, each an addition of a point to itself. */
  method TimesCofactor(q: P3, ghost p: Point) returns (r: P3)
    requires Fermat() && OnCurve(p) && OfP3(q, p)
    ensures OfP3(r, Times(CURVE, 8, p))
  {
    hide Fermat, Lawful, OnCurve, Times, OfP3;
    CurveIsLawful();
    TimesOne(CURVE, p);
    Twice(CURVE, 1, p);
    Twice(CURVE, 2, p);
    Twice(CURVE, 4, p);
    r := AddP3(q, q, p, p);
    r := AddP3(r, r, Times(CURVE, 2, p), Times(CURVE, 2, p));
    r := AddP3(r, r, Times(CURVE, 4, p), Times(CURVE, 4, p));
  }

  /** `crypto_vrf_ietfdraft03_proof_to_hash` */
  method ProofToHash(beta: array<Byte>, pi: Proof) returns (ok: bool)
    requires Fermat() && beta.Length == 64
    modifies beta
    ensures ok <==> ProofParts(pi).Some?
    ensures ok ==> beta[..] == OutputOf(ProofParts(pi).value.gamma)
    ensures !ok ==> beta[..] == old(beta[..])
  {
    hide Fermat, OnCurve, Times, ToBytes, Sha512, ProofParts, OfP3;
    var c, s := new Byte[16](_ => 0), new Byte[32](_ => 0);
    var gamma;
    ok, gamma := DecodeProof(c, s, pi);
    if ok {
      PartsAreOnCurve(pi);
      ghost var p := ProofParts(pi).value.gamma;
      var q := TimesCofactor(gamma, p);
      var input := new Byte[2 + 32](_ => 0);
      input[0] := SUITE;
      input[1] := THREE;
      assert input[..2] == [SUITE, THREE];
      var qString := P3ToBytes(q, Times(CURVE, 8, p));
      Write(input, 2, qString);
      assert input[..] == OutputInput(Times(CURVE, 8, p));
      HashMessage(beta, input[..]);
    }
  }

  /** U = s B - c Y or V = s H - c Gamma. */
  method Difference(sP: P3, cQ: P3, ghost m: nat, ghost p: Point, ghost n: nat, ghost q: Point) returns (r: P3)
    requires Fermat() && OnCurve(p) && OnCurve(q)
    requires OfP3(sP, Times(CURVE, m, p)) && OfP3(cQ, Times(CURVE, n, q))
    ensures OfP3(r, Less(CURVE, m, p, n, q))
  {
    hide Fermat, OnCurve, Times, Inverse, OfP3;
    MultipleOnCurve(m, p);
    MultipleOnCurve(n, q);
    r := SubP3(sP, cQ, Times(CURVE, m, p), Times(CURVE, n, q));
  }

  /** The scalars of a proof, as the multiplications take them. */
  method ProofScalars(pi: Proof) returns (ok: bool, gamma: P3, c: String32, s: String32)
    ensures ok <==> ProofParts(pi).Some?
    ensures ok ==> var parts := ProofParts(pi).value;
      && OfP3(gamma, parts.gamma) && c == Widened(parts.c) && s == Scalar(LittleEndian(parts.s))
  {
    hide StringToPoint, LittleEndian, Scalar, OfP3;
    var cScalar, sScalar := new Byte[32](_ => 0), new Byte[64](_ => 0);
    ok, gamma := DecodeProof(cScalar, sScalar, pi);
    c, s := seq(32, _ => 0), seq(32, _ => 0);
    if ok {
      ghost var parts := ProofParts(pi).value;
      forall i | 16 <= i < 32 { cScalar[i] := 0; }
      forall i | 32 <= i < 64 { sScalar[i] := 0; }
      c := cScalar[..];
      assert c == Widened(parts.c);
      WidenedResponse(parts.s, sScalar[..]);
      s := Scalar(LittleEndian(sScalar[..]));
    }
  }

  lemma WidenedResponse(s: seq<Byte>, wide: seq<Byte>)
    requires |s| == 32 && |wide| == 64 && wide[..32] == s && forall i :: 32 <= i < 64 ==> wide[i] == 0
    ensures LittleEndian(wide) == LittleEndian(s)
  {
    hide LittleEndian, Pow2;
    assert wide == s + seq(32, _ => 0);
    LittleEndianAppend(s, seq(32, _ => 0));
    ZeroValue(32);
    assert Pow2(8 * 32) * 0 == 0;
  }

  /** `vrf_verify`: 0 when the challenge is right. */
  method VerifyWith(e: Base, q: P3, ghost y: Point, pi: Proof, msg: seq<Byte>) returns (r: int)
    requires Sound(e) && OnCurve(y) && OfP3(q, y) && |msg| < 0x1_0000_0000_0000_0000
    ensures r == 0 <==> (ProofParts(pi).Some?
      && Recomputed(e, y, HashPoint(y, msg), ProofParts(pi).value) == ProofParts(pi).value.c)
  {
    hide Sound, OnCurve, OfP3, ProofParts, Recomputed, HashPoint, Scalar, LittleEndian;
    var ok, gamma, c, s := ProofScalars(pi);
    if !ok {
      return -1;
    }
    PartsAreOnCurve(pi);
    r := CheckChallenge(e, q, y, ProofParts(pi).value, msg, c, s, gamma);
  }

  /** The points of a proof and their hash. */
  method CheckChallenge(e: Base, q: P3, ghost y: Point, ghost parts: Parts, msg: seq<Byte>, c: String32, s: String32,
                        gamma: P3)
    returns (r: int)
    requires Sound(e) && OnCurve(y) && OfP3(q, y) && OnCurve(parts.gamma) && |msg| < 0x1_0000_0000_0000_0000
    requires |parts.c| == 16 && OfP3(gamma, parts.gamma) && c == Widened(parts.c) && s == Scalar(LittleEndian(parts.s))
    ensures r == 0 <==> Recomputed(e, y, HashPoint(y, msg), parts) == parts.c
  {
    hide Sound, Fermat, OnCurve, Times, Less, LittleEndian, HashedToCurve, FromBytes, BaseTables, Scalar, HashOfPoints,
      OfP3;
    SoundBase(e);
    HashPointSound(e, y, msg);
    WidenedValue(parts.c);
    ScalarValue(LittleEndian(parts.s));
    ghost var h, cN, sN := HashPoint(y, msg), LittleEndian(parts.c), LittleEndian(parts.s) % L;
    var hString := HashToCurve(q, y, msg);
    var decoded, hPoint := P3FromBytes(hString);
    var cY := Multiply(c, q, y);
    var sB := MultiplyBase(e.tables, s, e.point);
    var u := Difference(sB, cY, sN, e.point, cN, y);
    var cGamma := Multiply(c, gamma, parts.gamma);
    var sH := Multiply(s, hPoint, h);
    var v := Difference(sH, cGamma, sN, h, cN, parts.gamma);
    var cprime := new Byte[16](_ => 0);
    HashPoints(cprime, hPoint, gamma, u, v, h, parts.gamma,
               Less(CURVE, sN, e.point, cN, y), Less(CURVE, sN, h, cN, parts.gamma));
    r := Verify16(c, cprime[..]);
    assert c[..16] == parts.c && cprime[..][..16] == cprime[..];
  }

  /** `vrf_validate_key` */
  method ValidateKey(pk: String32) returns (ok: bool, y: P3)
    ensures ok <==> ValidKey(pk)
    ensures ok ==> OfP3(y, StringToPoint(pk).value)
  {
    hide HasSmallOrder, StringToPoint, OfP3;
    var small := CheckSmallOrder(pk);
    if small != 0 {
      return false, P3(0, 0, 0, 0);
    }
    ok, y := P3FromString(pk);
  }

  /** `crypto_vrf_ietfdraft03_verify`; `output` is written only when the proof verifies. */
  method Verify(e: Base, output: array<Byte>, pk: String32, pi: Proof, msg: seq<Byte>) returns (ok: bool)
    requires Sound(e) && output.Length == 64 && |msg| < 0x1_0000_0000_0000_0000
    modifies output
    ensures ok <==> Verified(e, pk, pi, msg).Some?
    ensures ok ==> output[..] == Verified(e, pk, pi, msg).value
    ensures !ok ==> output[..] == old(output[..])
  {
    hide Sound, Fermat, Lawful, CurveOrder, BaseTables, HasSmallOrder, StringToPoint, ProofParts, Recomputed, OutputOf,
      HashPoint, OnCurve, OfP3;
    var valid, y := ValidateKey(pk);
    if !valid {
      return false;
    }
    AcceptedIsOnCurve(pk);
    SoundBase(e);
    var r := VerifyWith(e, y, StringToPoint(pk).value, pi, msg);
    if r != 0 {
      return false;
    }
    ok := ProofToHash(output, pi);
  }

  // ---------------------------------------------------------------- completeness

  lemma IdentityInverse()
    ensures Inverse(IDENTITY) == IDENTITY
  {
    NegFlips(0);
  }

  lemma {:induction false} TimesOfIdentity(g: Group, n: int)
    requires Lawful(g)
    ensures Times(g, n, IDENTITY) == IDENTITY
    decreases if n < 0 then -n else n
  {
    hide Inverse;
    IdentityInverse();
    assert g.member(IDENTITY);
    if n > 0 {
      TimesOfIdentity(g, n - 1);
      Neutral(g, IDENTITY);
    } else if n < 0 {
      TimesOfIdentity(g, n + 1);
      Neutral(g, IDENTITY);
    }
  }

  /** Multiples that are a multiple of `L` apart are equal where `L` times the point is zero. */
  lemma TimesModulo(g: Group, q: Point, n: int, t: int)
    requires Lawful(g) && g.member(q) && Times(g, L, q) == IDENTITY
    ensures Times(g, n + t * L, q) == Times(g, n, q)
  {
    hide Lawful, Times;
    TimesAdd(g, n, t * L, q);
    TimesTimes(g, t, L, q);
    TimesOfIdentity(g, t);
    TimesMember(g, n, q);
    Neutral(g, Times(g, n, q));
  }

  /** The equation behind a proof: s Q - c (x Q) = k Q for every s that is congruent to c x + k. */
  lemma KeyEquation(g: Group, q: Point, c: nat, x: nat, k: nat, s: nat, t: int)
    requires Lawful(g) && g.member(q) && Times(g, L, q) == IDENTITY
    requires c * x + k == L * t + s
    ensures Less(g, s, q, c, Times(g, x, q)) == Times(g, k, q)
  {
    hide Lawful, Times, Inverse;
    var z := c * x;
    TimesTimes(g, c, x, q);
    TimesNegative(g, z, q);
    TimesAdd(g, s, 0 - z, q);
    assert s - z == k + (-t) * L;
    TimesModulo(g, q, k, -t);
  }

  lemma JoinedParts(gamma: Point, c: seq<Byte>, s: String32)
    requires |c| == 16 && StringToPoint(ToBytes(gamma)) == Some(gamma)
    ensures ProofParts(JoinProof(ToBytes(gamma), c, s)) == Some(Parts(gamma, c, s))
  {
    hide StringToPoint, ToBytes;
    var pi := JoinProof(ToBytes(gamma), c, s);
    assert pi[..32] == ToBytes(gamma) && pi[32..48] == c && pi[48..80] == s;
  }

  /** The challenge that a verifier computes from an honest proof is the one in the proof. */
  lemma HonestChallenge(e: Base, x: nat, k: nat, h: Point)
    requires Sound(e) && OnCurve(h) && Times(CURVE, L, h) == IDENTITY
    ensures
      var y := Times(CURVE, x, e.point);
      var parts := ProofParts(ProofFrom(e, x, k, h));
      && parts.Some? && parts.value.gamma == Times(CURVE, x, h)
      && Recomputed(e, y, h, parts.value) == parts.value.c
  {
    hide Sound, Fermat, OnCurve, CurveOrder, BaseTables, Lawful, Times, Less, ToBytes, StringToPoint, HashOfPoints,
      ProofParts, LittleEndian, Scalar, JoinProof;
    var g := CURVE;
    SoundBase(e);
    var gamma := Times(g, x, h);
    TimesMember(g, x, h);
    RoundTrip(gamma);
    var c := Challenge(e, h, gamma, k);
    var s := Response(c, x, k);
    JoinedParts(gamma, c, s);
    var n := LittleEndian(c) * x + k;
    ScalarValue(n);
    RemainderTwice(n);
    Division(n, L);
    KeyEquation(g, e.point, LittleEndian(c), x, k, n % L, n / L);
    KeyEquation(g, h, LittleEndian(c), x, k, n % L, n / L);
  }

  lemma RemainderTwice(n: nat)
    ensures n % L % L == n % L
  {}

  ghost function SecretKey(e: Base, seed: String32): String64 { seed + PublicKey(e, seed) }

  /** The hash that a proof stands for, if it decodes. */
  ghost function HashOf(pi: Proof): Option<seq<Byte>> {
    match ProofParts(pi)
    case None => None
    case Some(parts) => Some(OutputOf(parts.gamma))
  }

  lemma ExactOrder(e: Base, n: int)
    requires Sound(e) && n % L != 0
    ensures Times(CURVE, n, e.point) != IDENTITY
  {
    hide Sound, Times;
    Division(n, L);
    ReducedMultiple(e, n, n % L, n / L);
  }

  lemma ReducedMultiple(e: Base, n: int, s: int, t: int)
    requires Sound(e) && 0 < s < L && n == L * t + s
    ensures Times(CURVE, n, e.point) != IDENTITY
  {
    hide Sound, Lawful, Times, OnCurve, Fermat, CurveOrder, BaseTables;
    SoundBase(e);
    SmallMultiple(e, s);
    TimesModulo(CURVE, e.point, s, t);
  }

  lemma SmallMultiple(e: Base, n: int)
    requires Sound(e) && 0 < n < L
    ensures Times(CURVE, n, e.point) != IDENTITY
  {
    hide Times, OnCurve, Fermat, CurveOrder, BaseTables;
  }

  /** No key pair has a public key that is turned away. */
  lemma PublicKeyIsValid(e: Base, seed: String32)
    requires Sound(e)
    ensures !HasSmallOrder(PublicKey(e, seed))
    ensures StringToPoint(PublicKey(e, seed)) == Some(PublicPoint(e, seed))
  {
    hide Sound, Lawful, Edwards, Fermat, Times, ToBytes, FromBytes, LittleEndian, HasSmallOrder, Clamp, Sha512;
    var x := LittleEndian(SecretScalar(seed));
    var y := PublicPoint(e, seed);
    SoundBase(e);
    CurveIsEdwards();
    TimesMember(CURVE, x, e.point);
    RoundTrip(y);
    AcceptedPoint(ToBytes(y));
    ClampMeaning(Sha512(seed));
    NotMultiple(x);
    ExactOrder(e, 8 * x);
    TimesTimes(CURVE, 8, x, e.point);
    if HasSmallOrder(PublicKey(e, seed)) {
      ListedVanishes(CURVE, ToBytes(y));
    }
  }

  /** Every proof that is made with a key pair verifies under its public key, and gives the hash that the proof
      stands for. */
  lemma Completeness(e: Base, seed: String32, msg: seq<Byte>)
    requires Sound(e)
    ensures Proved(e, SecretKey(e, seed), msg).Some?
    ensures HashOf(Proved(e, SecretKey(e, seed), msg).value).Some?
    ensures Verified(e, PublicKey(e, seed), Proved(e, SecretKey(e, seed), msg).value, msg)
         == HashOf(Proved(e, SecretKey(e, seed), msg).value)
  {
    hide Sound, Lawful, Times, ToBytes, ProofParts, LittleEndian, HasSmallOrder, StringToPoint, Recomputed,
      OutputOf, HashPoint, SecretScalar, SecretNonce, ProofFrom;
    var y := PublicPoint(e, seed);
    var pk := PublicKey(e, seed);
    SoundBase(e);
    var x, k := LittleEndian(SecretScalar(seed)), SecretNonce(seed, y, msg);
    PublicKeyIsValid(e, seed);
    assert SecretKey(e, seed)[..32] == seed && SecretKey(e, seed)[32..] == pk;
    HashPointSound(e, y, msg);
    HonestChallenge(e, x, k, HashPoint(y, msg));
  }

  /** The hash that the proof of a message under a key pair stands for. */
  ghost function HonestHash(e: Base, seed: String32, msg: seq<Byte>): Option<seq<Byte>> {
    match Proved(e, SecretKey(e, seed), msg)
    case None => None
    case Some(pi) => HashOf(pi)
  }

  /** The three operations one after the other. */
  method ProveThenVerify(e: Base, seed: String32, msg: seq<Byte>, output: array<Byte>) returns (accepted: bool)
    requires Sound(e) && output.Length == 64 && |msg| < 0x1_0000_0000_0000_0000
    modifies output
    ensures accepted && Some(output[..]) == HonestHash(e, seed, msg)
  {
    hide Sound, HasSmallOrder, PublicKey, Proved, HashOf, Verified;
    var pk, sk := KeypairFromSeed(e, seed);
    Completeness(e, seed, msg);
    var ok, pi := Prove(e, sk, msg);
    accepted := Verify(e, output, pk, pi, msg);
  }
}
