/** What it means that external/VRF_functions/verify.cpp accepts a proof: the equations of the protocol, without the
    steps of the verifier. */
module VrfAcceptance {
  import opened Wrappers
  import opened Bits
  import opened Bytes
  import opened Sha512Spec
  import opened PointCodec
  import opened PointDecoding
  import opened SquareRoots
  import opened PointRoundTrip
  import opened CurveGroup
  import opened EdwardsLaw
  import opened EdwardsClosure
  import opened EdwardsAssociative
  import opened PointMult
  import opened FromUniform
  import opened SmallOrder
  import opened SmallOrderPoints
  import opened Rfc8032
  import opened Scalars
  import opened VrfTranscript
  import opened Vrf

  /** s answers the challenge c to the commitment u, v: u + c Y = s B and v + c Gamma = s H. */
  ghost predicate Answers(e: Base, y: Point, h: Point, gamma: Point, u: Point, v: Point, c: nat, s: nat) {
    && OnCurve(u) && EdwardsAdd(u, Times(CURVE, c, y)) == Times(CURVE, s, e.point)
    && OnCurve(v) && EdwardsAdd(v, Times(CURVE, c, gamma)) == Times(CURVE, s, h)
  }

  /** The proof answers the challenge that its commitment hashes to. */
  ghost predicate AnswersItself(e: Base, y: Point, h: Point, gamma: Point, u: Point, v: Point, pi: Proof) {
    && pi[32..48] == HashOfPoints(h, gamma, u, v)
    && Answers(e, y, h, gamma, u, v, LittleEndian(pi[32..48]), LittleEndian(pi[48..80]))
  }

  // ---------------------------------------------------------------- keys

  /** A key is valid if and only if it decodes to a point that does not vanish times 8. */
  lemma ValidKeyExactly(pk: String32)
    requires Fermat()
    ensures ValidKey(pk) <==> StringToPoint(pk).Some? && Times(CURVE, 8, StringToPoint(pk).value) != IDENTITY
  {
    hide Fermat, Lawful, Edwards, Times, FromBytes, HasSmallOrder, Canonical;
    if StringToPoint(pk).Some? {
      CurveIsEdwards();
      CurveIsLawful();
      AcceptedPoint(pk);
      SmallOrderExactly(CURVE, pk);
    }
  }

  // ---------------------------------------------------------------- the verifier's equations

  lemma ReducedTimes(q: Point, n: nat)
    requires Lawful(CURVE) && OnCurve(q) && Times(CURVE, L, q) == IDENTITY
    ensures Times(CURVE, n % L, q) == Times(CURVE, n, q)
  {
    hide Lawful, Times, OnCurve;
    Division(n, L);
    ReducedBy(q, n, n % L, n / L);
  }

  lemma ReducedBy(q: Point, n: int, r: int, t: int)
    requires Lawful(CURVE) && OnCurve(q) && Times(CURVE, L, q) == IDENTITY && n == L * t + r
    ensures Times(CURVE, r, q) == Times(CURVE, n, q)
  {
    hide Lawful, Times, OnCurve;
    TimesModulo(CURVE, q, r, t);
  }

  /** The point that the verifier computes is the one that solves the equation. */
  lemma Solves(p: Point, q: Point, u: Point, c: nat, s: nat)
    requires Fermat() && OnCurve(p) && OnCurve(q) && OnCurve(u) && Times(CURVE, L, p) == IDENTITY
    ensures u == Less(CURVE, s % L, p, c, q) <==> EdwardsAdd(u, Times(CURVE, c, q)) == Times(CURVE, s, p)
  {
    hide Fermat, Lawful, Times, OnCurve, EdwardsAdd, Inverse;
    CurveIsLawful();
    ReducedTimes(p, s);
    MultipleOnCurve(s, p);
    MultipleOnCurve(c, q);
    DifferenceIs(CURVE, u, Times(CURVE, s, p), Times(CURVE, c, q));
  }

  lemma LessOnCurve(p: Point, q: Point, m: nat, n: nat)
    requires Fermat() && OnCurve(p) && OnCurve(q)
    ensures OnCurve(Less(CURVE, m, p, n, q))
  {
    hide Fermat, Lawful, Times, OnCurve, EdwardsAdd, Inverse;
    CurveIsLawful();
    MultipleOnCurve(m, p);
    MultipleOnCurve(n, q);
    AddCancels(CURVE, Times(CURVE, m, p), Times(CURVE, n, q));
  }

  /** The recomputed challenge is right if and only if some commitment is answered. */
  lemma RecomputedExactly(e: Base, y: Point, h: Point, gamma: Point, pi: Proof)
    requires Sound(e) && OnCurve(y) && OnCurve(h) && OnCurve(gamma) && Times(CURVE, L, h) == IDENTITY
    ensures Recomputed(e, y, h, Parts(gamma, pi[32..48], pi[48..80])) == pi[32..48]
       <==> exists u, v :: AnswersItself(e, y, h, gamma, u, v, pi)
  {
    hide Sound, Fermat, Lawful, Times, OnCurve, EdwardsAdd, Less, HashOfPoints, LittleEndian, CurveOrder, BaseTables;
    SoundBase(e);
    var c, s := LittleEndian(pi[32..48]), LittleEndian(pi[48..80]);
    var u, v := Less(CURVE, s % L, e.point, c, y), Less(CURVE, s % L, h, c, gamma);
    LessOnCurve(e.point, y, s % L, c);
    LessOnCurve(h, gamma, s % L, c);
    Solves(e.point, y, u, c, s);
    Solves(h, gamma, v, c, s);
    if HashOfPoints(h, gamma, u, v) == pi[32..48] {
      assert AnswersItself(e, y, h, gamma, u, v, pi);
    }
    if u', v' :| AnswersItself(e, y, h, gamma, u', v', pi) {
      Solves(e.point, y, u', c, s);
      Solves(h, gamma, v', c, s);
    }
  }

  /** A proof is accepted if and only if the key is valid, its point decodes, and it answers the challenge that its
      commitment hashes to. */
  ghost predicate Accepts(e: Base, pk: String32, pi: Proof, msg: seq<Byte>) {
    && ValidKey(pk) && StringToPoint(pi[..32]).Some?
    && var y, gamma := StringToPoint(pk).value, StringToPoint(pi[..32]).value;
       exists u, v :: AnswersItself(e, y, HashPoint(y, msg), gamma, u, v, pi)
  }

  /** What the verifier answers, step by step. */
  lemma VerifiedIs(e: Base, pk: String32, pi: Proof, msg: seq<Byte>)
    requires ValidKey(pk) && StringToPoint(pi[..32]).Some?
    ensures var y, gamma := StringToPoint(pk).value, StringToPoint(pi[..32]).value;
      var right := Recomputed(e, y, HashPoint(y, msg), Parts(gamma, pi[32..48], pi[48..80])) == pi[32..48];
      Verified(e, pk, pi, msg) == if right then Some(OutputOf(gamma)) else None
  {
    hide StringToPoint, HasSmallOrder, HashPoint, Recomputed, OutputOf;
  }

  lemma RefusedKey(e: Base, pk: String32, pi: Proof, msg: seq<Byte>)
    requires !ValidKey(pk) || StringToPoint(pi[..32]).None?
    ensures Verified(e, pk, pi, msg) == None
  {
    hide StringToPoint, HasSmallOrder, HashPoint, Recomputed, OutputOf;
  }

  /** The hash that a proof stands for, byte by byte. */
  lemma HashOfIs(pi: Proof)
    requires StringToPoint(pi[..32]).Some?
    ensures HashOf(pi) == Some(Sha512([0x04, 0x03] + ToBytes(Times(CURVE, 8, StringToPoint(pi[..32]).value))))
  {
    hide StringToPoint, Times, ToBytes, Sha512;
  }

  lemma HashOfPoint(pi: Proof)
    requires StringToPoint(pi[..32]).Some?
    ensures HashOf(pi) == Some(OutputOf(StringToPoint(pi[..32]).value))
  {
    hide StringToPoint, OutputOf;
  }

  /** The verifier accepts exactly such proofs, and answers the hash that the proof stands for. */
  lemma VerifiedExactly(e: Base, pk: String32, pi: Proof, msg: seq<Byte>)
    requires Sound(e)
    ensures Verified(e, pk, pi, msg) == if Accepts(e, pk, pi, msg) then HashOf(pi) else None
  {
    hide Sound, ValidKey, StringToPoint, HashPoint, Recomputed, AnswersItself, OnCurve, Times, Verified, OutputOf,
      HashOf;
    if ValidKey(pk) && StringToPoint(pi[..32]).Some? {
      ValidIsAccepted(pk);
      var y, gamma := StringToPoint(pk).value, StringToPoint(pi[..32]).value;
      AcceptedIsOnCurve(pk);
      AcceptedIsOnCurve(pi[..32]);
      HashPointSound(e, y, msg);
      RecomputedExactly(e, y, HashPoint(y, msg), gamma, pi);
      VerifiedIs(e, pk, pi, msg);
      HashOfPoint(pi);
    } else {
      RefusedKey(e, pk, pi, msg);
    }
  }

  // ---------------------------------------------------------------- what an honest prover makes

  /** The string that a key and a message are hashed to encodes the hashed point. */
  lemma HashedIsEncoding(y: Point, msg: seq<Byte>)
    requires Fermat()
    ensures HashedToCurve(y, msg) == ToBytes(HashPoint(y, msg))
  {
    hide Fermat, Times, FromBytes, HashedToCurve, Sha512, ToBytes, UniformPoint;
    var r := Uniform(Sha512(CurveInput(y, msg)));
    HashedIs(y, msg);
    MappedDecodes(r);
    AcceptedPoint(Mapped(r));
  }

  /** The proof with the secret scalar x and the nonce k: x H, the hash of the commitment k B, k H, and the response. */
  lemma ProofFromParts(e: Base, x: nat, k: nat, h: Point)
    requires Fermat() && OnCurve(h)
    ensures var gamma := Times(CURVE, x, h);
      var c := HashOfPoints(h, gamma, Times(CURVE, k, e.point), Times(CURVE, k, h));
      ProofParts(ProofFrom(e, x, k, h)) == Some(Parts(gamma, c, Response(c, x, k)))
  {
    hide Fermat, OnCurve, Times, HashOfPoints, ToBytes, StringToPoint, Response, ProofParts;
    var gamma := Times(CURVE, x, h);
    MultipleOnCurve(x, h);
    RoundTrip(gamma);
    var c := Challenge(e, h, gamma, k);
    JoinedParts(gamma, c, Response(c, x, k));
  }

  /** The response is c x + k modulo L. */
  lemma ResponseValue(c: seq<Byte>, x: nat, k: nat)
    ensures LittleEndian(Response(c, x, k)) == (LittleEndian(c) * x + k) % L
  {
    hide LittleEndian, Scalar;
    ScalarValue(LittleEndian(c) * x + k);
  }

  /** The scalar and the nonce of an honest proof are those of the seed and the message. */
  lemma HonestProof(e: Base, seed: String32, msg: seq<Byte>)
    requires Sound(e)
    ensures var y := PublicPoint(e, seed); var h := HashPoint(y, msg);
      var x := LittleEndian(SecretScalar(seed));
      var k := LittleEndian(Sha512(SecretHalf(seed) + ToBytes(h))) % L;
      Proved(e, SecretKey(e, seed), msg) == Some(ProofFrom(e, x, k, h))
  {
    hide Sound, Fermat, OnCurve, CurveOrder, BaseTables, Lawful, Times, ToBytes, StringToPoint, Sha512, LittleEndian,
      HashPoint, HashedToCurve, SecretScalar, SecretHalf, ProofFrom, Nonce, HasSmallOrder;
    SoundBase(e);
    var y := PublicPoint(e, seed);
    PublicKeyIsValid(e, seed);
    assert SecretKey(e, seed)[..32] == seed && SecretKey(e, seed)[32..] == PublicKey(e, seed);
    HashedIsEncoding(y, msg);
    NonceValue(SecretHalf(seed), HashedToCurve(y, msg));
  }
}
