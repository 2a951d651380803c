/** What a proof of the verifiable random function proves: a prover who can answer two challenges to one commitment
    has put x H into the proof, up to points that the cofactor removes, so that the hash is determined. */
module VrfSoundness {
  import opened Wrappers
  import Arithmetic
  import opened Bits
  import opened Bytes
  import opened WordCodec
  import opened PointCodec
  import opened PointDecoding
  import opened SquareRoots
  import opened CurveGroup
  import opened EdwardsClosure
  import opened EdwardsAssociative
  import opened PointMult
  import opened Rfc8032
  import opened Scalars
  import opened Vrf
  import opened VrfTranscript
  import opened VrfAcceptance

  /** Numbers that L does not divide have an inverse modulo L, as L is prime. */
  ghost predicate Invertible(d: int) { exists u: int, v: int :: Bezout(d, u, v) }

  predicate Bezout(d: int, u: int, v: int) { u * d + v * L == 1 }

  ghost predicate PrimeOrder() { forall d :: d % L != 0 ==> Invertible(d) }

  // ---------------------------------------------------------------- groups

  /** a - c = b - d gives a - b = c - d. */
  lemma Rearranged(g: Group, a: Point, c: Point, b: Point, d: Point)
    requires Lawful(g) && g.member(a) && g.member(b) && g.member(c) && g.member(d)
    requires g.add(a, Inverse(c)) == g.add(b, Inverse(d))
    ensures g.add(a, Inverse(b)) == g.add(c, Inverse(d))
  {
    hide Lawful, Inverse;
    Cancels(g, b);
    Cancels(g, d);
    AddCancels(g, a, c);
    var b', d' := Inverse(b), Inverse(d);
    // a = (b + d') + c
    Commutes(g, b, d');
    Associates(g, d', b, c);
    Commutes(g, b, c);
    Associates(g, d', c, b);
    // a = (d' + c) + b
    Commutes(g, d', c);
    var e := g.add(c, d');
    Associates(g, e, b, b');
    Neutral(g, e);
  }

  // ---------------------------------------------------------------- two answers

  lemma ScaledDifference(g: Group, m: int, n: int, p: Point)
    requires Lawful(g) && g.member(p)
    ensures Times(g, m - n, p) == g.add(Times(g, m, p), Inverse(Times(g, n, p)))
  {
    hide Lawful, Times, Inverse;
    TimesNegative(g, n, p);
    TimesAdd(g, m, -n, p);
  }

  /** s P - c Q = s' P - c' Q gives (s - s') P = (c - c') Q. */
  lemma TwoAnswers(g: Group, p: Point, q: Point, s: nat, c: nat, s': nat, c': nat)
    requires Lawful(g) && g.member(p) && g.member(q)
    requires Less(g, s, p, c, q) == Less(g, s', p, c', q)
    ensures Times(g, s - s', p) == Times(g, c - c', q)
  {
    hide Lawful, Times, Inverse;
    TimesMember(g, s, p);
    TimesMember(g, s', p);
    TimesMember(g, c, q);
    TimesMember(g, c', q);
    Rearranged(g, Times(g, s, p), Times(g, c, q), Times(g, s', p), Times(g, c', q));
    ScaledDifference(g, s, s', p);
    ScaledDifference(g, c, c', q);
  }

  /** Two answers to one commitment have the same difference. */
  lemma CommitmentCancels(u: Point, p: Point, q: Point, c: nat, s: nat, c': nat, s': nat)
    requires Fermat() && OnCurve(u) && OnCurve(p) && OnCurve(q)
    requires EdwardsAdd(u, Times(CURVE, c, q)) == Times(CURVE, s, p)
    requires EdwardsAdd(u, Times(CURVE, c', q)) == Times(CURVE, s', p)
    ensures Times(CURVE, s - s', p) == Times(CURVE, c - c', q)
  {
    hide Fermat, Lawful, OnCurve, Times, EdwardsAdd, Inverse;
    CurveIsLawful();
    MultipleOnCurve(s, p);
    MultipleOnCurve(s', p);
    MultipleOnCurve(c, q);
    MultipleOnCurve(c', q);
    DifferenceIs(CURVE, u, Times(CURVE, s, p), Times(CURVE, c, q));
    DifferenceIs(CURVE, u, Times(CURVE, s', p), Times(CURVE, c', q));
    TwoAnswers(CURVE, p, q, s, c, s', c');
  }

  /** The two answers determine the secret scalar modulo L. */
  lemma AnswersGiveScalar(e: Base, x: nat, u: Point, s: nat, c: nat, s': nat, c': nat) returns (t: int)
    requires Sound(e) && OnCurve(u)
    requires EdwardsAdd(u, Times(CURVE, c, Times(CURVE, x, e.point))) == Times(CURVE, s, e.point)
    requires EdwardsAdd(u, Times(CURVE, c', Times(CURVE, x, e.point))) == Times(CURVE, s', e.point)
    ensures s - s' == (c - c') * x + L * t
  {
    hide Sound, CurveOrder, BaseTables, Fermat, Lawful, Times, Inverse, OnCurve, EdwardsAdd;
    var b, d := e.point, c - c';
    SoundBase(e);
    MultipleOnCurve(x, b);
    CommitmentCancels(u, b, Times(CURVE, x, b), c, s, c', s');
    TimesTimes(CURVE, d, x, b);
    t := EqualMultiples(e, s - s', d * x);
  }

  /** Equal multiples of the base point differ by a multiple of L. */
  lemma EqualMultiples(e: Base, m: int, n: int) returns (t: int)
    requires Sound(e) && Times(CURVE, m, e.point) == Times(CURVE, n, e.point)
    ensures m == n + L * t
  {
    hide Sound, CurveOrder, BaseTables, Fermat, Lawful, Times, Inverse, OnCurve;
    SoundBase(e);
    ScaledDifference(CURVE, m, n, e.point);
    MultipleOnCurve(n, e.point);
    Cancels(CURVE, Times(CURVE, n, e.point));
    if (m - n) % L != 0 {
      ExactOrder(e, m - n);
    }
    Division(m - n, L);
    t := (m - n) / L;
  }

  lemma EightTimes(g: Group, p: Point, d: int, u: int, v: int)
    requires Lawful(g) && g.member(p) && u * d + v * L == 1 && Times(g, 8 * L, p) == IDENTITY
    ensures Times(g, 8, p) == Times(g, 8 * u, Times(g, d, p))
  {
    hide Lawful, Times;
    EightParts(d, u, v);
    TimesAdd(g, 8 * u * d, v * (8 * L), p);
    TimesTimes(g, v, 8 * L, p);
    TimesOfIdentity(g, v);
    TimesTimes(g, 8 * u, d, p);
    TimesMember(g, 8 * u * d, p);
    Neutral(g, Times(g, 8 * u * d, p));
  }

  lemma EightParts(d: int, u: int, v: int)
    requires u * d + v * L == 1
    ensures 8 * u * d + v * (8 * L) == 8
  {
    Arithmetic.Associates(8, u, d);
    Arithmetic.Associates(v, 8, L);
    Arithmetic.Associates(8, v, L);
  }

  lemma PrimeInverts(d: int)
    requires PrimeOrder() && d % L != 0
    ensures Invertible(d)
  {
    hide Invertible;
  }

  /** A point that a prover can answer two challenges for is a multiple of the other one, up to the cofactor: from
      (s - s') P = d Q follows 8 Q = 8 x P, with the same x for every P that L annihilates. */
  lemma EightOfAnswer(g: Group, p: Point, q: Point, r: int, d: int, u: int, v: int)
    requires Lawful(g) && g.member(p) && g.member(q) && Times(g, L, p) == IDENTITY && Times(g, 8 * L, q) == IDENTITY
    requires Times(g, r, p) == Times(g, d, q) && Bezout(d, u, v)
    ensures Times(g, 8, q) == Times(g, 8, Times(g, u * r % L, p))
  {
    hide Lawful, Times;
    Division(u * r, L);
    EightTimes(g, q, d, u, v);
    EightReduced(g, p, u, r, u * r % L, u * r / L);
  }

  lemma EightReduced(g: Group, p: Point, u: int, r: int, n: int, t: int)
    requires Lawful(g) && g.member(p) && Times(g, L, p) == IDENTITY && u * r == L * t + n
    ensures Times(g, 8 * u, Times(g, r, p)) == Times(g, 8, Times(g, n, p))
  {
    hide Lawful, Times;
    TimesTimes(g, 8 * u, r, p);
    TimesTimes(g, 8, n, p);
    EightScaled(u, r, n, t);
    TimesModulo(g, p, 8 * n, 8 * t);
  }

  lemma EightScaled(u: int, r: int, n: int, t: int)
    requires u * r == L * t + n
    ensures 8 * u * r == 8 * n + 8 * t * L
  {
    Arithmetic.Associates(8, u, r);
    Arithmetic.Distributes(8, L * t, n);
    Arithmetic.Associates(8, t, L);
  }

  lemma PrimeInverse(d: int) returns (u: int, v: int)
    requires PrimeOrder() && d % L != 0
    ensures Bezout(d, u, v)
  {
    hide Bezout;
    PrimeInverts(d);
    u, v :| Bezout(d, u, v);
  }

  /** Two answers to one commitment with different challenges give an x with 8 Y = 8 x B and 8 Gamma = 8 x H, whatever
      point of the curve the key Y is. */
  lemma SpecialSoundness(e: Base, y: Point, h: Point, gamma: Point, u: Point, v: Point,
                         c: nat, s: nat, c': nat, s': nat)
    returns (x: nat)
    requires Sound(e) && PrimeOrder() && OnCurve(y) && OnCurve(gamma)
    requires OnCurve(h) && Times(CURVE, L, h) == IDENTITY
    requires Answers(e, y, h, gamma, u, v, c, s) && Answers(e, y, h, gamma, u, v, c', s')
    requires (c - c') % L != 0
    ensures FitsWith(e, y, h, gamma, x)
  {
    hide Sound, CurveOrder, BaseTables, PrimeOrder, OnCurve, Lawful, Times, Bezout, EdwardsAdd, Fermat;
    var b, r, d := e.point, s - s', c - c';
    SoundBase(e);
    var a, a' := PrimeInverse(d);
    OrderOf(y);
    OrderOf(gamma);
    CommitmentCancels(u, b, y, c, s, c', s');
    CommitmentCancels(v, h, gamma, c, s, c', s');
    EightOfAnswer(CURVE, b, y, r, d, a, a');
    EightOfAnswer(CURVE, h, gamma, r, d, a, a');
    x := a * r % L;
  }

  // ---------------------------------------------------------------- one hash

  /** A scalar that fits a key is determined modulo L. */
  lemma ScalarIsDetermined(e: Base, x1: nat, x2: nat) returns (t: int)
    requires Sound(e)
    requires Times(CURVE, 8, Times(CURVE, x1, e.point)) == Times(CURVE, 8, Times(CURVE, x2, e.point))
    ensures 8 * x1 - 8 * x2 == L * t
  {
    hide Sound, CurveOrder, BaseTables, Fermat, Lawful, Times, OnCurve;
    SoundBase(e);
    TimesTimes(CURVE, 8, x1, e.point);
    TimesTimes(CURVE, 8, x2, e.point);
    t := EqualMultiples(e, 8 * x1, 8 * x2);
  }

  /** `gamma` is what a proof of the key `y` for the point `h` should hold, up to the cofactor. */
  ghost predicate Fits(e: Base, y: Point, h: Point, gamma: Point) { exists x: nat :: FitsWith(e, y, h, gamma, x) }

  ghost predicate FitsWith(e: Base, y: Point, h: Point, gamma: Point, x: nat) {
    && Times(CURVE, 8, y) == Times(CURVE, 8, Times(CURVE, x, e.point))
    && Times(CURVE, 8, gamma) == Times(CURVE, 8, Times(CURVE, x, h))
  }

  /** One key and one message have one hash, whatever the proofs and their commitments. */
  lemma UniqueHash(e: Base, y: Point, h: Point, gamma: Point, gamma': Point)
    requires Sound(e) && OnCurve(h) && Times(CURVE, L, h) == IDENTITY
    requires Fits(e, y, h, gamma) && Fits(e, y, h, gamma')
    ensures OutputOf(gamma) == OutputOf(gamma')
  {
    hide Sound, FitsWith, OutputOf, Times;
    var x1: nat :| FitsWith(e, y, h, gamma, x1);
    var x2: nat :| FitsWith(e, y, h, gamma', x2);
    UniqueHashWith(e, y, h, gamma, gamma', x1, x2);
  }

  lemma UniqueHashWith(e: Base, y: Point, h: Point, gamma: Point, gamma': Point, x1: nat, x2: nat)
    requires Sound(e) && OnCurve(h) && Times(CURVE, L, h) == IDENTITY
    requires FitsWith(e, y, h, gamma, x1) && FitsWith(e, y, h, gamma', x2)
    ensures OutputOf(gamma) == OutputOf(gamma')
  {
    hide Sound, Lawful, Times, OutputOf;
    var g := CURVE;
    SoundBase(e);
    var t := ScalarIsDetermined(e, x1, x2);
    TimesTimes(g, 8, x1, h);
    TimesTimes(g, 8, x2, h);
    TimesModulo(g, h, 8 * x2, t);
    assert 8 * x1 == 8 * x2 + t * L;
    SameOutput(e, gamma, gamma');
  }

  lemma SameOutput(e: Base, gamma: Point, gamma': Point)
    requires Times(CURVE, 8, gamma) == Times(CURVE, 8, gamma')
    ensures OutputOf(gamma) == OutputOf(gamma')
  {
    hide Times;
  }

  /** For the key of a secret scalar x the hash is that of x H. */
  lemma HashIsDetermined(e: Base, x: nat, h: Point, gamma: Point, u: Point, v: Point, c: nat, s: nat, c': nat, s': nat)
    requires Sound(e) && PrimeOrder() && OnCurve(gamma) && OnCurve(h) && Times(CURVE, L, h) == IDENTITY
    requires var y := Times(CURVE, x, e.point);
      Answers(e, y, h, gamma, u, v, c, s) && Answers(e, y, h, gamma, u, v, c', s')
    requires (c - c') % L != 0
    ensures OutputOf(gamma) == OutputOf(Times(CURVE, x, h))
  {
    hide Sound, CurveOrder, BaseTables, PrimeOrder, OnCurve, Fermat, Lawful, Times, Answers, OutputOf;
    var y, honest := Times(CURVE, x, e.point), Times(CURVE, x, h);
    SoundBase(e);
    MultipleOnCurve(x, e.point);
    var x' := SpecialSoundness(e, y, h, gamma, u, v, c, s, c', s');
    assert FitsWith(e, y, h, honest, x);
    UniqueHashWith(e, y, h, gamma, honest, x', x);
  }

  // ---------------------------------------------------------------- accepted proofs

  /** `pi` answers the challenge of its commitment, and `s` answers the challenge `c` to the same commitment. */
  ghost predicate AnswersToo(e: Base, pk: String32, pi: Proof, msg: seq<Byte>, c: seq<Byte>, s: nat) {
    match (StringToPoint(pk), StringToPoint(pi[..32]))
    case (Some(y), Some(gamma)) => AnswersBoth(e, y, HashPoint(y, msg), gamma, pi, c, s)
    case _ => false
  }

  ghost predicate AnswersBoth(e: Base, y: Point, h: Point, gamma: Point, pi: Proof, c: seq<Byte>, s: nat) {
    exists u, v :: AnswersItself(e, y, h, gamma, u, v, pi) && Answers(e, y, h, gamma, u, v, LittleEndian(c), s)
  }

  /** The point of `pi` is what it should be for the key and the message, up to the cofactor. */
  ghost predicate FitsKey(e: Base, pk: String32, pi: Proof, msg: seq<Byte>) {
    match (StringToPoint(pk), StringToPoint(pi[..32]))
    case (Some(y), Some(gamma)) => Fits(e, y, HashPoint(y, msg), gamma)
    case _ => false
  }

  /** Different strings of sixteen bytes are different modulo L. */
  lemma ChallengesDiffer(c: seq<Byte>, c': seq<Byte>)
    requires |c| == 16 && |c'| == 16 && c != c'
    ensures (LittleEndian(c) - LittleEndian(c')) % L != 0
  {
    hide LittleEndian, Pow2;
    LittleEndianBound(c);
    LittleEndianBound(c');
    OrderIs();
    Pow2Monotonic(8 * 16, 252);
    var d := LittleEndian(c) - LittleEndian(c');
    if d == 0 {
      LittleEndianInjective(c, c');
    }
    SmallDifference(d);
  }

  lemma SmallDifference(d: int)
    requires 0 - L < d < L && d != 0
    ensures d % L != 0
  {}

  lemma BothFit(e: Base, y: Point, h: Point, gamma: Point, pi: Proof, c: seq<Byte>, s: nat)
    requires Sound(e) && PrimeOrder() && OnCurve(y) && OnCurve(gamma) && OnCurve(h) && Times(CURVE, L, h) == IDENTITY
    requires |c| == 16 && c != pi[32..48] && AnswersBoth(e, y, h, gamma, pi, c, s)
    ensures Fits(e, y, h, gamma)
  {
    hide Sound, PrimeOrder, OnCurve, LittleEndian, Times, Answers, FitsWith, HashOfPoints;
    var u, v :| AnswersItself(e, y, h, gamma, u, v, pi) && Answers(e, y, h, gamma, u, v, LittleEndian(c), s);
    ChallengesDiffer(pi[32..48], c);
    var c', s' := LittleEndian(pi[32..48]), LittleEndian(pi[48..80]);
    var x := SpecialSoundness(e, y, h, gamma, u, v, c', s', LittleEndian(c), s);
    assert FitsWith(e, y, h, gamma, x);
  }

  /** A proof and another answer to its commitment: its point is x H up to the cofactor, for an x that fits the key. */
  lemma AcceptedSoundness(e: Base, pk: String32, pi: Proof, msg: seq<Byte>, c: seq<Byte>, s: nat)
    requires Sound(e) && PrimeOrder()
    requires |c| == 16 && c != pi[32..48] && AnswersToo(e, pk, pi, msg, c, s)
    ensures FitsKey(e, pk, pi, msg)
  {
    hide Sound, PrimeOrder, OnCurve, StringToPoint, HashPoint, Times, AnswersBoth, Fits;
    var y, gamma := StringToPoint(pk).value, StringToPoint(pi[..32]).value;
    AcceptedIsOnCurve(pk);
    AcceptedIsOnCurve(pi[..32]);
    HashPointSound(e, y, msg);
    BothFit(e, y, HashPoint(y, msg), gamma, pi, c, s);
  }

  /** The other way round: when the point of a proof does not fit the key, no second challenge to its commitment can be
      answered, so it verifies only if the commitment hashes to the one challenge that can. */
  lemma MisfitHasOneChallenge(e: Base, pk: String32, pi: Proof, msg: seq<Byte>, c: seq<Byte>, s: nat)
    requires Sound(e) && PrimeOrder() && !FitsKey(e, pk, pi, msg)
    requires |c| == 16 && AnswersToo(e, pk, pi, msg, c, s)
    ensures c == pi[32..48]
  {
    hide Sound, PrimeOrder, AnswersToo, FitsKey;
    if c != pi[32..48] {
      AcceptedSoundness(e, pk, pi, msg, c, s);
    }
  }

  lemma AnswersAreAccepted(e: Base, pk: String32, pi: Proof, msg: seq<Byte>, c: seq<Byte>, s: nat)
    requires ValidKey(pk) && AnswersToo(e, pk, pi, msg, c, s)
    ensures Accepts(e, pk, pi, msg)
  {
    hide ValidKey, StringToPoint, HashPoint, AnswersItself, Answers, LittleEndian;
    ValidIsAccepted(pk);
  }

  /** Two accepted proofs for one key and one message, each with another answer to its commitment, verify with the same
      hash. */
  lemma OneHashPerKey(e: Base, pk: String32, msg: seq<Byte>, pi: Proof, c: seq<Byte>, s: nat,
                      pi': Proof, c': seq<Byte>, s': nat)
    requires Sound(e) && PrimeOrder() && ValidKey(pk)
    requires |c| == 16 && c != pi[32..48] && AnswersToo(e, pk, pi, msg, c, s)
    requires |c'| == 16 && c' != pi'[32..48] && AnswersToo(e, pk, pi', msg, c', s')
    ensures Verified(e, pk, pi, msg) == Verified(e, pk, pi', msg) && Verified(e, pk, pi, msg).Some?
  {
    hide Sound, PrimeOrder, OnCurve, ValidKey, StringToPoint, HashPoint, AnswersToo, Times, Fits, OutputOf, HashOf,
      Verified, Accepts;
    AcceptedSoundness(e, pk, pi, msg, c, s);
    AcceptedSoundness(e, pk, pi', msg, c', s');
    AnswersAreAccepted(e, pk, pi, msg, c, s);
    AnswersAreAccepted(e, pk, pi', msg, c', s');
    VerifiedExactly(e, pk, pi, msg);
    VerifiedExactly(e, pk, pi', msg);
    HashOfPoint(pi);
    HashOfPoint(pi');
    var y := StringToPoint(pk).value;
    HashPointSound(e, y, msg);
    UniqueHash(e, y, HashPoint(y, msg), StringToPoint(pi[..32]).value, StringToPoint(pi'[..32]).value);
  }
}
