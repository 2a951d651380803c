/** The constants of external/VRF_functions/fe_25_5/constants.h: their limbs have the values that the model computes
    with. */
module CurveConstants {
  import opened Field25519
  import opened PointDecoding
  import opened RingLaws
  import opened Elligator

  /** Ten signed limbs with 26 and 25 bits in turn, the lowest first. */
  function FromLimbs(l: seq<int>): int
    requires |l| == 10
  {
    l[0] + 0x4000000 * l[1] + 0x8000000000000 * l[2] + 0x20000000000000000000 * l[3]
    + 0x40000000000000000000000000 * l[4] + 0x100000000000000000000000000000000 * l[5]
    + 0x200000000000000000000000000000000000000 * l[6] + 0x800000000000000000000000000000000000000000000 * l[7]
    + 0x1000000000000000000000000000000000000000000000000000 * l[8]
    + 0x4000000000000000000000000000000000000000000000000000000000 * l[9]
  }

  const D_LIMBS := [-10913610, 13857413, -15372611, 6949391, 114729, -8787816, -6275908, -3247719, -18696448, -12055116]
  const D2_LIMBS := [-21827239, -5839606, -30745221, 13898782, 229458, 15978800, -12551817, -6495438, 29715968, 9444199]
  const SQRT_M1_LIMBS := [
    -32595792, -7943725, 9377950, 3500415, 12389472, -272473, -25146209, -2005654, 326686, 11406482]
  const A_LIMBS := [486662, 0, 0, 0, 0, 0, 0, 0, 0, 0]

  lemma LimbValues()
    ensures Rem(FromLimbs(D_LIMBS)) == D && Rem(FromLimbs(SQRT_M1_LIMBS)) == SQRT_M1
    ensures Rem(FromLimbs(D2_LIMBS)) == Dbl(D) && Rem(FromLimbs(A_LIMBS)) == A
  {
    hide Rem;
    RemBy(FromLimbs(D_LIMBS), -1, D);
    RemBy(FromLimbs(D2_LIMBS), 0, Dbl(D));
    RemBy(FromLimbs(SQRT_M1_LIMBS), 0, SQRT_M1);
    RemBy(FromLimbs(A_LIMBS), 0, A);
  }

  /** D = -121665 / 121666, as section 5.1 of RFC 8032 gives it. */
  lemma CurveConstant()
    ensures Mul(D, 121666) == Neg(121665)
  {
    hide Mul;
    MulBy(D, 121666, 77954, P - 121665);
  }
}
