/** The constants of SHA-512 are those of FIPS 180-4: the round constants are the first 64 bits of the fractional parts
    of the cube roots of the first eighty primes (section 4.2.3), and the initial hash value those of the square roots
    of the first eight (section 5.3.5).  The functions of the rounds combine the bits that
    section 4.1.3 names, and the padding and the digest are as sections 5.1.2 and 6.4.2 describe them. */
module Sha512Constants {
  import opened Arithmetic
  import opened Bits
  import opened Bytes
  import opened WordCodec
  import opened Rotations
  import opened Sha512Spec

  // ---------------------------------------------------------------- primes

  predicate Divides(d: nat, n: nat)
    requires d > 0
  {
    n % d == 0
  }

  ghost predicate IsPrime(n: nat) { n >= 2 && forall d :: 2 <= d < n ==> !Divides(d, n) }

  /** The primes up to `n`, in order. */
  ghost function PrimesTo(n: nat): seq<nat> {
    if n < 2 then [] else if IsPrime(n) then PrimesTo(n - 1) + [n] else PrimesTo(n - 1)
  }

  /** No prime up to 19 divides `n`, except `n` itself. */
  predicate Undivided(n: nat) {
    && (n == 2 || n % 2 != 0) && (n == 3 || n % 3 != 0) && (n == 5 || n % 5 != 0) && (n == 7 || n % 7 != 0)
    && (n == 11 || n % 11 != 0) && (n == 13 || n % 13 != 0) && (n == 17 || n % 17 != 0) && (n == 19 || n % 19 != 0)
  }

  lemma Factors(n: nat, d: nat, q: nat)
    requires 2 <= d <= 20 && n == d * q && q > 1
    ensures !Undivided(n)
  {
    if d % 2 == 0 {
      MultipleOf(2, d / 2, q);
    } else if d % 3 == 0 {
      MultipleOf(3, d / 3, q);
    } else {
      assert d == 5 || d == 7 || d == 11 || d == 13 || d == 17 || d == 19;
      MultipleOf(d, 1, q);
    }
  }

  lemma MultipleOf(p: nat, a: nat, q: nat)
    requires p > 0 && a > 0 && q > 1
    ensures p * a * q % p == 0 && p * a * q > p
  {
    Associates(p, a, q);
    RemainderIs(p * a * q, p, a * q, 0);
    Monotonic(1, a, q);
    Monotonic(2, a * q, p);
  }

  /** Of two factors of a number below 441 one is at most 20. */
  lemma Composite(n: nat, d: nat)
    requires 2 <= d < n < 441 && Divides(d, n)
    ensures !Undivided(n)
  {
    hide Undivided;
    var q := n / d;
    Division(n, d);
    FactorIsSmall(d, q);
    if d <= 20 {
      Factors(n, d, q);
    } else {
      Factors(n, q, d);
    }
  }

  lemma FactorIsSmall(d: nat, q: nat)
    requires 2 <= d < d * q < 441
    ensures 2 <= q && (d <= 20 || q <= 20)
  {
    if d > 20 {
      Monotonic(21, d, q);
    }
  }

  /** Below 441, trial division tells the primes. */
  lemma TrialDivision(n: nat)
    requires 2 <= n < 441
    ensures IsPrime(n) <==> Undivided(n)
  {
    if Undivided(n) {
      if d :| 2 <= d < n && Divides(d, n) {
        Composite(n, d);
      }
    } else {
      assert Divides(2, n) || Divides(3, n) || Divides(5, n) || Divides(7, n) || Divides(11, n) || Divides(13, n)
        || Divides(17, n) || Divides(19, n);
    }
  }

  /** The first odd number above the odd number `n` that trial division leaves, or `m` if there is none below it. */
  function Next(n: nat, m: nat): nat
    decreases m - n
  {
    if n + 2 >= m then m else if Undivided(n + 2) then n + 2 else Next(n + 2, m)
  }

  lemma {:induction false} NextPrime(n: nat, m: nat)
    requires 3 <= n < m < 441 && n % 2 == 1 && m % 2 == 1 && Next(n, m) == m && Undivided(m)
    ensures PrimesTo(m) == PrimesTo(n) + [m]
    decreases m - n
  {
    hide IsPrime, Undivided;
    EvenIsComposite(n + 1);
    TrialDivision(n + 2);
    if n + 2 < m {
      NextPrime(n + 2, m);
    }
  }

  lemma EvenIsComposite(n: nat)
    requires n > 2 && n % 2 == 0
    ensures !IsPrime(n)
  {
    assert Divides(2, n);
  }

  lemma FirstPrimes()
    ensures PrimesTo(3) == [2, 3]
  {
    hide IsPrime;
    TrialDivision(2);
    TrialDivision(3);
    assert PrimesTo(2) == PrimesTo(1) + [2];
  }

  const P0: seq<nat> := [2, 3, 5, 7, 11, 13, 17, 19]
  const P1: seq<nat> := [23, 29, 31, 37, 41, 43, 47, 53]
  const P2: seq<nat> := [59, 61, 67, 71, 73, 79, 83, 89]
  const P3: seq<nat> := [97, 101, 103, 107, 109, 113, 127, 131]
  const P4: seq<nat> := [137, 139, 149, 151, 157, 163, 167, 173]
  const P5: seq<nat> := [179, 181, 191, 193, 197, 199, 211, 223]
  const P6: seq<nat> := [227, 229, 233, 239, 241, 251, 257, 263]
  const P7: seq<nat> := [269, 271, 277, 281, 283, 293, 307, 311]
  const P8: seq<nat> := [313, 317, 331, 337, 347, 349, 353, 359]
  const P9: seq<nat> := [367, 373, 379, 383, 389, 397, 401, 409]

  const PRIMES: seq<nat> := P0 + P1 + P2 + P3 + P4 + P5 + P6 + P7 + P8 + P9

  lemma Primes0()
    ensures |P0| == 8 && PrimesTo(19) == P0
  {
    hide PrimesTo;
    FirstPrimes();
    NextPrime(3, 5);
    NextPrime(5, 7);
    NextPrime(7, 11);
    NextPrime(11, 13);
    NextPrime(13, 17);
    NextPrime(17, 19);
  }

  lemma Primes1()
    ensures |P1| == 8 && PrimesTo(53) == PrimesTo(19) + P1
  {
    hide PrimesTo;
    NextPrime(19, 23);
    NextPrime(23, 29);
    NextPrime(29, 31);
    NextPrime(31, 37);
    NextPrime(37, 41);
    NextPrime(41, 43);
    NextPrime(43, 47);
    NextPrime(47, 53);
  }

  lemma Primes2()
    ensures |P2| == 8 && PrimesTo(89) == PrimesTo(53) + P2
  {
    hide PrimesTo;
    NextPrime(53, 59);
    NextPrime(59, 61);
    NextPrime(61, 67);
    NextPrime(67, 71);
    NextPrime(71, 73);
    NextPrime(73, 79);
    NextPrime(79, 83);
    NextPrime(83, 89);
  }

  lemma Primes3()
    ensures |P3| == 8 && PrimesTo(131) == PrimesTo(89) + P3
  {
    hide PrimesTo;
    NextPrime(89, 97);
    NextPrime(97, 101);
    NextPrime(101, 103);
    NextPrime(103, 107);
    NextPrime(107, 109);
    NextPrime(109, 113);
    NextPrime(113, 127);
    NextPrime(127, 131);
  }

  lemma Primes4()
    ensures |P4| == 8 && PrimesTo(173) == PrimesTo(131) + P4
  {
    hide PrimesTo;
    NextPrime(131, 137);
    NextPrime(137, 139);
    NextPrime(139, 149);
    NextPrime(149, 151);
    NextPrime(151, 157);
    NextPrime(157, 163);
    NextPrime(163, 167);
    NextPrime(167, 173);
  }

  lemma Primes5()
    ensures |P5| == 8 && PrimesTo(223) == PrimesTo(173) + P5
  {
    hide PrimesTo;
    NextPrime(173, 179);
    NextPrime(179, 181);
    NextPrime(181, 191);
    NextPrime(191, 193);
    NextPrime(193, 197);
    NextPrime(197, 199);
    NextPrime(199, 211);
    NextPrime(211, 223);
  }

  lemma Primes6()
    ensures |P6| == 8 && PrimesTo(263) == PrimesTo(223) + P6
  {
    hide PrimesTo;
    NextPrime(223, 227);
    NextPrime(227, 229);
    NextPrime(229, 233);
    NextPrime(233, 239);
    NextPrime(239, 241);
    NextPrime(241, 251);
    NextPrime(251, 257);
    NextPrime(257, 263);
  }

  lemma Primes7()
    ensures |P7| == 8 && PrimesTo(311) == PrimesTo(263) + P7
  {
    hide PrimesTo;
    NextPrime(263, 269);
    NextPrime(269, 271);
    NextPrime(271, 277);
    NextPrime(277, 281);
    NextPrime(281, 283);
    NextPrime(283, 293);
    NextPrime(293, 307);
    NextPrime(307, 311);
  }

  lemma Primes8()
    ensures |P8| == 8 && PrimesTo(359) == PrimesTo(311) + P8
  {
    hide PrimesTo;
    NextPrime(311, 313);
    NextPrime(313, 317);
    NextPrime(317, 331);
    NextPrime(331, 337);
    NextPrime(337, 347);
    NextPrime(347, 349);
    NextPrime(349, 353);
    NextPrime(353, 359);
  }

  lemma Primes9()
    ensures |P9| == 8 && PrimesTo(409) == PrimesTo(359) + P9
  {
    hide PrimesTo;
    NextPrime(359, 367);
    NextPrime(367, 373);
    NextPrime(373, 379);
    NextPrime(379, 383);
    NextPrime(383, 389);
    NextPrime(389, 397);
    NextPrime(397, 401);
    NextPrime(401, 409);
  }

  /** The list holds the first eighty primes, in order. */
  lemma PrimesAre()
    ensures |PRIMES| == 80 && PrimesTo(409) == PRIMES
  {
    hide PrimesTo, P0, P1, P2, P3, P4, P5, P6, P7, P8, P9;
    Primes0();
    Primes1();
    Primes2();
    Primes3();
    Primes4();
    Primes5();
    Primes6();
    Primes7();
    Primes8();
    Primes9();
  }

  // ---------------------------------------------------------------- roots

  const WORD: nat := 0x1_0000_0000_0000_0000

  function Square(x: nat): nat { x * x }

  function Cube(x: nat): nat { x * x * x }

  /** r is the square root of `p` rounded down, and k the first 64 bits of its fractional part. */
  predicate SquareFits(p: nat, k: Word64, r: nat) {
    Square(r) <= p < Square(r + 1) && Square(r * WORD + k) <= p * Square(WORD) < Square(r * WORD + k + 1)
  }

  ghost predicate OfSquareRoot(p: nat, k: Word64) { exists r: nat :: SquareFits(p, k, r) }

  /** The same for the cube root. */
  predicate CubeFits(p: nat, k: Word64, r: nat) {
    Cube(r) <= p < Cube(r + 1) && Cube(r * WORD + k) <= p * Cube(WORD) < Cube(r * WORD + k + 1)
  }

  ghost predicate OfCubeRoot(p: nat, k: Word64) { exists r: nat :: CubeFits(p, k, r) }

  ghost predicate AllOfCubeRoots(ps: seq<nat>, ks: seq<Word64>) {
    |ps| == |ks| && forall i :: 0 <= i < |ps| ==> OfCubeRoot(ps[i], ks[i])
  }

  lemma CubesJoin(ps: seq<nat>, ks: seq<Word64>, qs: seq<nat>, ls: seq<Word64>)
    requires AllOfCubeRoots(ps, ks) && AllOfCubeRoots(qs, ls)
    ensures AllOfCubeRoots(ps + qs, ks + ls)
  {
    hide OfCubeRoot;
  }

  lemma Cubes0()
    ensures AllOfCubeRoots(P0, K0)
  {
    assert CubeFits(2, 0x428a2f98d728ae22, 1);
    assert CubeFits(3, 0x7137449123ef65cd, 1);
    assert CubeFits(5, 0xb5c0fbcfec4d3b2f, 1);
    assert CubeFits(7, 0xe9b5dba58189dbbc, 1);
    assert CubeFits(11, 0x3956c25bf348b538, 2);
    assert CubeFits(13, 0x59f111f1b605d019, 2);
    assert CubeFits(17, 0x923f82a4af194f9b, 2);
    assert CubeFits(19, 0xab1c5ed5da6d8118, 2);
    hide CubeFits;
  }

  lemma Cubes1()
    ensures AllOfCubeRoots(P1, K1)
  {
    assert CubeFits(23, 0xd807aa98a3030242, 2);
    assert CubeFits(29, 0x12835b0145706fbe, 3);
    assert CubeFits(31, 0x243185be4ee4b28c, 3);
    assert CubeFits(37, 0x550c7dc3d5ffb4e2, 3);
    assert CubeFits(41, 0x72be5d74f27b896f, 3);
    assert CubeFits(43, 0x80deb1fe3b1696b1, 3);
    assert CubeFits(47, 0x9bdc06a725c71235, 3);
    assert CubeFits(53, 0xc19bf174cf692694, 3);
    hide CubeFits;
  }

  lemma Cubes2()
    ensures AllOfCubeRoots(P2, K2)
  {
    assert CubeFits(59, 0xe49b69c19ef14ad2, 3);
    assert CubeFits(61, 0xefbe4786384f25e3, 3);
    assert CubeFits(67, 0x0fc19dc68b8cd5b5, 4);
    assert CubeFits(71, 0x240ca1cc77ac9c65, 4);
    assert CubeFits(73, 0x2de92c6f592b0275, 4);
    assert CubeFits(79, 0x4a7484aa6ea6e483, 4);
    assert CubeFits(83, 0x5cb0a9dcbd41fbd4, 4);
    assert CubeFits(89, 0x76f988da831153b5, 4);
    hide CubeFits;
  }

  lemma Cubes3()
    ensures AllOfCubeRoots(P3, K3)
  {
    assert CubeFits(97, 0x983e5152ee66dfab, 4);
    assert CubeFits(101, 0xa831c66d2db43210, 4);
    assert CubeFits(103, 0xb00327c898fb213f, 4);
    assert CubeFits(107, 0xbf597fc7beef0ee4, 4);
    assert CubeFits(109, 0xc6e00bf33da88fc2, 4);
    assert CubeFits(113, 0xd5a79147930aa725, 4);
    assert CubeFits(127, 0x06ca6351e003826f, 5);
    assert CubeFits(131, 0x142929670a0e6e70, 5);
    hide CubeFits;
  }

  lemma Cubes4()
    ensures AllOfCubeRoots(P4, K4)
  {
    assert CubeFits(137, 0x27b70a8546d22ffc, 5);
    assert CubeFits(139, 0x2e1b21385c26c926, 5);
    assert CubeFits(149, 0x4d2c6dfc5ac42aed, 5);
    assert CubeFits(151, 0x53380d139d95b3df, 5);
    assert CubeFits(157, 0x650a73548baf63de, 5);
    assert CubeFits(163, 0x766a0abb3c77b2a8, 5);
    assert CubeFits(167, 0x81c2c92e47edaee6, 5);
    assert CubeFits(173, 0x92722c851482353b, 5);
    hide CubeFits;
  }

  lemma Cubes5()
    ensures AllOfCubeRoots(P5, K5)
  {
    assert CubeFits(179, 0xa2bfe8a14cf10364, 5);
    assert CubeFits(181, 0xa81a664bbc423001, 5);
    assert CubeFits(191, 0xc24b8b70d0f89791, 5);
    assert CubeFits(193, 0xc76c51a30654be30, 5);
    assert CubeFits(197, 0xd192e819d6ef5218, 5);
    assert CubeFits(199, 0xd69906245565a910, 5);
    assert CubeFits(211, 0xf40e35855771202a, 5);
    assert CubeFits(223, 0x106aa07032bbd1b8, 6);
    hide CubeFits;
  }

  lemma Cubes6()
    ensures AllOfCubeRoots(P6, K6)
  {
    assert CubeFits(227, 0x19a4c116b8d2d0c8, 6);
    assert CubeFits(229, 0x1e376c085141ab53, 6);
    assert CubeFits(233, 0x2748774cdf8eeb99, 6);
    assert CubeFits(239, 0x34b0bcb5e19b48a8, 6);
    assert CubeFits(241, 0x391c0cb3c5c95a63, 6);
    assert CubeFits(251, 0x4ed8aa4ae3418acb, 6);
    assert CubeFits(257, 0x5b9cca4f7763e373, 6);
    assert CubeFits(263, 0x682e6ff3d6b2b8a3, 6);
    hide CubeFits;
  }

  lemma Cubes7()
    ensures AllOfCubeRoots(P7, K7)
  {
    assert CubeFits(269, 0x748f82ee5defb2fc, 6);
    assert CubeFits(271, 0x78a5636f43172f60, 6);
    assert CubeFits(277, 0x84c87814a1f0ab72, 6);
    assert CubeFits(281, 0x8cc702081a6439ec, 6);
    assert CubeFits(283, 0x90befffa23631e28, 6);
    assert CubeFits(293, 0xa4506cebde82bde9, 6);
    assert CubeFits(307, 0xbef9a3f7b2c67915, 6);
    assert CubeFits(311, 0xc67178f2e372532b, 6);
    hide CubeFits;
  }

  lemma Cubes8()
    ensures AllOfCubeRoots(P8, K8)
  {
    assert CubeFits(313, 0xca273eceea26619c, 6);
    assert CubeFits(317, 0xd186b8c721c0c207, 6);
    assert CubeFits(331, 0xeada7dd6cde0eb1e, 6);
    assert CubeFits(337, 0xf57d4f7fee6ed178, 6);
    assert CubeFits(347, 0x06f067aa72176fba, 7);
    assert CubeFits(349, 0x0a637dc5a2c898a6, 7);
    assert CubeFits(353, 0x113f9804bef90dae, 7);
    assert CubeFits(359, 0x1b710b35131c471b, 7);
    hide CubeFits;
  }

  lemma Cubes9()
    ensures AllOfCubeRoots(P9, K9)
  {
    assert CubeFits(367, 0x28db77f523047d84, 7);
    assert CubeFits(373, 0x32caab7b40c72493, 7);
    assert CubeFits(379, 0x3c9ebe0a15c9bebc, 7);
    assert CubeFits(383, 0x431d67c49c100d4c, 7);
    assert CubeFits(389, 0x4cc5d4becb3e42b6, 7);
    assert CubeFits(397, 0x597f299cfc657e2a, 7);
    assert CubeFits(401, 0x5fcb6fab3ad6faec, 7);
    assert CubeFits(409, 0x6c44198c4a475817, 7);
    hide CubeFits;
  }

  /** The round constants. */
  lemma RoundConstants()
    ensures PrimesTo(409) == PRIMES && |PRIMES| == 80
    ensures AllOfCubeRoots(PRIMES, K)
  {
    hide AllOfCubeRoots, PrimesTo, P0, P1, P2, P3, P4, P5, P6, P7, P8, P9, K0, K1, K2, K3, K4, K5, K6, K7, K8, K9;
    PrimesAre();
    Cubes0();
    Cubes1();
    Cubes2();
    Cubes3();
    Cubes4();
    Cubes5();
    Cubes6();
    Cubes7();
    Cubes8();
    Cubes9();
    CubesJoin(P0, K0, P1, K1);
    CubesJoin(P0 + P1, K0 + K1, P2, K2);
    CubesJoin(P0 + P1 + P2, K0 + K1 + K2, P3, K3);
    CubesJoin(P0 + P1 + P2 + P3, K0 + K1 + K2 + K3, P4, K4);
    CubesJoin(P0 + P1 + P2 + P3 + P4, K0 + K1 + K2 + K3 + K4, P5, K5);
    CubesJoin(P0 + P1 + P2 + P3 + P4 + P5, K0 + K1 + K2 + K3 + K4 + K5, P6, K6);
    CubesJoin(P0 + P1 + P2 + P3 + P4 + P5 + P6, K0 + K1 + K2 + K3 + K4 + K5 + K6, P7, K7);
    CubesJoin(P0 + P1 + P2 + P3 + P4 + P5 + P6 + P7, K0 + K1 + K2 + K3 + K4 + K5 + K6 + K7, P8, K8);
    CubesJoin(P0 + P1 + P2 + P3 + P4 + P5 + P6 + P7 + P8, K0 + K1 + K2 + K3 + K4 + K5 + K6 + K7 + K8, P9, K9);
  }

  /** The initial hash value. */
  lemma InitialHash()
    ensures PrimesTo(19) == P0 && |P0| == 8
    ensures forall i :: 0 <= i < 8 ==> OfSquareRoot(P0[i], INITIAL[i])
  {
    hide PrimesTo;
    Primes0();
    assert SquareFits(2, 0x6a09e667f3bcc908, 1);
    assert SquareFits(3, 0xbb67ae8584caa73b, 1);
    assert SquareFits(5, 0x3c6ef372fe94f82b, 2);
    assert SquareFits(7, 0xa54ff53a5f1d36f1, 2);
    assert SquareFits(11, 0x510e527fade682d1, 3);
    assert SquareFits(13, 0x9b05688c2b3e6c1f, 3);
    assert SquareFits(17, 0x1f83d9abfb41bd6b, 4);
    assert SquareFits(19, 0x5be0cd19137e2179, 4);
  }

  // ---------------------------------------------------------------- the functions of the rounds

  lemma BitOfXor(a: nat, b: nat, i: nat)
    ensures BitAt(Xor(a, b), i) == (BitAt(a, i) + BitAt(b, i)) % 2
  {
    hide Bitwise, BitAt;
    BitOfBitwise(XorOp, a, b, i);
  }

  /** The exclusive or of three words. */
  lemma BitOfSum(a: nat, b: nat, c: nat, i: nat)
    ensures BitAt(Xor(Xor(a, b), c), i) == (BitAt(a, i) + BitAt(b, i) + BitAt(c, i)) % 2
  {
    hide Bitwise, BitAt;
    BitOfXor(a, b, i);
    BitOfXor(Xor(a, b), c, i);
  }

  lemma BitOfRotr(x: Word64, b: nat, i: nat)
    requires 0 < b < 64 && i < 64
    ensures BitAt(Rotr(x, b), i) == BitAt(x, (i + b) % 64)
  {
    hide RotR, BitAt, Pow2;
    RotrBound(x, b);
    RotationMovesBits(64, x, b, i);
  }

  /** Which bits of a word each bit of the functions combines. */
  lemma BigSigmaBits(x: Word64, i: nat)
    requires i < 64
    ensures BitAt(BigSigma0(x), i) == (BitAt(x, (i + 28) % 64) + BitAt(x, (i + 34) % 64) + BitAt(x, (i + 39) % 64)) % 2
    ensures BitAt(BigSigma1(x), i) == (BitAt(x, (i + 14) % 64) + BitAt(x, (i + 18) % 64) + BitAt(x, (i + 41) % 64)) % 2
  {
    hide Bitwise, BitAt, Rotr;
    BitOfRotr(x, 28, i);
    BitOfRotr(x, 34, i);
    BitOfRotr(x, 39, i);
    BitOfSum(Rotr(x, 28), Rotr(x, 34), Rotr(x, 39), i);
    BitOfRotr(x, 14, i);
    BitOfRotr(x, 18, i);
    BitOfRotr(x, 41, i);
    BitOfSum(Rotr(x, 14), Rotr(x, 18), Rotr(x, 41), i);
  }

  /** The same for the functions of the message schedule; a shift brings in zeros. */
  lemma SmallSigmaBits(x: Word64, i: nat)
    requires i < 64
    ensures BitAt(SmallSigma0(x), i) == (BitAt(x, (i + 1) % 64) + BitAt(x, (i + 8) % 64) + BitAt(x, i + 7)) % 2
    ensures BitAt(SmallSigma1(x), i) == (BitAt(x, (i + 19) % 64) + BitAt(x, (i + 61) % 64) + BitAt(x, i + 6)) % 2
  {
    hide Bitwise, BitAt, Rotr, Shr;
    BitOfRotr(x, 1, i);
    BitOfRotr(x, 8, i);
    BitOfShr(x, 7, i);
    BitOfSum(Rotr(x, 1), Rotr(x, 8), Shr(x, 7), i);
    BitOfRotr(x, 19, i);
    BitOfRotr(x, 61, i);
    BitOfShr(x, 6, i);
    BitOfSum(Rotr(x, 19), Rotr(x, 61), Shr(x, 6), i);
  }

  lemma {:induction false} BitOfNot(k: nat, x: nat, i: nat)
    requires x < Pow2(k) && i < k
    ensures BitAt(Pow2(k) - 1 - x, i) == 1 - BitAt(x, i)
    decreases k
  {
    var n := Pow2(k) - 1 - x;
    assert n % 2 == 1 - x % 2 && n / 2 == Pow2(k - 1) - 1 - x / 2;
    if i > 0 {
      BitOfNot(k - 1, x / 2, i - 1);
    }
  }

  /** `Ch` chooses the bit of y or z by the bit of x, and `Maj` takes the bit that two of the three have. */
  lemma ChoiceBits(x: Word64, y: Word64, z: Word64, i: nat)
    requires i < 64
    ensures BitAt(Ch(x, y, z), i) == if BitAt(x, i) == 1 then BitAt(y, i) else BitAt(z, i)
    ensures BitAt(Maj(x, y, z), i) == if BitAt(x, i) + BitAt(y, i) + BitAt(z, i) >= 2 then 1 else 0
  {
    hide Bitwise, BitAt, Pow2;
    Pow2Words();
    BitOfNot(64, x, i);
    BitOfBitwise(AndOp, x, y, i);
    BitOfBitwise(AndOp, NotW(x), z, i);
    BitOfXor(And(x, y), And(NotW(x), z), i);
    BitOfBitwise(AndOp, x, z, i);
    BitOfBitwise(AndOp, y, z, i);
    BitOfSum(And(x, y), And(x, z), And(y, z), i);
  }

  // ---------------------------------------------------------------- padding and digest

  /** The length field is the length in bits, highest byte first. */
  lemma LengthValue(n: nat)
    ensures BigEndian(LengthField(n)) == 8 * n % Pow2(128)
  {
    hide BigEndian, Digits, Reversed, LittleEndian, Pow2;
    Pow2Words();
    Pow2Add(64, 64);
    var d := Digits(16, 8 * n % Pow2(128));
    ValueOfDigits(16, 8 * n % Pow2(128));
    BigEndianIsReversed(Reversed(d));
    ReversedTwice(d);
  }

  /** With `z` zeros, a message of `n` bytes fills whole blocks. */
  predicate Fills(n: nat, z: nat) { (n + 1 + z + 16) % 128 == 0 }

  /** A one bit, then zeros, then the length; with fewer zeros the length of the whole would be no multiple of 128. */
  lemma PaddingParts(n: nat)
    ensures var s := Padding(n); var z := |s| - 17;
      && z >= 0 && Fills(n, z) && (forall y :: 0 <= y < z ==> !Fills(n, y))
      && s[0] == 0x80 && (forall i :: 1 <= i <= z ==> s[i] == 0) && BigEndian(s[z + 1..]) == 8 * n % Pow2(128)
  {
    hide LengthField, BigEndian, Pow2;
    LengthValue(n);
    var z := ZeroCount(n);
    forall y | 0 <= y < z
      ensures !Fills(n, y)
    {
      CloseMultiples(n + 17 + y, n + 17 + z);
    }
    var s := Padding(n);
    assert s[z + 1..] == LengthField(n);
  }

  lemma CloseMultiples(a: nat, b: nat)
    requires a < b < a + 128 && b % 128 == 0
    ensures a % 128 != 0
  {}

  /** The digest holds the words of the hash value, highest byte first. */
  lemma {:induction false} DigestWords(h: seq<Word64>, i: nat)
    requires i < |h|
    ensures BigEndian(WordBytes(h)[8 * i..8 * i + 8]) == h[i]
    decreases |h|
  {
    hide BigEndian, Digits, Reversed;
    var first, rest := Reversed(Digits(8, h[0])), WordBytes(h[1..]);
    assert |first| == 8 by { ReversedLength(Digits(8, h[0])); }
    if i == 0 {
      assert WordBytes(h)[0..8] == first;
      WordValue(h[0]);
    } else {
      assert WordBytes(h)[8 * i..8 * i + 8] == rest[8 * (i - 1)..8 * (i - 1) + 8];
      DigestWords(h[1..], i - 1);
    }
  }

  lemma ReversedLength(s: seq<Byte>)
    ensures |Reversed(s)| == |s|
  {}

  lemma WordValue(w: Word64)
    ensures BigEndian(Reversed(Digits(8, w))) == w
  {
    hide BigEndian, Digits, Reversed, LittleEndian, Pow2;
    Pow2Words();
    var d := Digits(8, w);
    ValueOfDigits(8, w);
    BigEndianIsReversed(Reversed(d));
    ReversedTwice(d);
  }
}
