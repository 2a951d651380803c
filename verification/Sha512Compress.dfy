/** `SHA512_Transform` of external/VRF_functions/sha512EL.cpp: it computes the message schedule sixteen words at a
    time between the rounds, and renames the eight working variables instead of moving them. */
module Sha512Compress {
  import opened Bits
  import opened Bytes
  import opened WordCodec
  import opened Sha512Spec

  // ---------------------------------------------------------------- the macros Ch and Maj

  function ChMacro(x: Word64, y: Word64, z: Word64): Word64 { XorW(AndW(x, XorW(y, z)), z) }

  function MajMacro(x: Word64, y: Word64, z: Word64): Word64 { OrW(AndW(x, OrW(y, z)), AndW(y, z)) }

  lemma ChBit(x: nat, y: nat, z: nat)
    requires x < 2 && y < 2 && z < 2
    ensures OnBits(XorOp, OnBits(AndOp, x, OnBits(XorOp, y, z)), z)
         == OnBits(XorOp, OnBits(AndOp, x, y), OnBits(AndOp, 1 - x, z))
  {}

  lemma MajBit(x: nat, y: nat, z: nat)
    requires x < 2 && y < 2 && z < 2
    ensures OnBits(OrOp, OnBits(AndOp, x, OnBits(OrOp, y, z)), OnBits(AndOp, y, z))
         == OnBits(XorOp, OnBits(XorOp, OnBits(AndOp, x, y), OnBits(AndOp, x, z)), OnBits(AndOp, y, z))
  {}

  /** The form of `Ch` with one operation fewer, for words of `k` bits. */
  lemma {:induction false} ChForm(k: nat, x: nat, y: nat, z: nat)
    requires x < Pow2(k) && y < Pow2(k) && z < Pow2(k)
    ensures Xor(And(x, Xor(y, z)), z) == Xor(And(x, y), And(Pow2(k) - 1 - x, z))
    decreases k
  {
    if k > 0 {
      var n := Pow2(k) - 1 - x;
      assert n % 2 == 1 - x % 2 && n / 2 == Pow2(k - 1) - 1 - x / 2;
      ChForm(k - 1, x / 2, y / 2, z / 2);
      hide Bitwise, OnBits, Pow2;
      ChHalves(x, y, z, n);
      ChBit(x % 2, y % 2, z % 2);
      FromHalves(Xor(And(x, Xor(y, z)), z), Xor(And(x, y), And(n, z)));
    }
  }

  lemma ChHalves(x: nat, y: nat, z: nat, n: nat)
    ensures Xor(And(x, Xor(y, z)), z) / 2 == Xor(And(x / 2, Xor(y / 2, z / 2)), z / 2)
    ensures Xor(And(x, Xor(y, z)), z) % 2 == OnBits(XorOp, OnBits(AndOp, x % 2, OnBits(XorOp, y % 2, z % 2)), z % 2)
    ensures Xor(And(x, y), And(n, z)) / 2 == Xor(And(x / 2, y / 2), And(n / 2, z / 2))
    ensures Xor(And(x, y), And(n, z)) % 2
         == OnBits(XorOp, OnBits(AndOp, x % 2, y % 2), OnBits(AndOp, n % 2, z % 2))
  {
    hide Bitwise, OnBits;
    Halves(XorOp, y, z);
    Halves(AndOp, x, Xor(y, z));
    Halves(XorOp, And(x, Xor(y, z)), z);
    Halves(AndOp, x, y);
    Halves(AndOp, n, z);
    Halves(XorOp, And(x, y), And(n, z));
  }

  lemma {:induction false} MajForm(x: nat, y: nat, z: nat)
    ensures Or(And(x, Or(y, z)), And(y, z)) == Xor(Xor(And(x, y), And(x, z)), And(y, z))
    decreases x + y + z
  {
    if x + y + z > 0 {
      MajForm(x / 2, y / 2, z / 2);
      hide Bitwise, OnBits;
      MajHalves(x, y, z);
      MajBit(x % 2, y % 2, z % 2);
      FromHalves(Or(And(x, Or(y, z)), And(y, z)), Xor(Xor(And(x, y), And(x, z)), And(y, z)));
    }
  }

  lemma MajHalves(x: nat, y: nat, z: nat)
    ensures Or(And(x, Or(y, z)), And(y, z)) / 2 == Or(And(x / 2, Or(y / 2, z / 2)), And(y / 2, z / 2))
    ensures Or(And(x, Or(y, z)), And(y, z)) % 2
         == OnBits(OrOp, OnBits(AndOp, x % 2, OnBits(OrOp, y % 2, z % 2)), OnBits(AndOp, y % 2, z % 2))
    ensures Xor(Xor(And(x, y), And(x, z)), And(y, z)) / 2
         == Xor(Xor(And(x / 2, y / 2), And(x / 2, z / 2)), And(y / 2, z / 2))
    ensures Xor(Xor(And(x, y), And(x, z)), And(y, z)) % 2
         == OnBits(XorOp, OnBits(XorOp, OnBits(AndOp, x % 2, y % 2), OnBits(AndOp, x % 2, z % 2)),
                   OnBits(AndOp, y % 2, z % 2))
  {
    hide Bitwise, OnBits;
    Halves(OrOp, y, z);
    Halves(AndOp, x, Or(y, z));
    Halves(AndOp, y, z);
    Halves(OrOp, And(x, Or(y, z)), And(y, z));
    Halves(AndOp, x, y);
    Halves(AndOp, x, z);
    Halves(XorOp, And(x, y), And(x, z));
    Halves(XorOp, Xor(And(x, y), And(x, z)), And(y, z));
  }

  /** The macros compute the functions of the standard. */
  lemma MacrosAreStandard(x: Word64, y: Word64, z: Word64)
    ensures ChMacro(x, y, z) == Ch(x, y, z) && MajMacro(x, y, z) == Maj(x, y, z)
  {
    hide Bitwise, Pow2;
    Pow2Words();
    ChForm(64, x, y, z);
    MajForm(x, y, z);
  }

  // ---------------------------------------------------------------- one round

  /** The `+` of `uint64_t`. */
  function Plus(x: nat, y: nat): Word64 { Word(x + y) }

  lemma WordAdd(x: nat, y: nat)
    ensures Word(Word(x) + y) == Word(x + y) && Word(x + Word(y)) == Word(x + y)
  {
    WordIs(x);
    WordIs(y);
    hide Word;
    WordShift(Word(x) + y, x / 0x1_0000_0000_0000_0000);
    WordShift(x + Word(y), y / 0x1_0000_0000_0000_0000);
  }

  lemma WordIs(x: nat)
    ensures x == 0x1_0000_0000_0000_0000 * (x / 0x1_0000_0000_0000_0000) + Word(x)
  {}

  lemma WordShift(x: nat, q: nat)
    ensures Word(x + 0x1_0000_0000_0000_0000 * q) == Word(x)
  {
    ShiftedRemainder(x, 0x1_0000_0000_0000_0000, q);
  }

  /** The value that `RND` adds to `h`, and the rest of its sums, as C associates them. */
  lemma RoundSums(h: Word64, s1: Word64, ch: Word64, k: Word64, w: Word64, d: Word64, s0: Word64, maj: Word64)
    ensures
      var h1 := Word(h + Word(Word(Word(s1 + ch) + w) + k));
      var t1 := h + s1 + ch + k + w;
      Word(d + h1) == Word(d + t1) && Word(h1 + Word(s0 + maj)) == Word(t1 + (s0 + maj))
  {
    hide Word;
    var h1 := Word(h + Word(Word(Word(s1 + ch) + w) + k));
    WordAdd(s1 + ch, w);
    WordAdd(s1 + ch + w, k);
    WordAdd(h, s1 + ch + w + k);
    var t1 := h + s1 + ch + k + w;
    assert h1 == Word(t1);
    WordAdd(d, t1);
    WordAdd(t1, Word(s0 + maj));
    WordAdd(t1, s0 + maj);
  }

  /** The place of working variable `j` (0 for a, ..., 7 for h) before round `i`. */
  function Place(i: nat, j: nat): (p: nat)
    requires i <= 16 && j < 8
    ensures p < 8
  {
    (80 + j - i) % 8
  }

  lemma PlacesDiffer(i: nat, j: nat, k: nat)
    requires i <= 16 && j < k < 8
    ensures Place(i, j) != Place(i, k)
  {}

  /** After a round the place of h is the place of the new a, and every other variable has moved on by one. */
  lemma PlacesMove(i: nat)
    requires i < 16
    ensures Place(i + 1, 0) == Place(i, 7)
    ensures Place(i + 1, 1) == Place(i, 0) && Place(i + 1, 2) == Place(i, 1) && Place(i + 1, 3) == Place(i, 2)
    ensures Place(i + 1, 4) == Place(i, 3) && Place(i + 1, 5) == Place(i, 4) && Place(i + 1, 6) == Place(i, 5)
    ensures Place(i + 1, 7) == Place(i, 6)
  {}

  /** The working variables as they lie in `s` before round `i`. */
  function View(s: seq<Word64>, i: nat): Vars
    requires |s| == 8 && i <= 16
  {
    Vars(s[Place(i, 0)], s[Place(i, 1)], s[Place(i, 2)], s[Place(i, 3)],
         s[Place(i, 4)], s[Place(i, 5)], s[Place(i, 6)], s[Place(i, 7)])
  }

  lemma ViewAround(s: seq<Word64>)
    requires |s| == 8
    ensures View(s, 16) == View(s, 0) == VarsOf(s)
  {}

  /** The macro `RNDr`; `k` and `w` are the round's constant and schedule word. */
  method Rnd(S: array<Word64>, i: nat, k: Word64, w: Word64)
    requires S.Length == 8 && i < 16
    modifies S
    ensures View(S[..], i + 1) == Round(View(old(S[..]), i), k, w)
  {
    hide BigSigma0, BigSigma1, Ch, Maj, ChMacro, MajMacro, Word, Place;
    var a, b, c, d := Place(i, 0), Place(i, 1), Place(i, 2), Place(i, 3);
    var e, f, g, h := Place(i, 4), Place(i, 5), Place(i, 6), Place(i, 7);
    ghost var v := View(S[..], i);
    forall j, k | 0 <= j < k < 8
      ensures Place(i, j) != Place(i, k)
    {
      PlacesDiffer(i, j, k);
    }
    PlacesMove(i);
    MacrosAreStandard(v.e, v.f, v.g);
    MacrosAreStandard(v.a, v.b, v.c);
    RoundSums(v.h, BigSigma1(v.e), Ch(v.e, v.f, v.g), k, w, v.d, BigSigma0(v.a), Maj(v.a, v.b, v.c));
    S[h] := Plus(S[h], Plus(Plus(Plus(BigSigma1(S[e]), ChMacro(S[e], S[f], S[g])), w), k));
    S[d] := Plus(S[d], S[h]);
    S[h] := Plus(S[h], Plus(BigSigma0(S[a]), MajMacro(S[a], S[b], S[c])));
  }

  // ---------------------------------------------------------------- the message schedule

  lemma ScheduleSums(s1: Word64, w9: Word64, s0: Word64, w0: Word64)
    ensures Plus(Plus(Plus(s1, w9), s0), w0) == Word(s1 + w9 + s0 + w0)
  {
    hide Word;
    WordAdd(s1 + w9, s0);
    WordAdd(s1 + w9 + s0, w0);
  }

  /** The first `n` words of the schedule are in `W`. */
  ghost predicate Scheduled(W: seq<Word64>, block: Block, n: nat) {
    |W| == 80 && n <= 80 && forall j {:trigger W[j]} :: 0 <= j < n ==> W[j] == Schedule(block, j)
  }

  /** The macro `MSCH`: the word `t + 16` from the sixteen before it. */
  method Msch(W: array<Word64>, t: nat, ghost block: Block)
    requires W.Length == 80 && t < 64
    requires Scheduled(W[..], block, t + 16)
    modifies W
    ensures Scheduled(W[..], block, t + 17)
  {
    hide SmallSigma0, SmallSigma1, Word, Schedule;
    ScheduleSums(SmallSigma1(W[t + 14]), W[t + 9], SmallSigma0(W[t + 1]), W[t]);
    ScheduleStep(block, t);
    ghost var before := W[..];
    assert before[t + 14] == Schedule(block, t + 14) && before[t + 9] == Schedule(block, t + 9);
    assert before[t + 1] == Schedule(block, t + 1) && before[t] == Schedule(block, t);
    W[t + 16] := Plus(Plus(Plus(SmallSigma1(W[t + 14]), W[t + 9]), SmallSigma0(W[t + 1])), W[t]);
    assert W[..] == before[t + 16 := W[t + 16]];
  }

  /** The sixteen uses of `MSCH` between two groups of rounds. */
  method ExtendSchedule(W: array<Word64>, ii: nat, ghost block: Block)
    requires W.Length == 80 && ii <= 48
    requires Scheduled(W[..], block, ii + 16)
    modifies W
    ensures Scheduled(W[..], block, ii + 32)
  {
    hide Scheduled;
    var i := 0;
    while i < 16
      invariant 0 <= i <= 16
      invariant Scheduled(W[..], block, ii + 16 + i)
    {
      Msch(W, i + ii, block);
      i := i + 1;
    }
  }

  lemma ScheduleStep(block: Block, t: nat)
    requires t < 64
    ensures Schedule(block, t + 16)
         == Word(SmallSigma1(Schedule(block, t + 14)) + Schedule(block, t + 9)
                 + SmallSigma0(Schedule(block, t + 1)) + Schedule(block, t))
  {
    hide SmallSigma0, SmallSigma1, Word;
  }

  /** `be64dec_vect`: the first sixteen words of the schedule are the block itself. */
  method DecodeBlock(W: array<Word64>, block: Block)
    requires W.Length == 80
    modifies W
    ensures Scheduled(W[..], block, 16)
  {
    hide BigEndian, SmallSigma0, SmallSigma1, Word;
    var i := 0;
    while i < 16
      invariant 0 <= i <= 16
      invariant forall j :: 0 <= j < i ==> W[j] == Schedule(block, j)
    {
      W[i] := Load64BE(block[8 * i..8 * i + 8]);
      i := i + 1;
    }
  }

  // ---------------------------------------------------------------- one block

  lemma RoundsStep(ks: seq<Word64>, v: Vars, block: Block, t: nat)
    requires |ks| == 80 && t < 80
    ensures Rounds(ks, v, block, t + 1) == Round(Rounds(ks, v, block, t), ks[t], Schedule(block, t))
  {
    hide Round, Schedule;
  }

  /** Sixteen rounds. */
  method SixteenRounds(ks: seq<Word64>, S: array<Word64>, W: array<Word64>, ii: nat, ghost v: Vars, ghost block: Block)
    requires |ks| == 80 && S.Length == 8 && W.Length == 80 && S != W && ii % 16 == 0 && ii < 80
    requires Scheduled(W[..], block, ii + 16)
    requires VarsOf(S[..]) == Rounds(ks, v, block, ii)
    modifies S
    ensures VarsOf(S[..]) == Rounds(ks, v, block, ii + 16)
  {
    hide Round, Schedule, Rounds, View;
    ViewAround(S[..]);
    var i := 0;
    while i < 16
      invariant 0 <= i <= 16
      invariant View(S[..], i) == Rounds(ks, v, block, ii + i)
    {
      RoundsStep(ks, v, block, ii + i);
      assert W[..][i + ii] == Schedule(block, i + ii);
      Rnd(S, i, ks[i + ii], W[i + ii]);
      i := i + 1;
    }
    ViewAround(S[..]);
  }

  /** `SHA512_Transform` */
  method Transform(state: array<Word64>, block: Block)
    requires state.Length == 8
    modifies state
    ensures state[..] == Compress(old(state[..]), block)
  {
    KLength();
    var ks := K;
    hide Rounds, Schedule, Word, K, Scheduled, AddVars, VarsOf;
    var W := new Word64[80](_ => 0);
    DecodeBlock(W, block);
    var S := new Word64[8](_ => 0);
    CopyState(S, state);
    ghost var v := VarsOf(state[..]);
    NoRounds(ks, v, block);
    var i := 0;
    while i < 80
      invariant 0 <= i <= 80 && i % 16 == 0
      invariant i < 80 ==> Scheduled(W[..], block, i + 16)
      invariant VarsOf(S[..]) == Rounds(ks, v, block, i)
      invariant state[..] == old(state[..])
    {
      SixteenRounds(ks, S, W, i, v, block);
      if i == 64 {
        i := i + 16;
        break;
      }
      ExtendSchedule(W, i, block);
      i := i + 16;
    }
    AddState(state, S);
  }

  /** `memcpy` of the state into the working variables. */
  method CopyState(S: array<Word64>, state: array<Word64>)
    requires state.Length == 8 && S.Length == 8
    modifies S
    ensures S[..] == old(state[..])
  {
    forall j | 0 <= j < 8 {
      S[j] := state[j];
    }
    assert forall j :: 0 <= j < 8 ==> S[j] == old(state[j]);
  }

  lemma NoRounds(ks: seq<Word64>, v: Vars, block: Block)
    requires |ks| == 80
    ensures Rounds(ks, v, block, 0) == v
  {}

  /** The loop that adds the working variables to the state. */
  method AddState(state: array<Word64>, S: array<Word64>)
    requires state.Length == 8 && S.Length == 8 && state != S
    modifies state
    ensures state[..] == AddVars(old(state[..]), VarsOf(S[..]))
  {
    hide Word;
    var i := 0;
    while i < 8
      invariant 0 <= i <= 8
      invariant forall j :: 0 <= j < i ==> state[j] == Plus(old(state[j]), S[j])
      invariant forall j :: i <= j < 8 ==> state[j] == old(state[j])
    {
      state[i] := Plus(state[i], S[i]);
      i := i + 1;
    }
  }
}
