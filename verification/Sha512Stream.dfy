/** The incremental hashing of external/VRF_functions/sha512EL.cpp: a state that absorbs a message in pieces of any
    length and gives its SHA-512 hash at the end. */
module Sha512Stream {
  import opened Wrappers
  import opened Bits
  import opened Bytes
  import opened WordCodec
  import opened WordLaws
  import opened Sha512Spec
  import opened Sha512Compress

  // ---------------------------------------------------------------- the 128-bit counter

  /** The two counter words hold the length of `n` bytes in bits. */
  ghost predicate Counts(count0: Word64, count1: Word64, n: nat) {
    count0 * 0x1_0000_0000_0000_0000 + count1 == 8 * n % 0x1_0000_0000_0000_0000_0000_0000_0000_0000
  }

  lemma LengthParts(n: nat)
    ensures 8 * n == n / 0x2000_0000_0000_0000 * 0x1_0000_0000_0000_0000 + 8 * n % 0x1_0000_0000_0000_0000
  {}

  /** Adding to the low word, carrying into the high word when the sum is less than what was added. */
  lemma CountAdd(c0: Word64, c1: Word64, n: nat, more: nat, b0: Word64, b1: Word64)
    requires Counts(c0, c1, n)
    requires 8 * more == b0 * 0x1_0000_0000_0000_0000 + b1
    ensures
      var d1 := Word(c1 + b1);
      var carry := if d1 < b1 then 1 else 0;
      Counts(Word(Word(c0 + carry) + b0), d1, n + more)
  {
    hide Word;
    var d1 := Word(c1 + b1);
    var carry := if d1 < b1 then 1 else 0;
    Carry(c1, b1);
    WordAdd(c0 + carry, b0);
    var high := c0 + carry + b0;
    var q := 8 * n / 0x1_0000_0000_0000_0000_0000_0000_0000_0000;
    assert 8 * n == q * 0x1_0000_0000_0000_0000_0000_0000_0000_0000 + c0 * 0x1_0000_0000_0000_0000 + c1;
    SumOfParts(q, c0, c1, n, more, b0, b1, carry, d1);
    TwoWords(q * 0x1_0000_0000_0000_0000 + high, d1);
    WordShift(high, q);
  }

  lemma Carry(c: Word64, b: Word64)
    ensures c + b == (if Word(c + b) < b then 1 else 0) * 0x1_0000_0000_0000_0000 + Word(c + b)
  {}

  lemma SumOfParts(q: nat, c0: nat, c1: nat, n: nat, more: nat, b0: nat, b1: nat, carry: nat, d1: nat)
    requires 8 * n == q * 0x1_0000_0000_0000_0000_0000_0000_0000_0000 + c0 * 0x1_0000_0000_0000_0000 + c1
    requires 8 * more == b0 * 0x1_0000_0000_0000_0000 + b1
    requires c1 + b1 == carry * 0x1_0000_0000_0000_0000 + d1
    ensures 8 * (n + more)
         == (q * 0x1_0000_0000_0000_0000 + (c0 + carry + b0)) * 0x1_0000_0000_0000_0000 + d1
  {}

  lemma TwoWords(high: nat, low: Word64)
    ensures (high * 0x1_0000_0000_0000_0000 + low) % 0x1_0000_0000_0000_0000_0000_0000_0000_0000
         == Word(high) * 0x1_0000_0000_0000_0000 + low
  {}

  lemma ShiftedCounts(n: Word64)
    ensures Shl(64, n, 3) == 8 * n % 0x1_0000_0000_0000_0000
    ensures Shr(n, 61) == n / 0x2000_0000_0000_0000
  {
    hide Shl, Shr, Pow2;
    ShlValue(64, n, 3);
    ShrValue(n, 61);
    Pow2Words();
    Pow2Add(61, 3);
    Pow2Small();
  }

  /** How many bytes wait in the buffer. */
  lemma WaitingBytes(c0: Word64, c1: Word64, n: nat)
    requires Counts(c0, c1, n)
    ensures And(Shr(c1, 3), 0x7f) == n % 128
  {
    hide Bitwise, Shr, Pow2;
    Pow2Small();
    ShrValue(c1, 3);
    AndMask(Shr(c1, 3), 7);
    LowCount(c0, c1, n);
  }

  lemma LowCount(c0: Word64, c1: Word64, n: nat)
    requires Counts(c0, c1, n)
    ensures c1 / 8 % 128 == n % 128
  {
    var q := 8 * n / 0x1_0000_0000_0000_0000_0000_0000_0000_0000;
    assert 8 * n == (q * 0x1_0000_0000_0000_0000 + c0) * 0x1_0000_0000_0000_0000 + c1;
  }

  lemma LengthWords(c0: Word64, c1: Word64, n: nat)
    requires Counts(c0, c1, n)
    ensures LengthField(n) == Reversed(Digits(8, c0)) + Reversed(Digits(8, c1))
  {
    hide Digits, Reversed, Pow2;
    WidthsOf64();
    DigitsJoin(8, 8, c1, c0);
    assert Reversed(Digits(8, c1) + Digits(8, c0)) == Reversed(Digits(8, c0)) + Reversed(Digits(8, c1));
  }

  // ---------------------------------------------------------------- blocks

  lemma NextBlock(s: seq<Byte>, b: Block)
    requires |s| % 128 == 0
    ensures Blocks(Compress, INITIAL, s + b) == Compress(Blocks(Compress, INITIAL, s), b)
  {
    hide Compress, INITIAL;
    BlocksAppend(Compress, INITIAL, s, b);
    OneBlock(Compress, Blocks(Compress, INITIAL, s), b);
  }

  /** The part of a message that fills whole blocks. */
  function Whole(msg: seq<Byte>): (s: seq<Byte>)
    ensures |s| % 128 == 0
  {
    msg[..|msg| - |msg| % 128]
  }

  /** The part that is left over. */
  function Left(msg: seq<Byte>): (s: seq<Byte>)
    ensures |s| == |msg| % 128 && Whole(msg) + s == msg
  {
    msg[|msg| - |msg| % 128..]
  }

  /** The constant `PAD`. */
  function Pad(i: nat): Byte { if i == 0 then 0x80 else 0 }

  function PadBytes(n: nat): (s: seq<Byte>)
    ensures |s| == n
    ensures forall i :: 0 <= i < n ==> s[i] == Pad(i)
  {
    seq(n, i requires 0 <= i => Pad(i))
  }

  lemma ShortPadding(msg: seq<Byte>)
    requires |msg| % 128 < 112
    ensures msg + Padding(|msg|) == Whole(msg) + (Left(msg) + PadBytes(112 - |msg| % 128) + LengthField(|msg|))
  {
    hide LengthField, Whole, Left;
    var r := |msg| % 128;
    assert ZeroCount(|msg|) == 111 - r;
    assert [0x80] + Zeros(111 - r) == PadBytes(112 - r);
    assert msg + Padding(|msg|) == (Whole(msg) + Left(msg)) + (PadBytes(112 - r) + LengthField(|msg|));
  }

  lemma LongPadding(msg: seq<Byte>)
    requires |msg| % 128 >= 112
    ensures msg + Padding(|msg|)
         == Whole(msg) + (Left(msg) + PadBytes(128 - |msg| % 128)) + (Zeros(112) + LengthField(|msg|))
  {
    hide LengthField, Whole, Left;
    var r := |msg| % 128;
    assert ZeroCount(|msg|) == 239 - r;
    assert [0x80] + Zeros(239 - r) == PadBytes(128 - r) + Zeros(112);
    assert msg + Padding(|msg|)
      == (Whole(msg) + Left(msg)) + ((PadBytes(128 - r) + Zeros(112)) + LengthField(|msg|));
  }

  // ---------------------------------------------------------------- the state

  /** `h` is the state after whole blocks `s`. */
  ghost predicate Absorbed(h: seq<Word64>, s: seq<Byte>) {
    |s| % 128 == 0 && h == Blocks(Compress, INITIAL, s)
  }

  class HashState {
    const state: array<Word64>
    const buf: array<Byte>
    var count0: Word64
    var count1: Word64

    /** The message absorbed so far. */
    ghost var msg: seq<Byte>

    ghost predicate Shape()
      reads this
    {
      state.Length == 8 && buf.Length == 128
    }

    /** The whole blocks have been compressed, what is left waits in the buffer, and the counter is right. */
    ghost predicate Valid()
      reads this, state, buf
    {
      && Shape()
      && Counts(count0, count1, |msg|)
      && state[..] == Blocks(Compress, INITIAL, Whole(msg))
      && buf[..|msg| % 128] == Left(msg)
    }

    /** `crypto_hash_sha512_init` */
    constructor ()
      ensures Valid() && msg == []
      ensures fresh(state) && fresh(buf)
    {
      state := new Word64[8](i requires 0 <= i < 8 => INITIAL[i]);
      buf := new Byte[128](_ => 0);
      count0, count1 := 0, 0;
      msg := [];
      new;
      hide Compress, INITIAL;
      assert state[..] == INITIAL;
      assert Whole(msg) == [];
    }

    /** The counter update of `crypto_hash_sha512_update`. */
    method Count(inlen: Word64, ghost n: nat)
      requires Counts(count0, count1, n)
      modifies `count0, `count1
      ensures Counts(count0, count1, n + inlen)
    {
      hide Counts, Word, Shl, Shr;
      var bitlen1 := Shl(64, inlen, 3);
      var bitlen0 := Shr(inlen, 61);
      ShiftedCounts(inlen);
      LengthParts(inlen);
      CountAdd(count0, count1, n, inlen, bitlen0, bitlen1);
      count1 := Plus(count1, bitlen1);
      if count1 < bitlen1 {
        count0 := Plus(count0, 1);
      } else {
        SmallWord(count0);
      }
      count0 := Plus(count0, bitlen0);
    }

    /** The loops that copy input into the buffer. */
    method Fill(r: nat, inp: seq<Byte>)
      requires Shape() && r + |inp| <= 128
      modifies buf
      ensures buf[..r + |inp|] == old(buf[..r]) + inp
    {
      var i := 0;
      while i < |inp|
        invariant 0 <= i <= |inp|
        invariant buf[..r + i] == old(buf[..r]) + inp[..i]
      {
        buf[r + i] := inp[i];
        i := i + 1;
      }
    }

    /** The loop that compresses whole blocks of the input from `start` on, where `m` was absorbed before. */
    method CompressBlocks(inp: seq<Byte>, start: nat, ghost m: seq<Byte>) returns (pos: nat)
      requires Shape() && start <= |inp| && Absorbed(state[..], m + inp[..start])
      modifies state
      ensures start <= pos <= |inp| < pos + 128 && Absorbed(state[..], m + inp[..pos])
    {
      hide Compress, INITIAL, Blocks;
      pos := start;
      while |inp| - pos >= 128
        invariant start <= pos <= |inp| && Absorbed(state[..], m + inp[..pos])
        decreases |inp| - pos
      {
        assert m + inp[..pos + 128] == (m + inp[..pos]) + inp[pos..pos + 128];
        NextBlock(m + inp[..pos], inp[pos..pos + 128]);
        Transform(state, inp[pos..pos + 128]);
        pos := pos + 128;
      }
    }

    /** `crypto_hash_sha512_update`: absorbs more of the message. */
    method Update(inp: seq<Byte>)
      requires Valid() && |inp| < 0x1_0000_0000_0000_0000
      modifies this, state, buf
      ensures Valid() && msg == old(msg) + inp
    {
      hide Compress, INITIAL, Blocks, Counts, Bitwise, Shr, Whole, Left;
      ghost var m := msg;
      if |inp| == 0 {
        assert m + inp == m;
        return;
      }
      var r := And(Shr(count1, 3), 0x7f);
      WaitingBytes(count0, count1, |m|);
      Count(|inp|, |m|);
      msg := m + inp;
      if |inp| < 128 - r {
        Fill(r, inp);
        StillWaiting(m, inp);
        return;
      }
      Fill(r, inp[..128 - r]);
      FirstFull(m, inp[..128 - r]);
      assert buf[..] == buf[..128];
      Transform(state, buf[..]);
      var pos := CompressBlocks(inp, 128 - r, m);
      LowBits(|inp| - pos);
      var inlen := And(|inp| - pos, 127);
      Fill(0, inp[pos..pos + inlen]);
      TailWaits(m, inp, pos);
      assert buf[..inlen] == inp[pos..];
    }

    /** The loops of `SHA512_Pad` that copy from `PAD`. */
    method FillPad(r: nat, n: nat)
      requires Shape() && r + n <= 128
      modifies buf
      ensures buf[..r + n] == old(buf[..r]) + PadBytes(n)
    {
      var i := 0;
      while i < n
        invariant 0 <= i <= n
        invariant buf[..r + i] == old(buf[..r]) + PadBytes(n)[..i]
      {
        buf[r + i] := Pad(i);
        i := i + 1;
      }
    }

    /** `be64enc_vect` of the counter into the end of the buffer. */
    method StoreCount(ghost n: nat)
      requires Shape() && Counts(count0, count1, n)
      modifies buf
      ensures buf[..] == old(buf[..112]) + LengthField(n)
    {
      hide Counts, LengthField, Digits, Reversed;
      LengthWords(count0, count1, n);
      Store64BE(buf, 112, count0);
      Store64BE(buf, 120, count1);
    }

    /** `SHA512_Pad`: compresses what waits in the buffer, padded. */
    method Finish()
      requires Valid()
      modifies state, buf
      ensures Shape() && state[..] == FinalHash(msg)
    {
      hide Compress, INITIAL, Blocks, Counts, Bitwise, Shr, Whole, Left, Padding, LengthField;
      var r := And(Shr(count1, 3), 0x7f);
      WaitingBytes(count0, count1, |msg|);
      if r < 112 {
        FillPad(r, 112 - r);
        StoreCount(|msg|);
        ShortPadding(msg);
        NextBlock(Whole(msg), buf[..]);
      } else {
        FillPad(r, 128 - r);
        ghost var w, b := Whole(msg), buf[..];
        assert b == buf[..128];
        NextBlock(w, b);
        Transform(state, buf[..]);
        ClearBuf(112);
        StoreCount(|msg|);
        LongPadding(msg);
        NextBlock(w + b, buf[..]);
      }
      Transform(state, buf[..]);
    }

    /** `memset` of the first `n` bytes of the buffer. */
    method ClearBuf(n: nat)
      requires Shape() && n <= 128
      modifies buf
      ensures buf[..n] == Zeros(n)
    {
      forall i | 0 <= i < n {
        buf[i] := 0;
      }
      assert forall i :: 0 <= i < n ==> buf[i] == 0;
    }

    /** `be64enc_vect` of the state into the result. */
    method StoreState(out: array<Byte>)
      requires Shape() && out.Length == 64
      modifies out
      ensures out[..] == WordBytes(old(state[..]))
    {
      hide Digits, Reversed;
      ghost var h := state[..];
      assert h[8..] == [] && out[..0] == [];
      assert h[..0] == [];
      var i := 0;
      while i < 8
        invariant 0 <= i <= 8 && state[..] == h
        invariant out[..8 * i] == WordBytes(h[..i])
      {
        ghost var before := out[..];
        Store64BE(out, 8 * i, state[i]);
        WordBytesAppend(h[..i], h[i]);
        assert h[..i + 1] == h[..i] + [h[i]];
        assert out[..8 * i + 8] == before[..8 * i] + Reversed(Digits(8, h[i]));
        i := i + 1;
      }
      assert h[..8] == h && out[..64] == out[..];
    }

    /** `crypto_hash_sha512_final`: the hash of all that was absorbed; the state is cleared. */
    method Final(out: array<Byte>)
      requires Valid() && out.Length == 64
      modifies this, state, buf, out
      ensures out[..] == Sha512(old(msg))
      ensures Shape() && state[..] == [0, 0, 0, 0, 0, 0, 0, 0] && buf[..] == Zeros(128) && count0 == count1 == 0
    {
      hide FinalHash, WordBytes, Zeros;
      Finish();
      StoreState(out);
      Erase();
    }

    /** `memset` of the whole state. */
    method Erase()
      requires Shape()
      modifies this, state, buf
      ensures Shape() && state[..] == [0, 0, 0, 0, 0, 0, 0, 0] && buf[..] == Zeros(128) && count0 == count1 == 0
    {
      hide Zeros;
      forall i | 0 <= i < 8 {
        state[i] := 0;
      }
      ClearBuf(128);
      count0, count1 := 0, 0;
      assert buf[..128] == buf[..];
    }
  }

  lemma SmallWord(x: Word64)
    ensures Word(x + 0) == x
  {}

  lemma LowBits(n: nat)
    requires n < 128
    ensures And(n, 127) == n
  {
    hide Bitwise, Pow2;
    Pow2Small();
    AndOnes(n, 7);
  }

  /** Input that does not fill the buffer only waits. */
  lemma StillWaiting(m: seq<Byte>, inp: seq<Byte>)
    requires |m| % 128 + |inp| < 128
    ensures Whole(m + inp) == Whole(m) && Left(m + inp) == Left(m) + inp
    ensures |m + inp| % 128 == |m| % 128 + |inp|
  {
    MoreWaiting(|m|, |inp|);
  }

  lemma MoreWaiting(n: nat, k: nat)
    requires n % 128 + k < 128
    ensures (n + k) % 128 == n % 128 + k
  {}

  /** Input that fills the buffer completes a block. */
  lemma FirstFull(m: seq<Byte>, inp: seq<Byte>)
    requires |m| % 128 + |inp| == 128
    ensures (|m| + |inp|) % 128 == 0
    ensures Blocks(Compress, INITIAL, m + inp) == Compress(Blocks(Compress, INITIAL, Whole(m)), Left(m) + inp)
  {
    hide Compress, INITIAL, Blocks, Whole, Left;
    var w, l := Whole(m), Left(m);
    assert w + l == m;
    CatAssoc(w, l, inp);
    NextBlock(w, l + inp);
    FullCount(|m|, |inp|);
  }

  lemma FullCount(n: nat, k: nat)
    requires n % 128 + k == 128
    ensures (n + k) % 128 == 0
  {}

  lemma TailWaits(m: seq<Byte>, inp: seq<Byte>, pos: nat)
    requires pos <= |inp| < pos + 128 && (|m| + pos) % 128 == 0
    ensures Whole(m + inp) == m + inp[..pos] && Left(m + inp) == inp[pos..]
    ensures |m + inp| % 128 == |inp| - pos
  {
    MoreWaiting(|m| + pos, |inp| - pos);
    var k := |inp| - pos;
    assert (m + inp)[..|m| + pos] == m + inp[..pos];
    assert (m + inp)[|m| + pos..] == inp[pos..];
  }

  lemma {:induction false} WordBytesAppend(h: seq<Word64>, w: Word64)
    ensures WordBytes(h + [w]) == WordBytes(h) + Reversed(Digits(8, w))
    decreases |h|
  {
    hide Digits, Reversed;
    if h == [] {
      assert h + [w] == [w] && [w][1..] == [];
    } else {
      assert (h + [w])[1..] == h[1..] + [w];
      WordBytesAppend(h[1..], w);
      CatAssoc(Reversed(Digits(8, h[0])), WordBytes(h[1..]), Reversed(Digits(8, w)));
    }
  }

  /** `crypto_hash_sha512`: a message in one piece. */
  method HashMessage(out: array<Byte>, inp: seq<Byte>)
    requires out.Length == 64 && |inp| < 0x1_0000_0000_0000_0000
    modifies out
    ensures out[..] == Sha512(inp)
  {
    hide Sha512;
    var hs := new HashState();
    hs.Update(inp);
    assert [] + inp == inp;
    hs.Final(out);
  }

  function Concat(pieces: seq<seq<Byte>>): seq<Byte> {
    if pieces == [] then [] else pieces[0] + Concat(pieces[1..])
  }

  lemma {:induction false} ConcatAppend(pieces: seq<seq<Byte>>, p: seq<Byte>)
    ensures Concat(pieces + [p]) == Concat(pieces) + p
    decreases |pieces|
  {
    if pieces == [] {
      assert pieces + [p] == [p] && [p][1..] == [];
    } else {
      assert (pieces + [p])[1..] == pieces[1..] + [p];
      ConcatAppend(pieces[1..], p);
      CatAssoc(pieces[0], Concat(pieces[1..]), p);
    }
  }

  /** However a message is cut into pieces, absorbing them one by one gives the hash of the message. */
  method HashPieces(out: array<Byte>, pieces: seq<seq<Byte>>)
    requires out.Length == 64
    requires forall k :: 0 <= k < |pieces| ==> |pieces[k]| < 0x1_0000_0000_0000_0000
    modifies out
    ensures out[..] == Sha512(Concat(pieces))
  {
    hide *;
    var hs := new HashState();
    AbsorbAll(hs, pieces);
    assert [] + Concat(pieces) == Concat(pieces);
    hs.Final(out);
  }

  /** One `crypto_hash_sha512_update` after the other. */
  method AbsorbAll(hs: HashState, pieces: seq<seq<Byte>>)
    requires hs.Valid()
    requires forall k :: 0 <= k < |pieces| ==> |pieces[k]| < 0x1_0000_0000_0000_0000
    modifies hs, hs.state, hs.buf
    ensures hs.Valid() && hs.msg == old(hs.msg) + Concat(pieces)
  {
    hide *;
    ghost var m := hs.msg;
    var i := 0;
    ConcatNone(m, pieces);
    while i < |pieces|
      invariant 0 <= i <= |pieces|
      invariant hs.Valid() && hs.msg == m + Concat(pieces[..i])
    {
      ConcatStep(m, pieces, i);
      hs.Update(pieces[i]);
      i := i + 1;
    }
    assert pieces[..i] == pieces;
  }

  lemma ConcatStep(m: seq<Byte>, pieces: seq<seq<Byte>>, i: nat)
    requires i < |pieces|
    ensures m + Concat(pieces[..i]) + pieces[i] == m + Concat(pieces[..i + 1])
  {
    hide *;
    ConcatAppend(pieces[..i], pieces[i]);
    assert pieces[..i + 1] == pieces[..i] + [pieces[i]];
    CatAssoc(m, Concat(pieces[..i]), pieces[i]);
  }

  lemma ConcatNone(m: seq<Byte>, pieces: seq<seq<Byte>>)
    ensures m == m + Concat(pieces[..0])
  {
    assert pieces[..0] == [];
  }
}
