/** `xor_buf` of external/VRF_functions/common.h.  Its two pointers may point anywhere, also into the same
    buffer, so the model runs it on one memory with two offsets. */
module XorBuffer {
  import opened Bits
  import opened Bytes

  lemma XorByteFits(a: Byte, b: Byte)
    ensures Xor(a, b) < 256
  {
    hide Bitwise, Pow2;
    Pow2Byte();
    BitwiseBound(XorOp, 8, a, b);
  }

  function XorByte(a: Byte, b: Byte): Byte {
    XorByteFits(a, b);
    Xor(a, b)
  }

  ghost predicate InBounds(mem: seq<Byte>, out: nat, inp: nat, n: nat) {
    out + n <= |mem| && inp + n <= |mem|
  }

  /** The memory after `n` steps of the loop. */
  ghost function XorBuf(mem: seq<Byte>, out: nat, inp: nat, n: nat): (r: seq<Byte>)
    requires InBounds(mem, out, inp, n)
    ensures |r| == |mem|
  {
    if n == 0 then mem
    else
      var m := XorBuf(mem, out, inp, n - 1);
      m[out + n - 1 := XorByte(m[out + n - 1], m[inp + n - 1])]
  }

  method XorBuffer(mem: array<Byte>, out: nat, inp: nat, n: nat)
    requires out + n <= mem.Length && inp + n <= mem.Length
    modifies mem
    ensures mem[..] == XorBuf(old(mem[..]), out, inp, n)
  {
    hide XorByte;
    var i := 0;
    while i < n
      invariant 0 <= i <= n
      invariant mem[..] == XorBuf(old(mem[..]), out, inp, i)
    {
      ghost var before := mem[..];
      mem[out + i] := XorByte(mem[out + i], mem[inp + i]);
      assert mem[..] == before[out + i := XorByte(before[out + i], before[inp + i])];
      i := i + 1;
    }
  }

  // ---------------------------------------------------------------- the output behind the input

  /** The exclusive or of the bytes at `p`, `p - d`, `p - 2d`, ... as far down as `lo`. */
  ghost function Chain(mem: seq<Byte>, lo: nat, d: nat, p: nat): Byte
    requires d > 0 && lo <= p < |mem|
  {
    if p < lo + d then mem[p] else XorByte(mem[p], Chain(mem, lo, d, p - d))
  }

  /** With the output `d > 0` bytes after the input, every step may read what an earlier step wrote:
      each byte collects the original bytes at all distances that are multiples of `d`. */
  lemma {:induction false} XorBufForward(mem: seq<Byte>, out: nat, inp: nat, n: nat, p: nat)
    requires InBounds(mem, out, inp, n) && inp < out && p < |mem|
    ensures XorBuf(mem, out, inp, n)[p] == if out <= p < out + n then Chain(mem, inp, out - inp, p) else mem[p]
    decreases n
  {
    hide XorByte;
    if n > 0 {
      XorBufForward(mem, out, inp, n - 1, p);
      if p == out + n - 1 {
        XorBufForward(mem, out, inp, n - 1, p - (out - inp));
      }
    }
  }

  // ---------------------------------------------------------------- the output in front of the input

  /** With the input at or after the output, every step reads an original byte. */
  lemma {:induction false} XorBufBackward(mem: seq<Byte>, out: nat, inp: nat, n: nat, p: nat)
    requires InBounds(mem, out, inp, n) && out <= inp && p < |mem|
    ensures XorBuf(mem, out, inp, n)[p]
         == if out <= p < out + n then XorByte(mem[p], mem[p + (inp - out)]) else mem[p]
    decreases n
  {
    hide XorByte;
    if n > 0 {
      XorBufBackward(mem, out, inp, n - 1, p);
      if p == out + n - 1 {
        XorBufBackward(mem, out, inp, n - 1, inp + n - 1);
      }
    }
  }

  lemma XorBufSelf(mem: seq<Byte>, out: nat, n: nat, p: nat)
    requires out + n <= |mem| && out <= p < out + n
    ensures XorBuf(mem, out, out, n)[p] == 0
  {
    XorBufBackward(mem, out, out, n, p);
    XorSelf(mem[p]);
  }

  // ---------------------------------------------------------------- disjoint buffers

  ghost predicate Disjoint(out: nat, inp: nat, n: nat) { out + n <= inp || inp + n <= out }

  lemma XorBufDisjoint(mem: seq<Byte>, out: nat, inp: nat, n: nat, p: nat)
    requires InBounds(mem, out, inp, n) && Disjoint(out, inp, n) && p < |mem|
    ensures XorBuf(mem, out, inp, n)[p]
         == if out <= p < out + n then XorByte(mem[p], mem[inp + (p - out)]) else mem[p]
  {
    hide XorByte, XorBuf;
    if inp < out {
      XorBufForward(mem, out, inp, n, p);
    } else {
      XorBufBackward(mem, out, inp, n, p);
    }
  }

  lemma XorCancels(a: Byte, b: Byte)
    ensures XorByte(XorByte(a, b), b) == a
  {
    hide Bitwise;
    XorAssociates(a, b, b);
    XorSelf(b);
    OrZero(a);
  }

  lemma TwiceRestores(mem: seq<Byte>, out: nat, inp: nat, n: nat)
    requires InBounds(mem, out, inp, n) && Disjoint(out, inp, n)
    ensures XorBuf(XorBuf(mem, out, inp, n), out, inp, n) == mem
  {
    hide XorByte, XorBuf;
    var once := XorBuf(mem, out, inp, n);
    var twice := XorBuf(once, out, inp, n);
    forall p | 0 <= p < |mem|
      ensures twice[p] == mem[p]
    {
      XorBufDisjoint(once, out, inp, n, p);
      XorBufDisjoint(mem, out, inp, n, p);
      if out <= p < out + n {
        XorBufDisjoint(mem, out, inp, n, inp + (p - out));
        XorCancels(mem[p], mem[inp + (p - out)]);
      }
    }
  }

  /** A memory of zeros with a one at `q`. */
  function OneAt(len: nat, q: nat): (mem: seq<Byte>)
    ensures |mem| == len
    ensures forall p :: 0 <= p < len ==> mem[p] == if p == q then 1 else 0
  {
    seq(len, p => if p == q then 1 else 0)
  }

  lemma SmallXors()
    ensures XorByte(0, 0) == 0 && XorByte(0, 1) == 1 && XorByte(1, 0) == 1 && XorByte(1, 1) == 0
  {
    assert Xor(0, 0) == 0 && Xor(0, 1) == 1 && Xor(1, 0) == 1 && Xor(1, 1) == 0;
  }

  /** Over overlapping buffers the second pass does not undo the first: a memory for which it fails. */
  lemma TwiceFails(len: nat, out: nat, inp: nat, n: nat) returns (mem: seq<Byte>)
    requires out + n <= len && inp + n <= len && n > 0 && !Disjoint(out, inp, n)
    ensures |mem| == len && XorBuf(XorBuf(mem, out, inp, n), out, inp, n) != mem
  {
    hide XorByte, XorBuf;
    SmallXors();
    if out == inp {
      mem := OneAt(len, out);
      var once := XorBuf(mem, out, inp, n);
      XorBufBackward(once, out, inp, n, out);
      XorBufBackward(mem, out, inp, n, out);
    } else if out < inp {
      var d := inp - out;
      mem := OneAt(len, inp + d);
      var once := XorBuf(mem, out, inp, n);
      XorBufBackward(mem, out, inp, n, out);
      XorBufBackward(mem, out, inp, n, inp);
      XorBufBackward(once, out, inp, n, out);
    } else {
      var d := out - inp;
      mem := OneAt(len, inp);
      var once := XorBuf(mem, out, inp, n);
      XorBufForward(mem, out, inp, n, inp);
      XorBufForward(mem, out, inp, n, out);
      XorBufForward(mem, out, inp, n, out + d);
      XorBufForward(once, out, inp, n, out + d);
      ChainOf3(mem, inp, d, out + d);
      ChainOf3(once, inp, d, out + d);
    }
  }

  lemma ChainOf3(mem: seq<Byte>, lo: nat, d: nat, p: nat)
    requires d > 0 && p == lo + 2 * d && p < |mem|
    ensures Chain(mem, lo, d, p) == XorByte(mem[p], XorByte(mem[p - d], mem[p - 2 * d]))
    ensures Chain(mem, lo, d, p - d) == XorByte(mem[p - d], mem[p - 2 * d])
  {
    hide XorByte;
    assert Chain(mem, lo, d, lo) == mem[lo];
    assert Chain(mem, lo, d, lo + d) == XorByte(mem[lo + d], Chain(mem, lo, d, lo + d - d));
    assert p - d == lo + d && lo + d - d == lo;
  }

  /** Running `xor_buf` twice restores every memory if and only if the buffers do not overlap. */
  lemma TwiceRestoresExactly(len: nat, out: nat, inp: nat, n: nat)
    requires out + n <= len && inp + n <= len
    ensures (forall mem: seq<Byte> :: |mem| == len ==> XorBuf(XorBuf(mem, out, inp, n), out, inp, n) == mem)
       <==> n == 0 || Disjoint(out, inp, n)
  {
    if n == 0 || Disjoint(out, inp, n) {
      forall mem: seq<Byte> | |mem| == len
        ensures XorBuf(XorBuf(mem, out, inp, n), out, inp, n) == mem
      {
        if n > 0 {
          TwiceRestores(mem, out, inp, n);
        }
      }
    } else {
      var mem := TwiceFails(len, out, inp, n);
    }
  }

  // ---------------------------------------------------------------- several masks

  ghost predicate MasksInBounds(mem: seq<Byte>, out: nat, masks: seq<nat>, n: nat) {
    out + n <= |mem| && forall k :: 0 <= k < |masks| ==> masks[k] + n <= |mem| && Disjoint(out, masks[k], n)
  }

  /** `xor_buf` with each of the masks in turn. */
  ghost function XorMasks(mem: seq<Byte>, out: nat, masks: seq<nat>, n: nat): (r: seq<Byte>)
    requires MasksInBounds(mem, out, masks, n)
    ensures |r| == |mem|
    decreases |masks|
  {
    if masks == [] then mem else XorMasks(XorBuf(mem, out, masks[0], n), out, masks[1..], n)
  }

  /** The exclusive or of the masks' bytes at `k`. */
  ghost function MaskByte(mem: seq<Byte>, masks: seq<nat>, k: nat): Byte
    requires forall j :: 0 <= j < |masks| ==> masks[j] + k < |mem|
  {
    if masks == [] then 0 else XorByte(mem[masks[0] + k], MaskByte(mem, masks[1..], k))
  }

  lemma {:induction false} MaskByteSame(mem: seq<Byte>, mem': seq<Byte>, masks: seq<nat>, k: nat)
    requires |mem| == |mem'|
    requires forall j :: 0 <= j < |masks| ==> masks[j] + k < |mem| && mem[masks[j] + k] == mem'[masks[j] + k]
    ensures MaskByte(mem, masks, k) == MaskByte(mem', masks, k)
  {
    hide XorByte;
    if masks != [] {
      MaskByteSame(mem, mem', masks[1..], k);
    }
  }

  lemma {:induction false} XorMasksByte(mem: seq<Byte>, out: nat, masks: seq<nat>, n: nat, p: nat)
    requires MasksInBounds(mem, out, masks, n) && p < |mem|
    ensures XorMasks(mem, out, masks, n)[p]
         == if out <= p < out + n then XorByte(mem[p], MaskByte(mem, masks, p - out)) else mem[p]
    decreases |masks|
  {
    hide XorByte, XorBuf;
    if masks == [] {
      XorWithZero(mem[p]);
    } else {
      var next := XorBuf(mem, out, masks[0], n);
      XorBufDisjoint(mem, out, masks[0], n, p);
      XorMasksByte(next, out, masks[1..], n, p);
      if out <= p < out + n {
        var k := p - out;
        forall j | 0 <= j < |masks[1..]|
          ensures next[masks[1..][j] + k] == mem[masks[1..][j] + k]
        {
          XorBufDisjoint(mem, out, masks[0], n, masks[1..][j] + k);
        }
        MaskByteSame(next, mem, masks[1..], k);
        XorByteAssociates(mem[p], mem[masks[0] + k], MaskByte(mem, masks[1..], k));
      }
    }
  }

  lemma XorWithZero(a: Byte)
    ensures XorByte(a, 0) == a
  {
    OrZero(a);
  }

  lemma XorByteAssociates(a: Byte, b: Byte, c: Byte)
    ensures XorByte(XorByte(a, b), c) == XorByte(a, XorByte(b, c))
  {
    hide Bitwise;
    XorAssociates(a, b, c);
  }

  lemma XorByteSwaps(a: Byte, b: Byte, c: Byte)
    ensures XorByte(a, XorByte(b, c)) == XorByte(b, XorByte(a, c))
  {
    hide Bitwise;
    XorAssociates(a, b, c);
    XorAssociates(b, a, c);
    XorCommutes(a, b);
  }

  /** A mask may be taken from anywhere in the list. */
  lemma {:induction false} MaskByteRemove(mem: seq<Byte>, masks: seq<nat>, k: nat, j: nat)
    requires forall i :: 0 <= i < |masks| ==> masks[i] + k < |mem|
    requires j < |masks|
    ensures MaskByte(mem, masks, k) == XorByte(mem[masks[j] + k], MaskByte(mem, masks[..j] + masks[j + 1..], k))
    decreases |masks|
  {
    hide XorByte;
    var rest := masks[..j] + masks[j + 1..];
    if j == 0 {
      assert rest == masks[1..];
    } else {
      assert rest[0] == masks[0] && rest[1..] == masks[1..][..j - 1] + masks[1..][j..];
      MaskByteRemove(mem, masks[1..], k, j - 1);
      XorByteSwaps(mem[masks[0] + k], mem[masks[j] + k], MaskByte(mem, rest[1..], k));
    }
  }

  lemma {:induction false} MaskByteAnyOrder(mem: seq<Byte>, masks: seq<nat>, masks': seq<nat>, k: nat)
    requires forall i :: 0 <= i < |masks| ==> masks[i] + k < |mem|
    requires forall i :: 0 <= i < |masks'| ==> masks'[i] + k < |mem|
    requires multiset(masks) == multiset(masks')
    ensures MaskByte(mem, masks, k) == MaskByte(mem, masks', k)
    decreases |masks|
  {
    hide XorByte;
    if masks == [] {
      assert |masks'| == |multiset(masks')| == 0;
    } else {
      var j := PullOut(masks, masks');
      MaskByteRemove(mem, masks', k, j);
      MaskByteAnyOrder(mem, masks[1..], masks'[..j] + masks'[j + 1..], k);
    }
  }

  lemma PullOut(s: seq<nat>, t: seq<nat>) returns (j: nat)
    requires s != [] && multiset(s) == multiset(t)
    ensures j < |t| && t[j] == s[0] && multiset(s[1..]) == multiset(t[..j] + t[j + 1..])
  {
    assert s[0] in multiset(t);
    j :| 0 <= j < |t| && t[j] == s[0];
    var a, b := t[..j], t[j + 1..];
    assert t == a + [t[j]] + b;
    assert s == [s[0]] + s[1..];
    assert multiset(t) == multiset(a) + multiset{s[0]} + multiset(b);
    assert multiset(s) == multiset{s[0]} + multiset(s[1..]);
    assert multiset(a + b) == multiset(a) + multiset(b);
    assert multiset(s[1..]) == multiset(s) - multiset{s[0]};
    assert multiset(a + b) == multiset(t) - multiset{s[0]};
  }

  /** The order in which masks are applied does not matter. */
  lemma MasksAnyOrder(mem: seq<Byte>, out: nat, masks: seq<nat>, masks': seq<nat>, n: nat)
    requires MasksInBounds(mem, out, masks, n) && MasksInBounds(mem, out, masks', n)
    requires multiset(masks) == multiset(masks')
    ensures XorMasks(mem, out, masks, n) == XorMasks(mem, out, masks', n)
  {
    hide XorByte, XorMasks, MaskByte;
    forall p | 0 <= p < |mem|
      ensures XorMasks(mem, out, masks, n)[p] == XorMasks(mem, out, masks', n)[p]
    {
      XorMasksByte(mem, out, masks, n, p);
      XorMasksByte(mem, out, masks', n, p);
      if out <= p < out + n {
        MaskByteAnyOrder(mem, masks, masks', p - out);
      }
    }
  }

  /** Applying the same masks again restores the memory. */
  lemma MasksTwice(mem: seq<Byte>, out: nat, masks: seq<nat>, n: nat)
    requires MasksInBounds(mem, out, masks, n)
    ensures XorMasks(XorMasks(mem, out, masks, n), out, masks, n) == mem
  {
    hide XorByte, XorMasks, MaskByte;
    var once := XorMasks(mem, out, masks, n);
    var twice := XorMasks(once, out, masks, n);
    forall p | 0 <= p < |mem|
      ensures twice[p] == mem[p]
    {
      XorMasksByte(mem, out, masks, n, p);
      XorMasksByte(once, out, masks, n, p);
      if out <= p < out + n {
        var k := p - out;
        forall j | 0 <= j < |masks|
          ensures once[masks[j] + k] == mem[masks[j] + k]
        {
          XorMasksByte(mem, out, masks, n, masks[j] + k);
        }
        MaskByteSame(once, mem, masks, k);
        XorCancels(mem[p], MaskByte(mem, masks, k));
      }
    }
  }

  // ---------------------------------------------------------------- words

  function XorBytes(s: seq<Byte>, t: seq<Byte>): (r: seq<Byte>)
    requires |s| == |t|
    ensures |r| == |s|
  {
    seq(|s|, k requires 0 <= k < |s| => XorByte(s[k], t[k]))
  }

  lemma {:induction false} XorOfWords(s: seq<Byte>, t: seq<Byte>)
    requires |s| == |t|
    ensures LittleEndian(XorBytes(s, t)) == Xor(LittleEndian(s), LittleEndian(t))
    decreases |s|
  {
    hide Bitwise, Pow2;
    var r := XorBytes(s, t);
    if s == [] {
      BitwiseOfZeros(XorOp);
    } else {
      assert r[1..] == XorBytes(s[1..], t[1..]);
      XorOfWords(s[1..], t[1..]);
      Pow2Byte();
      BitwiseSplit(XorOp, 8, s[0], t[0], LittleEndian(s[1..]), LittleEndian(t[1..]));
    }
  }

  /** Over disjoint buffers, the word at any place of the output ends as the exclusive or of the two words
      that were there, whichever byte order they are read in. */
  lemma XorBufWords(mem: seq<Byte>, out: nat, inp: nat, n: nat, o: nat, size: nat)
    requires InBounds(mem, out, inp, n) && Disjoint(out, inp, n) && o + size <= n
    ensures var r := XorBuf(mem, out, inp, n);
      var w, a, b := r[out + o..out + o + size], mem[out + o..out + o + size], mem[inp + o..inp + o + size];
      && LittleEndian(w) == Xor(LittleEndian(a), LittleEndian(b))
      && BigEndian(w) == Xor(BigEndian(a), BigEndian(b))
  {
    hide Bitwise, XorBuf, XorByte, LittleEndian, BigEndian, Reversed;
    var r := XorBuf(mem, out, inp, n);
    var w, a, b := r[out + o..out + o + size], mem[out + o..out + o + size], mem[inp + o..inp + o + size];
    forall k | 0 <= k < size
      ensures w[k] == XorByte(a[k], b[k])
    {
      XorBufDisjoint(mem, out, inp, n, out + o + k);
    }
    assert w == XorBytes(a, b);
    XorOfWords(a, b);
    assert Reversed(w) == XorBytes(Reversed(a), Reversed(b));
    XorOfWords(Reversed(a), Reversed(b));
    BigEndianIsReversed(w);
    BigEndianIsReversed(a);
    BigEndianIsReversed(b);
  }
}
