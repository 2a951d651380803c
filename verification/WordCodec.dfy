/** The loads and stores of external/VRF_functions/common.h, as they run on a machine without a native
    byte order to copy: or-ing shifted bytes together, and shifting bytes out one by one. */
module WordCodec {
  import opened Arithmetic
  import opened Bits
  import opened Bytes

  type Word32 = x: nat | x < 0x1_0000_0000
  type Word64 = x: nat | x < 0x1_0000_0000_0000_0000

  /** `x << b` in a word of `w` bits, bit by bit. */
  function Shl(w: nat, x: nat, b: nat): nat
    decreases b
  {
    if b == 0 then x % Pow2(w) else Shl(w, 2 * x, b - 1)
  }

  /** `x >> b`, bit by bit. */
  function Shr(x: nat, b: nat): (r: nat)
    ensures r <= x
  {
    if b == 0 then x else Shr(x / 2, b - 1)
  }

  /** Shifting left multiplies and drops what does not fit. */
  lemma {:induction false} ShlValue(w: nat, x: nat, b: nat)
    ensures Shl(w, x, b) == x * Pow2(b) % Pow2(w)
    decreases b
  {
    if b == 0 {
      assert x * Pow2(0) == x;
    } else {
      ShlValue(w, 2 * x, b - 1);
      Associates(x, 2, Pow2(b - 1));
    }
  }

  /** Shifting right divides. */
  lemma {:induction false} ShrValue(x: nat, b: nat)
    ensures Shr(x, b) == x / Pow2(b)
    decreases b
  {
    if b == 0 {
      assert x / 1 == x;
    } else {
      ShrValue(x / 2, b - 1);
      HalfQuotient(x, Pow2(b), Pow2(b - 1));
    }
  }

  lemma HalfQuotient(x: nat, p: nat, q: nat)
    requires p == 2 * q && q > 0
    ensures x / 2 / q == x / p
  {
    var y := x / 2;
    var t, r := y / q, y % q;
    Division(y, q);
    Doubled(p, q, t);
    RemainderIs(x, p, t, 2 * r + x % 2);
  }

  // ---------------------------------------------------------------- loads

  /** One more byte, or-ed in above the ones already there. */
  lemma LoadStep(w: nat, s: seq<Byte>, b: Byte)
    requires 8 * |s| + 8 <= w
    ensures Or(LittleEndian(s), Shl(w, b, 8 * |s|)) == LittleEndian(s + [b])
  {
    hide Pow2, Bitwise, LittleEndian;
    var p := Pow2(8 * |s|);
    LittleEndianBound(s);
    LittleEndianAppend(s, [b]);
    OneByte(b);
    OrIsAdd(8 * |s|, LittleEndian(s), b);
    ByteFits(w, b, 8 * |s|);
  }

  lemma OneByte(b: Byte)
    ensures LittleEndian([b]) == b
  {
    assert [b][1..] == [];
  }

  lemma ByteFits(w: nat, b: Byte, k: nat)
    requires k + 8 <= w
    ensures Shl(w, b, k) == Pow2(k) * b
  {
    hide Pow2, Shl;
    Pow2Add(k, 8);
    Pow2Byte();
    Pow2Monotonic(k + 8, w);
    ShlValue(w, b, k);
    assert b * Pow2(k) == Pow2(k) * b;
    assert b * Pow2(k) < 256 * Pow2(k);
    SmallRemainder(b * Pow2(k), Pow2(w));
  }

  lemma SmallRemainder(x: nat, p: nat)
    requires x < p
    ensures x % p == x
  {}

  lemma {:induction false} Pow2Monotonic(m: nat, n: nat)
    requires m <= n
    ensures Pow2(m) <= Pow2(n)
    decreases n - m
  {
    if m < n {
      Pow2Monotonic(m + 1, n);
    }
  }

  lemma LittleEndianFits(s: seq<Byte>)
    requires |s| <= 8
    ensures LittleEndian(s) < 0x1_0000_0000_0000_0000
    ensures |s| <= 4 ==> LittleEndian(s) < 0x1_0000_0000
  {
    hide Pow2, LittleEndian;
    LittleEndianBound(s);
    Pow2Words();
    Pow2Monotonic(8 * |s|, 64);
    if |s| <= 4 {
      Pow2Monotonic(8 * |s|, 32);
    }
  }

  /** The state of a load after its first `k` bytes: the word and the bytes it holds. */
  lemma LoadPrefix(w: nat, s: seq<Byte>, k: nat)
    requires k < |s| && 8 * |s| <= w
    ensures Or(LittleEndian(s[..k]), Shl(w, s[k], 8 * k)) == LittleEndian(s[..k + 1])
    ensures |s| <= 8 ==> LittleEndian(s[..k + 1]) < 0x1_0000_0000_0000_0000
    ensures |s| <= 4 ==> LittleEndian(s[..k + 1]) < 0x1_0000_0000
  {
    hide Pow2, Bitwise, LittleEndian, Shl;
    assert s[..k + 1] == s[..k] + [s[k]];
    LoadStep(w, s[..k], s[k]);
    if |s| <= 8 {
      LittleEndianFits(s[..k + 1]);
    }
  }

  lemma FirstByte(s: seq<Byte>)
    requires s != []
    ensures LittleEndian(s[..1]) == s[0]
  {
    assert s[..1] == [s[0]];
    OneByte(s[0]);
  }

  method Load64LE(src: seq<Byte>) returns (w: Word64)
    requires |src| == 8
    ensures w == LittleEndian(src)
  {
    hide *;
    FirstByte(src);
    LoadPrefix(64, src, 1);
    LoadPrefix(64, src, 2);
    LoadPrefix(64, src, 3);
    LoadPrefix(64, src, 4);
    LoadPrefix(64, src, 5);
    LoadPrefix(64, src, 6);
    LoadPrefix(64, src, 7);
    assert src[..8] == src;
    w := src[0];
    w := Or(w, Shl(64, src[1], 8));
    w := Or(w, Shl(64, src[2], 16));
    w := Or(w, Shl(64, src[3], 24));
    w := Or(w, Shl(64, src[4], 32));
    w := Or(w, Shl(64, src[5], 40));
    w := Or(w, Shl(64, src[6], 48));
    w := Or(w, Shl(64, src[7], 56));
  }

  method Load32LE(src: seq<Byte>) returns (w: Word32)
    requires |src| == 4
    ensures w == LittleEndian(src)
  {
    hide *;
    FirstByte(src);
    LoadPrefix(32, src, 1);
    LoadPrefix(32, src, 2);
    LoadPrefix(32, src, 3);
    assert src[..4] == src;
    w := src[0];
    w := Or(w, Shl(32, src[1], 8));
    w := Or(w, Shl(32, src[2], 16));
    w := Or(w, Shl(32, src[3], 24));
  }

  method Load64BE(src: seq<Byte>) returns (w: Word64)
    requires |src| == 8
    ensures w == BigEndian(src)
  {
    hide *;
    ghost var r := Reversed(src);
    BigEndianIsReversed(src);
    FirstByte(r);
    LoadPrefix(64, r, 1);
    LoadPrefix(64, r, 2);
    LoadPrefix(64, r, 3);
    LoadPrefix(64, r, 4);
    LoadPrefix(64, r, 5);
    LoadPrefix(64, r, 6);
    LoadPrefix(64, r, 7);
    assert r[..8] == r;
    w := src[7];
    w := Or(w, Shl(64, src[6], 8));
    w := Or(w, Shl(64, src[5], 16));
    w := Or(w, Shl(64, src[4], 24));
    w := Or(w, Shl(64, src[3], 32));
    w := Or(w, Shl(64, src[2], 40));
    w := Or(w, Shl(64, src[1], 48));
    w := Or(w, Shl(64, src[0], 56));
  }

  method Load32BE(src: seq<Byte>) returns (w: Word32)
    requires |src| == 4
    ensures w == BigEndian(src)
  {
    hide *;
    ghost var r := Reversed(src);
    BigEndianIsReversed(src);
    FirstByte(r);
    LoadPrefix(32, r, 1);
    LoadPrefix(32, r, 2);
    LoadPrefix(32, r, 3);
    assert r[..4] == r;
    w := src[3];
    w := Or(w, Shl(32, src[2], 8));
    w := Or(w, Shl(32, src[1], 16));
    w := Or(w, Shl(32, src[0], 24));
  }

  // ---------------------------------------------------------------- stores

  lemma ShrByte(x: nat)
    ensures Shr(x, 8) == x / 256
  {
    hide Shr, Pow2;
    ShrValue(x, 8);
    Pow2Byte();
  }

  lemma DigitsStep(n: nat, x: nat)
    requires n > 0
    ensures Digits(n, x) == [x % 256] + Digits(n - 1, Shr(x, 8))
  {
    ShrByte(x);
  }

  lemma Digits4(x: nat)
    ensures
      var x1 := Shr(x, 8);
      var x2 := Shr(x1, 8);
      Digits(4, x) == [x % 256, x1 % 256, x2 % 256, Shr(x2, 8) % 256]
  {
    hide Digits, Shr;
    var x1 := Shr(x, 8);
    var x2 := Shr(x1, 8);
    var x3 := Shr(x2, 8);
    DigitsStep(4, x);
    DigitsStep(3, x1);
    DigitsStep(2, x2);
    DigitsStep(1, x3);
    assert Digits(0, Shr(x3, 8)) == [];
  }

  lemma Digits8(x: nat)
    ensures
      var x1 := Shr(x, 8);
      var x2 := Shr(x1, 8);
      var x3 := Shr(x2, 8);
      var x4 := Shr(x3, 8);
      var x5 := Shr(x4, 8);
      var x6 := Shr(x5, 8);
      Digits(8, x) == [x % 256, x1 % 256, x2 % 256, x3 % 256, x4 % 256, x5 % 256, x6 % 256, Shr(x6, 8) % 256]
  {
    hide Digits, Shr;
    var x1 := Shr(x, 8);
    var x2 := Shr(x1, 8);
    var x3 := Shr(x2, 8);
    var x4 := Shr(x3, 8);
    DigitsStep(8, x);
    DigitsStep(7, x1);
    DigitsStep(6, x2);
    DigitsStep(5, x3);
    Digits4(x4);
  }

  /** `src` written into `dst` from `o` on. */
  ghost predicate Wrote(dst: array<Byte>, before: seq<Byte>, o: nat, src: seq<Byte>)
    reads dst
  {
    && dst.Length == |before| && o + |src| <= |before|
    && dst[..] == before[..o] + src + before[o + |src|..]
  }

  lemma WroteLE(dst: array<Byte>, before: seq<Byte>, o: nat, s: seq<Byte>)
    requires dst.Length == |before| && o + |s| <= |before|
    requires forall k :: 0 <= k < |before| && !(o <= k < o + |s|) ==> dst[k] == before[k]
    requires forall k :: 0 <= k < |s| ==> dst[o + k] == s[k]
    ensures Wrote(dst, before, o, s)
  {}

  lemma WroteBE(dst: array<Byte>, before: seq<Byte>, o: nat, s: seq<Byte>)
    requires dst.Length == |before| && o + |s| <= |before|
    requires forall k :: 0 <= k < |before| && !(o <= k < o + |s|) ==> dst[k] == before[k]
    requires forall k :: 0 <= k < |s| ==> dst[o + |s| - 1 - k] == s[k]
    ensures Wrote(dst, before, o, Reversed(s))
  {
    hide Reversed;
    forall k | 0 <= k < |s|
      ensures dst[o + k] == Reversed(s)[k]
    {
      assert dst[o + |s| - 1 - (|s| - 1 - k)] == s[|s| - 1 - k];
    }
    WroteLE(dst, before, o, Reversed(s));
  }

  method Store64LE(dst: array<Byte>, o: nat, word: Word64)
    requires o + 8 <= dst.Length
    modifies dst
    ensures Wrote(dst, old(dst[..]), o, Digits(8, word))
  {
    hide *;
    ghost var before := dst[..];
    Digits8(word);
    var w: nat := word;
    dst[o + 0] := w % 256;
    w := Shr(w, 8);
    dst[o + 1] := w % 256;
    w := Shr(w, 8);
    dst[o + 2] := w % 256;
    w := Shr(w, 8);
    dst[o + 3] := w % 256;
    w := Shr(w, 8);
    dst[o + 4] := w % 256;
    w := Shr(w, 8);
    dst[o + 5] := w % 256;
    w := Shr(w, 8);
    dst[o + 6] := w % 256;
    w := Shr(w, 8);
    dst[o + 7] := w % 256;
    WroteLE(dst, before, o, Digits(8, word));
  }

  method Store32LE(dst: array<Byte>, o: nat, word: Word32)
    requires o + 4 <= dst.Length
    modifies dst
    ensures Wrote(dst, old(dst[..]), o, Digits(4, word))
  {
    hide *;
    ghost var before := dst[..];
    Digits4(word);
    var w: nat := word;
    dst[o + 0] := w % 256;
    w := Shr(w, 8);
    dst[o + 1] := w % 256;
    w := Shr(w, 8);
    dst[o + 2] := w % 256;
    w := Shr(w, 8);
    dst[o + 3] := w % 256;
    WroteLE(dst, before, o, Digits(4, word));
  }

  method Store64BE(dst: array<Byte>, o: nat, word: Word64)
    requires o + 8 <= dst.Length
    modifies dst
    ensures Wrote(dst, old(dst[..]), o, Reversed(Digits(8, word)))
  {
    hide *;
    ghost var before := dst[..];
    Digits8(word);
    var w: nat := word;
    dst[o + 7] := w % 256;
    w := Shr(w, 8);
    dst[o + 6] := w % 256;
    w := Shr(w, 8);
    dst[o + 5] := w % 256;
    w := Shr(w, 8);
    dst[o + 4] := w % 256;
    w := Shr(w, 8);
    dst[o + 3] := w % 256;
    w := Shr(w, 8);
    dst[o + 2] := w % 256;
    w := Shr(w, 8);
    dst[o + 1] := w % 256;
    w := Shr(w, 8);
    dst[o + 0] := w % 256;
    WroteBE(dst, before, o, Digits(8, word));
  }

  method Store32BE(dst: array<Byte>, o: nat, word: Word32)
    requires o + 4 <= dst.Length
    modifies dst
    ensures Wrote(dst, old(dst[..]), o, Reversed(Digits(4, word)))
  {
    hide *;
    ghost var before := dst[..];
    Digits4(word);
    var w: nat := word;
    dst[o + 3] := w % 256;
    w := Shr(w, 8);
    dst[o + 2] := w % 256;
    w := Shr(w, 8);
    dst[o + 1] := w % 256;
    w := Shr(w, 8);
    dst[o + 0] := w % 256;
    WroteBE(dst, before, o, Digits(4, word));
  }
}
