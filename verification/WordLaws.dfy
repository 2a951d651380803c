/** What the loads and stores of WordCodec compute: inverse pairs, in both byte orders and at both widths. */
module WordLaws {
  import opened Bits
  import opened Bytes
  import opened WordCodec

  lemma WidthsOf64()
    ensures Pow2(8 * 4) == 0x1_0000_0000 && Pow2(8 * 8) == 0x1_0000_0000_0000_0000
  {
    hide Pow2;
    Pow2Words();
  }

  /** A word that is stored and loaded again is the same word, in either byte order. */
  lemma StoreThenLoad(n: nat, w: nat)
    requires n == 4 || n == 8
    requires w < Pow2(8 * n)
    ensures LittleEndian(Digits(n, w)) == w
    ensures BigEndian(Reversed(Digits(n, w))) == w
  {
    hide Pow2, Digits, LittleEndian, BigEndian, Reversed;
    ValueOfDigits(n, w);
    BigEndianIsReversed(Reversed(Digits(n, w)));
    ReversedTwice(Digits(n, w));
  }

  /** Bytes that are loaded and stored again are the same bytes, in either byte order. */
  lemma LoadThenStore(s: seq<Byte>)
    ensures Digits(|s|, LittleEndian(s)) == s
    ensures Reversed(Digits(|s|, BigEndian(s))) == s
  {
    hide Digits, LittleEndian, BigEndian, Reversed;
    DigitsOfValue(s);
    BigEndianIsReversed(s);
    DigitsOfValue(Reversed(s));
    ReversedTwice(s);
  }

  /** A 64-bit load is its two 32-bit loads, combined in the order of the bytes. */
  lemma LoadHalves(s: seq<Byte>)
    requires |s| == 8
    ensures LittleEndian(s) == LittleEndian(s[..4]) + 0x1_0000_0000 * LittleEndian(s[4..])
    ensures BigEndian(s) == 0x1_0000_0000 * BigEndian(s[..4]) + BigEndian(s[4..])
  {
    hide Pow2, LittleEndian, BigEndian, Reversed;
    WidthsOf64();
    assert s == s[..4] + s[4..];
    LittleEndianAppend(s[..4], s[4..]);
    BigEndianIsReversed(s);
    BigEndianIsReversed(s[..4]);
    BigEndianIsReversed(s[4..]);
    assert Reversed(s) == Reversed(s[4..]) + Reversed(s[..4]);
    LittleEndianAppend(Reversed(s[4..]), Reversed(s[..4]));
  }

  /** A 64-bit store is its two 32-bit stores side by side, in the order of the bytes. */
  lemma StoreHalves(lo: Word32, hi: Word32)
    ensures Digits(8, lo + 0x1_0000_0000 * hi) == Digits(4, lo) + Digits(4, hi)
    ensures Reversed(Digits(8, lo + 0x1_0000_0000 * hi)) == Reversed(Digits(4, hi)) + Reversed(Digits(4, lo))
  {
    hide Pow2, Digits, Reversed;
    WidthsOf64();
    DigitsJoin(4, 4, lo, hi);
    assert Reversed(Digits(4, lo) + Digits(4, hi)) == Reversed(Digits(4, hi)) + Reversed(Digits(4, lo));
  }
}
