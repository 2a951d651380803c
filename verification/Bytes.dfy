/** Byte strings as numbers in base 256. */
module Bytes {
  import opened Arithmetic
  import opened Bits

  type Byte = x: nat | x < 256

  /** The number whose base-256 digits are `s`, the lowest first. */
  function LittleEndian(s: seq<Byte>): nat {
    if s == [] then 0 else s[0] + 256 * LittleEndian(s[1..])
  }

  /** The number whose base-256 digits are `s`, the highest first. */
  function BigEndian(s: seq<Byte>): nat {
    if s == [] then 0 else BigEndian(s[..|s| - 1]) * 256 + s[|s| - 1]
  }

  /** The `n` lowest base-256 digits of `x`, the lowest first. */
  function Digits(n: nat, x: nat): (s: seq<Byte>)
    ensures |s| == n
  {
    if n == 0 then [] else [x % 256] + Digits(n - 1, x / 256)
  }

  function Reversed<T>(s: seq<T>): (r: seq<T>)
    ensures |r| == |s|
    ensures forall k :: 0 <= k < |s| ==> r[k] == s[|s| - 1 - k]
  {
    if s == [] then [] else Reversed(s[1..]) + [s[0]]
  }

  lemma ReversedTwice<T>(s: seq<T>)
    ensures Reversed(Reversed(s)) == s
  {
    hide Reversed;
  }

  lemma ReversedInit<T>(s: seq<T>)
    requires s != []
    ensures Reversed(s)[0] == s[|s| - 1] && Reversed(s)[1..] == Reversed(s[..|s| - 1])
  {
    hide Reversed;
    var r := Reversed(s);
    assert forall k :: 0 <= k < |s| - 1 ==> r[1..][k] == s[..|s| - 1][|s| - 2 - k];
  }

  lemma Pow2Bytes(n: nat)
    ensures Pow2(8 * (n + 1)) == 256 * Pow2(8 * n)
  {
    hide Pow2;
    Pow2Add(8, 8 * n);
    Pow2Byte();
  }

  lemma {:induction false} LittleEndianBound(s: seq<Byte>)
    ensures LittleEndian(s) < Pow2(8 * |s|)
  {
    hide Pow2;
    if s != [] {
      LittleEndianBound(s[1..]);
      Pow2Bytes(|s| - 1);
    }
  }

  lemma {:induction false} LittleEndianAppend(s: seq<Byte>, t: seq<Byte>)
    ensures LittleEndian(s + t) == LittleEndian(s) + Pow2(8 * |s|) * LittleEndian(t)
    decreases |s|
  {
    if s == [] {
      assert s + t == t;
      assert Pow2(0) * LittleEndian(t) == LittleEndian(t);
    } else {
      assert (s + t)[1..] == s[1..] + t;
      LittleEndianAppend(s[1..], t);
      Pow2Bytes(|s| - 1);
      TimesByte(Pow2(8 * |s|), Pow2(8 * (|s| - 1)), LittleEndian(t));
    }
  }

  lemma TimesByte(p: nat, q: nat, x: nat)
    requires p == 256 * q
    ensures p * x == 256 * (q * x)
  {
    Associates(256, q, x);
  }

  lemma {:induction false} BigEndianIsReversed(s: seq<Byte>)
    ensures BigEndian(s) == LittleEndian(Reversed(s))
    decreases |s|
  {
    hide Reversed;
    if s != [] {
      ReversedInit(s);
      BigEndianIsReversed(s[..|s| - 1]);
    }
  }

  /** Writing the digits of a number and reading them gives the number, up to the digits kept. */
  lemma {:induction false} ValueOfDigits(n: nat, x: nat)
    requires x < Pow2(8 * n)
    ensures LittleEndian(Digits(n, x)) == x
    decreases n
  {
    if n > 0 {
      Pow2Bytes(n - 1);
      ValueOfDigits(n - 1, x / 256);
      assert Digits(n, x)[1..] == Digits(n - 1, x / 256);
    }
  }

  /** Reading a byte string and writing its digits gives the byte string. */
  lemma {:induction false} DigitsOfValue(s: seq<Byte>)
    ensures Digits(|s|, LittleEndian(s)) == s
    decreases |s|
  {
    if s != [] {
      DigitsOfValue(s[1..]);
      assert LittleEndian(s) % 256 == s[0] && LittleEndian(s) / 256 == LittleEndian(s[1..]);
    }
  }

  /** The digits of a number in two parts. */
  lemma DigitsJoin(m: nat, n: nat, lo: nat, hi: nat)
    requires lo < Pow2(8 * m) && hi < Pow2(8 * n)
    ensures Digits(m + n, lo + Pow2(8 * m) * hi) == Digits(m, lo) + Digits(n, hi)
  {
    hide Pow2, Digits, LittleEndian;
    var s := Digits(m, lo) + Digits(n, hi);
    LittleEndianAppend(Digits(m, lo), Digits(n, hi));
    ValueOfDigits(m, lo);
    ValueOfDigits(n, hi);
    DigitsOfValue(s);
  }

  /** Equal byte strings of one length are those of equal value. */
  lemma LittleEndianInjective(s: seq<Byte>, t: seq<Byte>)
    requires |s| == |t| && LittleEndian(s) == LittleEndian(t)
    ensures s == t
  {
    DigitsOfValue(s);
    DigitsOfValue(t);
  }

  lemma {:induction false} ZeroValue(n: nat)
    ensures LittleEndian(seq(n, _ => 0)) == 0
    decreases n
  {
    if n > 0 {
      assert seq(n, _ => 0)[1..] == seq(n - 1, _ => 0);
      ZeroValue(n - 1);
    }
  }
}
