/**
  Binary and hexadecimal numerals as strings: their values, the fixed-width
  binary rendering of a natural number, and the laws that connect the two.
 */
module Numerals {
  import opened Powers

  predicate IsBinary(s: string) {
    forall i :: 0 <= i < |s| ==> s[i] == '0' || s[i] == '1'
  }

  function BitOf(ch: char): nat {
    if ch == '1' then 1 else 0
  }

  /** Value of a big-endian binary numeral; meaningful when IsBinary(s). */
  function BinValue(s: string): (v: nat)
    ensures v < Pow2(|s|)
  {
    if s == [] then 0 else 2 * BinValue(s[..|s| - 1]) + BitOf(s[|s| - 1])
  }

  /** The low `width` bits of n as a zero-padded big-endian binary string. */
  function ToBinary(n: nat, width: nat): (s: string)
    ensures |s| == width && IsBinary(s)
  {
    if width == 0 then [] else ToBinary(n / 2, width - 1) + [if n % 2 == 1 then '1' else '0']
  }

  lemma {:induction false} BinValueSnoc(s: string, ch: char)
    ensures BinValue(s + [ch]) == 2 * BinValue(s) + BitOf(ch)
  {
    assert (s + [ch])[..|s|] == s;
  }

  /** Rendering a number that fits in `width` bits and reading it back gives the number. */
  lemma {:induction false} BinaryRoundTrip(n: nat, width: nat)
    requires n < Pow2(width)
    ensures BinValue(ToBinary(n, width)) == n
  {
    if width > 0 {
      BinaryRoundTrip(n / 2, width - 1);
      BinValueSnoc(ToBinary(n / 2, width - 1), if n % 2 == 1 then '1' else '0');
    }
  }

  /** Reading a binary string and rendering it at its own width gives the string back. */
  lemma {:induction false} BinaryStringRoundTrip(s: string)
    requires IsBinary(s)
    ensures ToBinary(BinValue(s), |s|) == s
  {
    if s != [] {
      var init := s[..|s| - 1];
      assert IsBinary(init) by {
        forall i | 0 <= i < |init| ensures init[i] == '0' || init[i] == '1' {
          assert init[i] == s[i];
        }
      }
      BinaryStringRoundTrip(init);
      var v := BinValue(s);
      assert v / 2 == BinValue(init);
      assert s == init + [s[|s| - 1]];
    }
  }

  lemma {:induction false} BinValueAppend(a: string, b: string)
    ensures BinValue(a + b) == BinValue(a) * Pow2(|b|) + BinValue(b)
    decreases |b|
  {
    if b == [] {
      assert a + b == a;
    } else {
      var b' := b[..|b| - 1];
      var ch := b[|b| - 1];
      assert a + b == (a + b') + [ch];
      assert b == b' + [ch];
      BinValueSnoc(a + b', ch);
      BinValueSnoc(b', ch);
      BinValueAppend(a, b');
      ShiftIn(BinValue(a + b), BinValue(a + b'), BinValue(a), Pow2(|b'|), BinValue(b'), BitOf(ch));
    }
  }

  /** x = 2y + c with y = a*p + r gives x = a*(2p) + (2r + c). */
  lemma {:induction false} ShiftIn(x: int, y: int, a: int, p: int, r: int, c: int)
    requires x == 2 * y + c && y == a * p + r
    ensures x == a * (2 * p) + (2 * r + c)
  {
  }

  /** A string of zeros has value zero. */
  lemma {:induction false} BinValueZeros(s: string)
    requires forall i :: 0 <= i < |s| ==> s[i] == '0'
    ensures BinValue(s) == 0
  {
    if s != [] {
      BinValueZeros(s[..|s| - 1]);
    }
  }

  /** A binary string has value zero exactly when all of its digits are '0'. */
  lemma {:induction false} BinValueZeroIff(s: string)
    requires IsBinary(s)
    ensures BinValue(s) == 0 <==> forall i :: 0 <= i < |s| ==> s[i] == '0'
  {
    if s != [] {
      var init := s[..|s| - 1];
      assert IsBinary(init) by {
        forall i | 0 <= i < |init| ensures init[i] == '0' || init[i] == '1' {
          assert init[i] == s[i];
        }
      }
      BinValueZeroIff(init);
      if BinValue(s) == 0 {
        forall i | 0 <= i < |s| ensures s[i] == '0' {
          if i < |s| - 1 {
            assert s[i] == init[i];
          }
        }
      } else if forall i :: 0 <= i < |s| ==> s[i] == '0' {
        BinValueZeros(s);
      }
    }
  }

  predicate IsHexDigit(ch: char) {
    ('0' <= ch <= '9') || ('a' <= ch <= 'f') || ('A' <= ch <= 'F')
  }

  function HexDigitValue(ch: char): (v: nat)
    requires IsHexDigit(ch)
    ensures v < 16
  {
    if '0' <= ch <= '9' then ch as nat - '0' as nat
    else if 'a' <= ch <= 'f' then ch as nat - 'a' as nat + 10
    else ch as nat - 'A' as nat + 10
  }

  predicate IsHex(s: string) {
    forall i :: 0 <= i < |s| ==> IsHexDigit(s[i])
  }

  /** Value of a big-endian hexadecimal numeral. */
  function HexValue(s: string): nat
    requires IsHex(s)
  {
    if s == [] then 0 else 16 * HexValue(s[..|s| - 1]) + HexDigitValue(s[|s| - 1])
  }

  /** The upper-case hexadecimal digit of d < 16. */
  function HexChar(d: nat): (ch: char)
    requires d < 16
    ensures IsHexDigit(ch) && HexDigitValue(ch) == d
  {
    if d < 10 then ('0' as int + d) as char else ('A' as int + d - 10) as char
  }

  /** The low 4·digits bits of n as a zero-padded big-endian upper-case hexadecimal string. */
  function ToHex(n: nat, digits: nat): (s: string)
    ensures |s| == digits && IsHex(s)
  {
    if digits == 0 then [] else ToHex(n / 16, digits - 1) + [HexChar(n % 16)]
  }

  /** Rendering a number that fits in 4·digits bits in hexadecimal and reading it back gives the number. */
  lemma {:induction false} HexRoundTrip(n: nat, digits: nat)
    requires n < Pow2(4 * digits)
    ensures HexValue(ToHex(n, digits)) == n
  {
    if digits > 0 {
      var p := Pow2(4 * (digits - 1));
      Pow2Add(4 * (digits - 1), 4);
      Pow2Values();
      assert Pow2(4 * digits) == p * 16;
      assert n / 16 < p;
      HexRoundTrip(n / 16, digits - 1);
      var init := ToHex(n / 16, digits - 1);
      assert ToHex(n, digits)[..|init|] == init;
    }
  }
}
