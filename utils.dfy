/**
  Fixed-width shifts of binary strings. Both are the host language's
  slicing: a repeat count below zero gives the empty string, a slice start
  below zero counts from the end, and slice bounds are clamped to the string.
 */
module Utils {
  import opened Powers
  import opened Numerals

  /** n zeros; empty for n <= 0. */
  function Zeros(n: int): (z: string)
    ensures |z| == (if n < 0 then 0 else n)
    ensures forall i :: 0 <= i < |z| ==> z[i] == '0'
  {
    if n <= 0 then [] else seq(n, _ => '0')
  }

  /** The first k characters, or all of s when it is shorter (a slice up to k). */
  function Prefix(s: string, k: nat): (p: string)
    ensures |p| == (if k < |s| then k else |s|)
    ensures p == s[..|p|]
  {
    if k < |s| then s[..k] else s
  }

  /** s[n:]: from index n on; a negative n counts from the end, and out-of-range starts are clamped. */
  function SliceFrom(s: string, n: int): (t: string)
    ensures |t| == if n >= 0 then (if n < |s| then |s| - n else 0) else (if -n < |s| then -n else |s|)
    ensures t == s[|s| - |t|..]
  {
    if n >= 0 then (if n < |s| then s[n..] else [])
    else if -n < |s| then s[|s| + n..] else s
  }

  /** n zeros in front, cut back to the original width: a logical shift right by n. */
  function ShiftRight(binary: string, n: int): (r: string)
    ensures |r| == |binary|
  {
    Prefix(Zeros(n) + binary, |binary|)
  }

  /** The string from index n on with n zeros behind, cut back to the original width: a logical shift left by n. */
  function ShiftLeft(binary: string, n: int): (r: string)
    ensures |r| <= |binary|
    ensures n >= 0 ==> |r| == |binary|
  {
    Prefix(SliceFrom(binary, n) + Zeros(n), |binary|)
  }

  /** Both shifts keep the width for a non-negative count. */
  lemma {:induction false} ShiftsKeepWidth(b: string, n: int)
    requires n >= 0
    ensures |ShiftRight(b, n)| == |b| && |ShiftLeft(b, n)| == |b|
  {
  }

  /** Within the width, a right shift is n zeros followed by all but the last n characters. */
  lemma {:induction false} ShiftRightContent(b: string, n: int)
    requires 0 <= n <= |b|
    ensures ShiftRight(b, n) == Zeros(n) + b[..|b| - n]
  {
    assert (Zeros(n) + b)[..|b|] == Zeros(n) + b[..|b| - n];
  }

  /** Within the width, a left shift is all but the first n characters followed by n zeros. */
  lemma {:induction false} ShiftLeftContent(b: string, n: int)
    requires 0 <= n <= |b|
    ensures ShiftLeft(b, n) == b[n..] + Zeros(n)
  {
    if n == |b| {
      assert b[n..] == [];
    }
  }

  /** Shifting by the width or more leaves only zeros. */
  lemma {:induction false} ShiftPastWidth(b: string, n: int)
    requires n >= |b|
    ensures ShiftRight(b, n) == Zeros(|b|) && ShiftLeft(b, n) == Zeros(|b|)
  {
    assert ShiftRight(b, n) == Zeros(n)[..|b|];
    assert SliceFrom(b, n) == [];
  }

  /** Shifting by zero changes nothing. */
  lemma {:induction false} ShiftByZero(b: string)
    ensures ShiftRight(b, 0) == b && ShiftLeft(b, 0) == b
  {
  }

  /**
    A negative count is no shift to the right, while to the left it keeps
    only the last -n characters, so the width is lost.
   */
  lemma {:induction false} ShiftByNegative(b: string, n: int)
    requires n < 0
    ensures ShiftRight(b, n) == b
    ensures ShiftLeft(b, n) == (if -n < |b| then b[|b| + n..] else b)
  {
  }

  /** Leading zeros do not change a binary value. */
  lemma {:induction false} BinValueLeadingZeros(n: nat, s: string)
    ensures BinValue(Zeros(n) + s) == BinValue(s)
  {
    BinValueAppend(Zeros(n), s);
    ZerosValue(n);
  }

  /** As numbers, a right shift within the width is division by 2^n. */
  lemma {:induction false} ShiftRightValue(b: string, n: int)
    requires 0 <= n <= |b|
    ensures BinValue(ShiftRight(b, n)) == BinValue(b) / Pow2(n)
  {
    var k := |b| - n;
    var high, low := b[..k], b[k..];
    assert |low| == n;
    ShiftRightContent(b, n);
    BinValueLeadingZeros(n, high);
    assert b == high + low;
    BinValueAppend(high, low);
    var d := Pow2(n);
    assert BinValue(b) == BinValue(high) * d + BinValue(low);
    assert BinValue(low) < d;
    DivModUnique(BinValue(b), d, BinValue(high), BinValue(low));
  }

  /** As numbers, a left shift within the width is multiplication by 2^n modulo 2^width. */
  lemma {:induction false} ShiftLeftValue(b: string, n: int)
    requires 0 <= n <= |b|
    ensures BinValue(ShiftLeft(b, n)) == BinValue(b) * Pow2(n) % Pow2(|b|)
  {
    ShiftLeftParts(b, n);
    SplitValue(b, n);
    Pow2Add(|b| - n, n);
    DroppedHighPart(BinValue(b), BinValue(b[..n]), BinValue(b[n..]), Pow2(|b| - n), Pow2(n), Pow2(|b|));
  }

  /** A left shift keeps the low part b[n..] scaled by 2^n. */
  lemma {:induction false} ShiftLeftParts(b: string, n: int)
    requires 0 <= n <= |b|
    ensures BinValue(ShiftLeft(b, n)) == BinValue(b[n..]) * Pow2(n)
  {
    ShiftLeftContent(b, n);
    TrailingZeros(b[n..], n);
  }

  /** Trailing zeros multiply a binary value by a power of two. */
  lemma {:induction false} TrailingZeros(s: string, n: nat)
    ensures BinValue(s + Zeros(n)) == BinValue(s) * Pow2(n)
  {
    BinValueAppend(s, Zeros(n));
    ZerosValue(n);
  }

  lemma {:induction false} ZerosValue(n: nat)
    ensures BinValue(Zeros(n)) == 0
  {
    BinValueZeros(Zeros(n));
  }

  /** A string is its first n characters above the rest. */
  lemma {:induction false} SplitValue(b: string, n: nat)
    requires n <= |b|
    ensures BinValue(b) == BinValue(b[..n]) * Pow2(|b| - n) + BinValue(b[n..])
  {
    assert b == b[..n] + b[n..];
    BinValueAppend(b[..n], b[n..]);
  }

  /** With x = h·p + l and l < p, x·q mod p·q is l·q. */
  lemma {:induction false} DroppedHighPart(x: nat, h: nat, l: nat, p: nat, q: nat, w: nat)
    requires x == h * p + l && l < p && q > 0 && w == p * q
    ensures x * q % w == l * q
  {
    MulBelow(l, p, q);
    ShiftProduct(h, p, l, q, w);
    DivModUnique(x * q, w, h, l * q);
  }

  lemma {:induction false} MulBelow(a: nat, p: nat, q: nat)
    requires a < p && q > 0
    ensures a * q < p * q
  {
  }

  lemma {:induction false} ShiftProduct(h: int, p: int, l: int, q: int, w: int)
    requires w == p * q
    ensures (h * p + l) * q == h * w + l * q
  {
  }
}
