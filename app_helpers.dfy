/**
  The binary32 bit-string helpers of the calculator's window: grouping a bit
  string for display, splitting 32 bits into sign, exponent and fraction,
  reading the exponent and the significand, and naming the class.
 */
module AppHelpers {
  import opened Wrappers
  import opened Powers
  import opened Numerals
  import Packing
  import Conversion

  // ---------------------------------------------------------------------
  // Grouping for display

  predicate NoSpaces(s: string) {
    forall i :: 0 <= i < |s| ==> s[i] != ' '
  }

  /** The string with every space removed. */
  function RemoveSpaces(s: string): (t: string)
    ensures NoSpaces(t) && |t| <= |s|
  {
    if s == [] then []
    else if s[0] == ' ' then RemoveSpaces(s[1..])
    else [s[0]] + RemoveSpaces(s[1..])
  }

  /** Consecutive slices of `group` characters from the start, the last one possibly shorter. */
  function Chunks(s: string, group: nat): (cs: seq<string>)
    requires group > 0
    ensures |cs| == (|s| + group - 1) / group
    decreases |s|
  {
    if s == [] then
      DivModUnique(group - 1, group, 0, group - 1);
      []
    else if |s| <= group then
      DivModUnique(|s| + group - 1, group, 1, |s| - 1);
      [s]
    else
      ChunkCountStep(|s|, group);
      [s[..group]] + Chunks(s[group..], group)
  }

  /** Taking one chunk off a string longer than a chunk leaves one chunk fewer. */
  lemma {:induction false} ChunkCountStep(n: int, g: int)
    requires 0 < g < n
    ensures (n + g - 1) / g == (n - g + g - 1) / g + 1
  {
    var y := n - 1;
    var q, r := y / g, y % g;
    assert y == q * g + r;
    assert y + g == (q + 1) * g + r;
    DivModUnique(y + g, g, q + 1, r);
  }

  /** The parts joined with a single space between neighbours. */
  function JoinSpaced(parts: seq<string>): (r: string)
    ensures |r| == |Concat(parts)| + (if parts == [] then 0 else |parts| - 1)
  {
    if parts == [] then []
    else if |parts| == 1 then parts[0]
    else parts[0] + " " + JoinSpaced(parts[1..])
  }

  /**
    format_bits: strips spaces, then joins chunks of `group` characters with
    single spaces. A group of 0 makes the range step zero, which the host
    rejects; a negative group gives an empty range and so the empty string.
   */
  function FormatBits(bits: string, group: int := 4): (r: Option<string>)
    ensures r.None? <==> group == 0
    ensures group < 0 ==> r == Some("")
  {
    if group == 0 then None
    else if group < 0 then Some("")
    else Some(JoinSpaced(Chunks(RemoveSpaces(bits), group)))
  }

  lemma {:induction false} RemoveSpacesOfSpaceFree(s: string)
    requires NoSpaces(s)
    ensures RemoveSpaces(s) == s
  {
    if s != [] {
      RemoveSpacesOfSpaceFree(s[1..]);
    }
  }

  lemma {:induction false} RemoveSpacesAppend(a: string, b: string)
    ensures RemoveSpaces(a + b) == RemoveSpaces(a) + RemoveSpaces(b)
  {
    if a == [] {
      assert a + b == b;
    } else {
      assert (a + b)[0] == a[0];
      assert (a + b)[1..] == a[1..] + b;
      RemoveSpacesAppend(a[1..], b);
      if a[0] != ' ' {
        assert [a[0]] + (RemoveSpaces(a[1..]) + RemoveSpaces(b)) == ([a[0]] + RemoveSpaces(a[1..])) + RemoveSpaces(b);
      }
    }
  }

  /** Spaces removed from the grouped text leave the chunks run together. */
  lemma {:induction false} RemoveSpacesJoin(parts: seq<string>)
    requires forall k :: 0 <= k < |parts| ==> NoSpaces(parts[k])
    ensures RemoveSpaces(JoinSpaced(parts)) == Concat(parts)
  {
    if |parts| == 1 {
      RemoveSpacesOfSpaceFree(parts[0]);
      assert Concat(parts) == parts[0] + Concat([]);
    } else if |parts| > 1 {
      RemoveSpacesJoin(parts[1..]);
      RemoveSpacesAppend(parts[0] + " ", JoinSpaced(parts[1..]));
      RemoveSpacesAppend(parts[0], " ");
      RemoveSpacesOfSpaceFree(parts[0]);
    }
  }

  function Concat(parts: seq<string>): string {
    if parts == [] then [] else parts[0] + Concat(parts[1..])
  }

  /** The chunks run together are the string; every chunk but the last has `group` characters, the last 1 to `group`. */
  lemma {:induction false} ChunksLaws(s: string, group: nat)
    requires group > 0
    ensures Concat(Chunks(s, group)) == s
    ensures var cs := Chunks(s, group);
      && (s == [] <==> cs == [])
      && (forall k :: 0 <= k < |cs| - 1 ==> |cs[k]| == group)
      && (cs != [] ==> 1 <= |cs[|cs| - 1]| <= group)
    decreases |s|
  {
    var cs := Chunks(s, group);
    if s != [] && |s| > group {
      ChunksLaws(s[group..], group);
      var rest := Chunks(s[group..], group);
      assert cs == [s[..group]] + rest;
      assert cs[1..] == rest;
      assert s == s[..group] + s[group..];
    } else if s != [] {
      assert cs[1..] == [];
    }
  }

  /** A chunk of a space-free string is space-free. */
  lemma {:induction false} ChunksSpaceFree(s: string, group: nat)
    requires group > 0 && NoSpaces(s)
    ensures forall k :: 0 <= k < |Chunks(s, group)| ==> NoSpaces(Chunks(s, group)[k])
    decreases |s|
  {
    if s != [] && |s| > group {
      var rest := s[group..];
      assert NoSpaces(rest) by {
        forall i | 0 <= i < |rest| ensures rest[i] != ' ' {
          assert rest[i] == s[group + i];
        }
      }
      assert NoSpaces(s[..group]) by {
        forall i | 0 <= i < group ensures s[..group][i] != ' ' {
          assert s[..group][i] == s[i];
        }
      }
      ChunksSpaceFree(rest, group);
      var cs := Chunks(s, group);
      forall k | 0 <= k < |cs| ensures NoSpaces(cs[k]) {
        if k > 0 {
          assert cs[k] == Chunks(rest, group)[k - 1];
        }
      }
    }
  }

  /** Removing the spaces from the grouped text gives back the stripped input. */
  lemma {:induction false} FormatBitsKeepsBits(bits: string, group: int)
    requires group > 0
    ensures FormatBits(bits, group).Some?
    ensures RemoveSpaces(FormatBits(bits, group).value) == RemoveSpaces(bits)
  {
    var s := RemoveSpaces(bits);
    ChunksLaws(s, group);
    ChunksSpaceFree(s, group);
    RemoveSpacesJoin(Chunks(s, group));
  }

  /**
    The layout of the grouped text: a single space after every `group`
    characters and nowhere else, so text and stripped input determine each
    other.
   */
  lemma {:induction false} GroupedLayout(s: string, group: nat)
    requires group > 0 && NoSpaces(s)
    ensures SpacedEvery(JoinSpaced(Chunks(s, group)), group)
    decreases |s|
  {
    if s != [] && |s| > group {
      NoSpacesSplit(s, group);
      GroupedLayout(s[group..], group);
      GroupedLayoutCons(s, group);
    } else if s != [] {
      GroupedLayoutLast(s, group);
    }
  }

  lemma {:induction false} NoSpacesSplit(s: string, k: nat)
    requires NoSpaces(s) && k <= |s|
    ensures NoSpaces(s[..k]) && NoSpaces(s[k..])
  {
    var head, rest := s[..k], s[k..];
    forall i | 0 <= i < |rest| ensures rest[i] != ' ' {
      assert rest[i] == s[k + i];
    }
    forall i | 0 <= i < k ensures head[i] != ' ' {
      assert head[i] == s[i];
    }
  }

  /** One group, a space, then the grouped remainder. */
  lemma {:induction false} GroupedLayoutCons(s: string, group: nat)
    requires group > 0 && |s| > group && NoSpaces(s[..group])
    requires SpacedEvery(JoinSpaced(Chunks(s[group..], group)), group)
    ensures SpacedEvery(JoinSpaced(Chunks(s, group)), group)
  {
    var head, rest := s[..group], s[group..];
    ChunksLaws(rest, group);
    assert Chunks(s, group) == [head] + Chunks(rest, group);
    assert JoinSpaced(Chunks(s, group)) == head + " " + JoinSpaced(Chunks(rest, group));
    SpacedEveryCons(head, JoinSpaced(Chunks(rest, group)), group);
  }

  /** A last group of at most `group` characters holds no space and none is due. */
  lemma {:induction false} GroupedLayoutLast(s: string, group: nat)
    requires group > 0 && s != [] && |s| <= group && NoSpaces(s)
    ensures SpacedEvery(JoinSpaced(Chunks(s, group)), group)
  {
    assert JoinSpaced(Chunks(s, group)) == s;
    forall i | 0 <= i < |s| ensures s[i] != ' ' && (i + 1) % (group + 1) != 0 {
      assert 0 < i + 1 < group + 1;
    }
  }

  /** The characters at positions (group+1)·k - 1 are the spaces. */
  predicate SpacedEvery(r: string, group: nat) {
    forall i :: 0 <= i < |r| ==> (r[i] == ' ' <==> (i + 1) % (group + 1) == 0)
  }

  lemma {:induction false} SpacedEveryCons(head: string, tail: string, group: nat)
    requires |head| == group && NoSpaces(head) && SpacedEvery(tail, group)
    ensures SpacedEvery(head + " " + tail, group)
  {
    var r := head + " " + tail;
    forall i | 0 <= i < |r| ensures r[i] == ' ' <==> (i + 1) % (group + 1) == 0 {
      if i < group {
        assert r[i] == head[i];
        assert 0 < i + 1 < group + 1;
      } else if i == group {
        assert r[i] == ' ';
      } else {
        assert r[i] == tail[i - group - 1];
        ShiftedPeriod(i, group + 1);
      }
    }
  }

  lemma {:induction false} ShiftedPeriod(i: int, p: int)
    requires p > 0 && i >= p
    ensures (i + 1) % p == (i - p + 1) % p
  {
    DivModUnique(i + 1, p, (i - p + 1) / p + 1, (i - p + 1) % p);
  }

  // ---------------------------------------------------------------------
  // Splitting and reading the fields

  datatype AppError = WrongLength | NotBinary

  datatype Parts = Parts(sign: string, exponent: string, fraction: string)

  /** split_bits: the stripped input must have 32 characters; it is cut at 1 and 9. */
  function SplitBits(bits: string): (r: Result<Parts, AppError>)
    ensures r.Success? <==> |RemoveSpaces(bits)| == 32
    ensures r.Failure? ==> r.error == WrongLength
    ensures r.Success? ==>
      && |r.value.sign| == 1 && |r.value.exponent| == 8 && |r.value.fraction| == 23
      && r.value.sign + r.value.exponent + r.value.fraction == RemoveSpaces(bits)
  {
    var b := RemoveSpaces(bits);
    if |b| != 32 then Failure(WrongLength)
    else
      assert b == b[..1] + b[1..9] + b[9..];
      Success(Parts(b[..1], b[1..9], b[9..]))
  }

  /** Base-2 integer parsing, restricted to a non-empty string of binary digits; everything else is rejected. */
  function ParseBinary(s: string): (r: Option<nat>)
    ensures r.Some? <==> s != [] && IsBinary(s)
    ensures r.Some? ==> r.value == BinValue(s) && r.value < Pow2(|s|)
  {
    if s != [] && IsBinary(s) then Some(BinValue(s)) else None
  }

  /** exponent_value: the exponent field's value minus the binary32 bias 127. */
  function ExponentValue(expBits: string): (r: Option<int>)
    ensures r.Some? <==> ParseBinary(expBits).Some?
    ensures r.Some? ==> r.value + 127 == BinValue(expBits)
    ensures r.Some? && |expBits| == 8 ==> -127 <= r.value <= 128
  {
    Pow2Values();
    match ParseBinary(expBits)
    case None => None
    case Some(e) => Some(e - 127)
  }

  /** The value of a decimal digit character, as integer parsing of a one-character string reads it. */
  function DigitOf(ch: char): (d: nat)
    requires '0' <= ch <= '9'
    ensures d <= 9
  {
    ch as nat - '0' as nat
  }

  predicate AllDigits(s: string) {
    forall i :: 0 <= i < |s| ==> '0' <= s[i] <= '9'
  }

  /** Σ d_i · 2^-i over the characters, i counted from 1. */
  function WeightedSum(s: string): real
    requires AllDigits(s)
  {
    if s == [] then 0.0
    else WeightedSum(s[..|s| - 1]) + DigitOf(s[|s| - 1]) as real * Pow2R(-|s|)
  }

  /** What mantissa_value computes: nothing when a field does not parse, otherwise the hidden bit (none for a zero exponent) plus the weighted sum. */
  function MantissaResult(manBits: string, expBits: string): Option<real> {
    if ParseBinary(expBits).None? || !AllDigits(manBits) then None
    else Some((if ParseBinary(expBits).value == 0 then 0.0 else 1.0) + WeightedSum(manBits))
  }

  /**
    mantissa_value: the exponent decides the hidden bit, then the loop adds
    d_i · 2^-i for each character. A field that does not parse is an error.
   */
  method MantissaValue(manBits: string, expBits: string) returns (r: Option<real>)
    ensures r == MantissaResult(manBits, expBits)
  {
    var e := ParseBinary(expBits);
    if e.None? {
      return None;
    }
    var hidden := if e.value == 0 then 0.0 else 1.0;
    var mant := hidden;
    var i := 0;
    while i < |manBits|
      invariant 0 <= i <= |manBits|
      invariant AllDigits(manBits[..i])
      invariant mant == hidden + WeightedSum(manBits[..i])
    {
      var b := manBits[i];
      if !('0' <= b <= '9') {
        assert !AllDigits(manBits) by { assert !('0' <= manBits[i] <= '9'); }
        return None;
      }
      WeightedSumStep(manBits, i);
      mant := mant + DigitOf(b) as real * Pow2R(-(i + 1));
      i := i + 1;
    }
    assert manBits[..i] == manBits;
    r := Some(mant);
  }

  /** One more digit adds its weighted term to the sum of the prefix. */
  lemma {:induction false} WeightedSumStep(s: string, i: nat)
    requires i < |s| && AllDigits(s[..i]) && '0' <= s[i] <= '9'
    ensures AllDigits(s[..i + 1])
    ensures WeightedSum(s[..i + 1]) == WeightedSum(s[..i]) + DigitOf(s[i]) as real * Pow2R(-(i + 1))
  {
    assert s[..i + 1][..i] == s[..i];
  }

  /** On binary digits the weighted sum is the numeral's value over 2^n. */
  lemma {:induction false} WeightedSumOfBinary(s: string)
    requires IsBinary(s)
    ensures AllDigits(s)
    ensures WeightedSum(s) == RealValue(s) * Pow2R(-|s|)
  {
    if s != [] {
      var init := s[..|s| - 1];
      assert IsBinary(init) by {
        forall i | 0 <= i < |init| ensures init[i] == '0' || init[i] == '1' {
          assert init[i] == s[i];
        }
      }
      WeightedSumOfBinary(init);
      Pow2RStep(-|s|);
      assert DigitOf(s[|s| - 1]) == BitOf(s[|s| - 1]);
    }
  }

  /** The value of a binary numeral, computed in the reals. */
  function RealValue(s: string): real
  {
    if s == [] then 0.0 else 2.0 * RealValue(s[..|s| - 1]) + BitOf(s[|s| - 1]) as real
  }

  /** Reading a numeral in the reals gives its binary value. */
  lemma {:induction false} RealValueMatches(s: string)
    ensures RealValue(s) == BinValue(s) as real
  {
    if s != [] {
      RealValueMatches(s[..|s| - 1]);
    }
  }

  /** The weighted sum of n binary digits lies in [0, 1). */
  lemma {:induction false} WeightedSumRange(s: string)
    requires IsBinary(s)
    ensures AllDigits(s) && 0.0 <= WeightedSum(s) < 1.0
  {
    WeightedSumOfBinary(s);
    RealValueMatches(s);
    UnitBound(|s|, RealValue(s), WeightedSum(s));
  }

  /** r·2^-k with 0 <= r < 2^k lies in [0, 1). */
  lemma {:induction false} UnitBound(k: int, r: real, v: real)
    requires k >= 0 && 0.0 <= r < Pow2(k) as real && v == r * Pow2R(-k)
    ensures 0.0 <= v < 1.0
  {
    Pow2RPositive(-k);
    Pow2RNat(k);
    Pow2RNeg(k);
    BelowUnit(v, r, Pow2(k) as real, Pow2R(-k));
  }

  /** v = r·q with 0 <= r < p and p·q = 1 lies in [0, 1). */
  lemma {:induction false} BelowUnit(v: real, r: real, p: real, q: real)
    requires q > 0.0 && 0.0 <= r < p && v == r * q && q * p == 1.0
    ensures 0.0 <= v < 1.0
  {
    MulLe(0.0, r, q);
    MulLt(r, p, q);
    assert r * q < p * q;
    assert p * q == 1.0;
    assert v < 1.0;
  }

  /** On binary fields mantissa_value lies in [0, 1) for a zero exponent and in [1, 2) otherwise. */
  lemma {:induction false} MantissaValueRange(manBits: string, expBits: string)
    requires IsBinary(manBits) && expBits != [] && IsBinary(expBits)
    ensures MantissaResult(manBits, expBits).Some?
    ensures var v := MantissaResult(manBits, expBits).value;
      if BinValue(expBits) == 0 then 0.0 <= v < 1.0 else 1.0 <= v < 2.0
  {
    WeightedSumRange(manBits);
  }

  /** On a fraction field of a format's width the weighted sum is the codec's fraction m / 2^F (for binary32, F = 23). */
  lemma {:induction false} WeightedSumIsFraction(c: Packing.Config, manBits: string)
    requires IsBinary(manBits) && |manBits| == c.fracBits
    ensures AllDigits(manBits)
    ensures WeightedSum(manBits) == Conversion.FractionOf(c, BinValue(manBits))
  {
    WeightedSumOverPower(manBits);
    RealValueMatches(manBits);
    SameQuotient(RealValue(manBits), BinValue(manBits) as real, Pow2(|manBits|) as real);
  }

  /** The weighted sum is the numeral's value divided by 2^n. */
  lemma {:induction false} WeightedSumOverPower(s: string)
    requires IsBinary(s)
    ensures AllDigits(s)
    ensures WeightedSum(s) == RealValue(s) / Pow2(|s|) as real
  {
    var k := |s|;
    WeightedSumOfBinary(s);
    Pow2RNat(k);
    Pow2RNeg(k);
    OverPower(WeightedSum(s), RealValue(s), Pow2(k) as real, Pow2R(-k));
  }

  lemma {:induction false} SameQuotient(x: real, y: real, p: real)
    requires x == y && p > 0.0
    ensures x / p == y / p
  {
  }

  /** v = r·q with q·p = 1 is r / p. */
  lemma {:induction false} OverPower(v: real, r: real, p: real, q: real)
    requires p > 0.0 && v == r * q && q * p == 1.0
    ensures v == r / p
  {
  }

  // ---------------------------------------------------------------------
  // Naming the class

  /** detect_special: the class names by exponent 0 or 255 and fraction zero or not. */
  function DetectSpecial(expBits: string, manBits: string): (r: Option<string>)
    ensures r.Some? <==> ParseBinary(expBits).Some? && ParseBinary(manBits).Some?
  {
    match (ParseBinary(expBits), ParseBinary(manBits))
    case (Some(e), Some(m)) =>
      Some(if e == 0 && m == 0 then "Zero"
           else if e == 0 && m != 0 then "Denormal (subnormal)"
           else if e == 255 && m == 0 then "Infinity"
           else if e == 255 && m != 0 then "NaN"
           else "Normal")
    case _ => None
  }

  /** The name the window shows for a codec class. */
  function ClassName(cls: Conversion.Class): string {
    match cls
    case Zero => "Zero"
    case Subnormal => "Denormal (subnormal)"
    case Normal => "Normal"
    case Infinity => "Infinity"
    case NaN => "NaN"
  }

  /** On an 8-bit exponent and a 23-bit fraction the window's class name is that of the codec's classifier for binary32. */
  lemma {:induction false} DetectSpecialAgrees(expBits: string, manBits: string)
    requires IsBinary(expBits) && |expBits| == 8 && IsBinary(manBits) && |manBits| == 23
    ensures DetectSpecial(expBits, manBits) ==
      Some(ClassName(Conversion.Classify(Packing.Binary32(), BinValue(expBits), BinValue(manBits))))
  {
    assert Packing.Binary32().expMax == 255;
  }
}
