/**
  The multi-precision codec: encoding a decimal value into the fields of a
  binary interchange format (section 3.4 of IEEE 754-2019) and decoding a bit
  pattern back into its class and value.

  Values are exact: a finite value is a sign and a non-negative real
  magnitude, so that -0.0 and +0.0 stay apart; infinities carry a sign; every
  NaN is one value, as the decoder collapses payloads.
 */
module Conversion {
  import opened Wrappers
  import opened Powers
  import opened Numerals
  import opened Packing
  import opened Rounding

  datatype Class = Zero | Subnormal | Normal | Infinity | NaN

  type NonNegReal = r: real | r >= 0.0

  datatype Value = Finite(negative: bool, magnitude: NonNegReal) | Infinite(negative: bool) | NotANumber

  /**
    The record both directions return: the value, its class, the raw fields,
    their rendering, and the entries only some results carry (the unbiased
    exponent and the original input of an encoding, the reason of a NaN).
   */
  datatype CodecResult = CodecResult(
    value: Value,
    classification: Class,
    sign: nat,
    exponentRaw: nat,
    mantissaRaw: nat,
    fields: BitFormat,
    exponentUnbiased: Option<int>,
    originalValue: Option<Value>,
    reason: Option<string>)

  /** The class of a (biased exponent, fraction) pair: the all-ones exponent is special, the zero exponent is zero or subnormal. */
  function Classify(c: Config, exponent: nat, mantissa: nat): (cls: Class)
    ensures cls == Infinity || cls == NaN <==> exponent == c.expMax
    ensures cls == Zero || cls == Subnormal <==> exponent == 0 && exponent != c.expMax
    ensures cls == Normal <==> exponent != 0 && exponent != c.expMax
    ensures cls != Normal ==> (cls == Zero || cls == Infinity <==> mantissa == 0)
  {
    if exponent == c.expMax then (if mantissa == 0 then Infinity else NaN)
    else if exponent == 0 then (if mantissa == 0 then Zero else Subnormal)
    else Normal
  }

  /** The fraction field read as m / 2^F. */
  function FractionOf(c: Config, mantissa: nat): real {
    mantissa as real / Pow2(c.fracBits) as real
  }

  /** The magnitude a field triple of class Normal denotes: (1 + m/2^F)·2^(e-bias). */
  function NormalMagnitude(c: Config, e: nat, m: nat): real {
    (1.0 + FractionOf(c, m)) * Pow2R(e - c.bias)
  }

  /** The magnitude a field triple of class Subnormal denotes: (m/2^F)·2^(1-bias). */
  function SubnormalMagnitude(c: Config, m: nat): real {
    FractionOf(c, m) * Pow2R(1 - c.bias)
  }

  /** The value of a field triple of the given class; a nonzero sign is negative. */
  function ComputeValue(c: Config, sign: nat, exponent: nat, mantissa: nat, cls: Class): (v: Value)
    ensures cls == Zero ==> v == Finite(sign != 0, 0.0)
    ensures cls == Infinity ==> v == Infinite(sign != 0)
    ensures cls == NaN <==> v == NotANumber
    ensures cls == Subnormal || cls == Normal ==> v.Finite? && v.negative == (sign != 0)
  {
    var negative := sign != 0;
    match cls
    case Zero => Finite(negative, 0.0)
    case Infinity => Infinite(negative)
    case NaN => NotANumber
    case Subnormal =>
      Pow2RPositive(1 - c.bias);
      Finite(negative, SubnormalMagnitude(c, mantissa))
    case Normal =>
      Pow2RPositive(exponent - c.bias);
      Finite(negative, NormalMagnitude(c, exponent, mantissa))
  }

  /** A result whose fields are in range, whose rendering is that of the packed fields, and whose class and value are those of the fields. */
  predicate Consistent(c: Config, r: CodecResult) {
    && Valid(c)
    && r.sign <= 1 && r.exponentRaw <= c.expMax && r.mantissaRaw <= c.fracMask
    && r.fields == FormatBits(c, Pack(c, r.sign, r.exponentRaw, r.mantissaRaw))
    && r.classification == Classify(c, r.exponentRaw, r.mantissaRaw)
    && r.value == ComputeValue(c, r.sign, r.exponentRaw, r.mantissaRaw, r.classification)
  }

  /** Packs and renders the fields and records them with the given class, value and extra entries. */
  function Assemble(c: Config, sign: nat, exponent: nat, mantissa: nat, cls: Class, value: Value,
                    unbiased: Option<int>, original: Option<Value>, reason: Option<string>): (r: CodecResult)
    requires Valid(c) && sign <= 1 && exponent <= c.expMax && mantissa <= c.fracMask
    ensures r.fields.bits == Pack(c, sign, exponent, mantissa)
    ensures cls == Classify(c, exponent, mantissa) && value == ComputeValue(c, sign, exponent, mantissa, cls) ==> Consistent(c, r)
  {
    CodecResult(value, cls, sign, exponent, mantissa, FormatBits(c, Pack(c, sign, exponent, mantissa)), unbiased, original, reason)
  }

  /** Signed zero: all fields zero but the sign. */
  function ZeroResult(c: Config, positive: bool := true): (r: CodecResult)
    requires Valid(c)
    ensures Consistent(c, r)
    ensures r.classification == Zero && r.value == Finite(!positive, 0.0)
    ensures r.sign == (if positive then 0 else 1) && r.exponentRaw == 0 && r.mantissaRaw == 0
    ensures r.exponentUnbiased.None? && r.originalValue.None? && r.reason.None?
  {
    var sign := if positive then 0 else 1;
    Assemble(c, sign, 0, 0, Zero, Finite(!positive, 0.0), None, None, None)
  }

  /** Signed infinity: all-ones exponent, fraction zero. */
  function InfResult(c: Config, positive: bool := true): (r: CodecResult)
    requires Valid(c)
    ensures Consistent(c, r)
    ensures r.classification == Infinity && r.value == Infinite(!positive)
    ensures r.sign == (if positive then 0 else 1) && r.exponentRaw == c.expMax && r.mantissaRaw == 0
    ensures r.exponentUnbiased.None? && r.originalValue.None? && r.reason.None?
  {
    var sign := if positive then 0 else 1;
    Assemble(c, sign, c.expMax, 0, Infinity, Infinite(!positive), None, None, None)
  }

  /** The quiet NaN: sign 0, all-ones exponent, only the top fraction bit set; it records why it was produced. */
  function NanResult(c: Config, reason: string := "NaN"): (r: CodecResult)
    requires Valid(c)
    ensures Consistent(c, r)
    ensures r.classification == NaN && r.value == NotANumber
    ensures r.sign == 0 && r.exponentRaw == c.expMax && r.mantissaRaw == Pow2(c.fracBits - 1)
    ensures r.exponentUnbiased.None? && r.originalValue.None? && r.reason == Some(reason)
  {
    var mantissa := Pow2(c.fracBits - 1);
    Assemble(c, 0, c.expMax, mantissa, NaN, NotANumber, None, None, Some(reason))
  }

  /** The subnormal path's rounding: mag·2^(F+bias-1) plus one half, truncated, then clamped to the fraction mask. */
  function SubnormalMantissa(c: Config, mag: NonNegReal): (m: nat)
    requires Valid(c)
    ensures m <= c.fracMask
  {
    Pow2RPositive(c.fracBits + c.bias - 1);
    var rounded := (mag * Pow2R(c.fracBits + c.bias - 1) + 0.5).Floor;
    if rounded > c.fracMask then c.fracMask else rounded
  }

  /** A magnitude below the smallest normal: exponent field 0 and the rounded fraction, or zero when that rounds to 0. */
  function EncodeSubnormal(c: Config, mag: NonNegReal, sign: nat): (r: CodecResult)
    requires Valid(c) && sign <= 1
    ensures Consistent(c, r)
    ensures r.classification == Zero || r.classification == Subnormal
    ensures r.sign == sign && r.exponentRaw == 0
    ensures r.classification == Subnormal ==> r.exponentUnbiased == Some(1 - c.bias) && r.originalValue == Some(Finite(sign != 0, mag))
    ensures r.mantissaRaw == SubnormalMantissa(c, mag)
    ensures r.classification == Zero <==> SubnormalMantissa(c, mag) == 0
  {
    var m := SubnormalMantissa(c, mag);
    if m == 0 then ZeroResult(c, sign == 0)
    else Assemble(c, sign, 0, m, Subnormal, ComputeValue(c, sign, 0, m, Subnormal), Some(1 - c.bias), Some(Finite(sign != 0, mag)), None)
  }

  /** 2^e <= mag < 2^(e+1) puts mag / 2^e in [1, 2). */
  lemma {:induction false} SignificandRange(mag: real, e: int)
    requires Pow2R(e) <= mag < Pow2R(e + 1)
    ensures 1.0 <= mag / Pow2R(e) < 2.0
  {
    Pow2RPositive(e);
    Pow2RStep(e);
    QuotientBounds(mag, Pow2R(e));
  }

  lemma {:induction false} UnitScale(x: real, p: real)
    requires 0.0 <= x < 1.0 && p > 0.0
    ensures 0.0 <= x * p < p
  {
  }

  /** The fraction (mag / 2^e - 1)·2^f of mag measured against the power 2^e. */
  function BinadeFraction(f: nat, mag: real, e: int): real
  {
    Pow2RPositive(e);
    (mag / Pow2R(e) - 1.0) * Pow2R(f)
  }

  /** The fraction (s - 1)·2^F of the significand s the normal path rounds. */
  function ScaledFraction(c: Config, mag: real): (scaled: real)
    requires Valid(c) && mag > 0.0
    ensures 0.0 <= scaled < Pow2(c.fracBits) as real
  {
    var e := Log2Floor(mag);
    BinadeFractionRange(c.fracBits, mag, e);
    BinadeFraction(c.fracBits, mag, e)
  }

  /** Within its binade, the fraction of mag lies in [0, 2^f). */
  lemma {:induction false} BinadeFractionRange(f: nat, mag: real, e: int)
    requires Pow2R(e) <= mag < Pow2R(e + 1)
    ensures 0.0 <= BinadeFraction(f, mag, e) < Pow2(f) as real
  {
    SignificandRange(mag, e);
    var fraction := mag / Pow2R(e) - 1.0;
    var y := Pow2R(f);
    Pow2RNat(f);
    UnitScale(fraction, y);
    assert BinadeFraction(f, mag, e) == fraction * y;
  }

  /** The rounding of the normal path, with guard = fraction part >= 1/2, round = 0 and sticky = fraction part > 1/2. */
  function NormalRounding(c: Config, mag: real): (r: Rounded)
    requires Valid(c) && mag > 0.0
    ensures r.mantissa <= c.fracMask && (r.carry ==> r.mantissa == 0)
    ensures IsNearestEven(ScaledFraction(c, mag), RoundedValue(r, c.fracBits))
  {
    var scaled := ScaledFraction(c, mag);
    var frac := scaled - scaled.Floor as real;
    EncoderFlagsRoundNearestEven(scaled, c.fracBits);
    RoundToNearestEven(scaled, c.fracBits, frac >= 0.5, false, frac > 0.5)
  }

  /**
    A positive magnitude: subnormal below 2^(1-bias); infinity when the
    biased exponent reaches the all-ones exponent before or after the rounding
    carry; otherwise a normal result holding the rounded fraction and the
    value those fields denote.
   */
  function EncodePositive(c: Config, mag: NonNegReal, sign: nat): (r: CodecResult)
    requires Valid(c) && sign <= 1 && mag > 0.0
    ensures Consistent(c, r)
    ensures r.classification != NaN
    ensures r.sign == sign
    ensures r.classification == Normal ==>
      && 1 <= r.exponentRaw <= c.expMax - 1
      && r.exponentUnbiased == Some(r.exponentRaw - c.bias)
      && r.originalValue == Some(Finite(sign != 0, mag))
  {
    var e := Log2Floor(mag);
    if e < 1 - c.bias then EncodeSubnormal(c, mag, sign)
    else
      var biased := e + c.bias;
      if biased >= c.expMax then InfResult(c, sign == 0)
      else
        var rounded := NormalRounding(c, mag);
        var exponent := if rounded.carry then biased + 1 else biased;
        if exponent >= c.expMax then InfResult(c, sign == 0)
        else NormalResult(c, mag, sign, exponent, rounded.mantissa)
  }

  /** A normal result with the given fields, recording exponent - bias and the original value. */
  function NormalResult(c: Config, mag: NonNegReal, sign: nat, exponent: nat, mantissa: nat): (r: CodecResult)
    requires Valid(c) && sign <= 1 && 1 <= exponent < c.expMax && mantissa <= c.fracMask
    ensures Consistent(c, r) && r.classification == Normal
    ensures r.sign == sign && r.exponentRaw == exponent && r.mantissaRaw == mantissa
    ensures r.exponentUnbiased == Some(exponent - c.bias) && r.originalValue == Some(Finite(sign != 0, mag)) && r.reason.None?
  {
    Assemble(c, sign, exponent, mantissa, Normal, ComputeValue(c, sign, exponent, mantissa, Normal),
             Some(exponent - c.bias), Some(Finite(sign != 0, mag)), None)
  }

  /** A non-negative magnitude with its sign: zero is signed zero, the rest is encoded. */
  function EncodeNormalNumber(c: Config, mag: NonNegReal, sign: nat): (r: CodecResult)
    requires Valid(c) && sign <= 1
    ensures Consistent(c, r)
    ensures r.classification != NaN
    ensures r.sign == sign
    ensures mag == 0.0 ==> r == ZeroResult(c, sign == 0)
    ensures mag > 0.0 ==> r == EncodePositive(c, mag, sign)
  {
    if mag == 0.0 then ZeroResult(c, sign == 0) else EncodePositive(c, mag, sign)
  }

  /**
    Whether the closest fraction to mag with denominator at most 2^60 is 0.
    Its two candidates are 0 and 2^-60, and a tie keeps 0, so this holds
    exactly when mag <= 2^-61.
   */
  predicate LimitedFractionIsZero(mag: real) {
    mag <= Pow2R(-61)
  }

  /** Up to 2^-61, 0 is at least as close to mag as every positive fraction p/q with q <= 2^60. */
  lemma {:induction false} ZeroIsClosestLimitedFraction(mag: real, p: nat, q: nat)
    requires 0.0 < mag && LimitedFractionIsZero(mag) && p >= 1 && 1 <= q <= Pow2(60)
    ensures mag <= p as real / q as real - mag
  {
    SmallestLimitedFraction();
    Pow2RStep(-61);
    var pr, qr, big := p as real, q as real, Pow2(60) as real;
    ReciprocalAntitone(qr, big);
    FractionAtLeastReciprocal(pr, qr);
  }

  lemma {:induction false} ReciprocalAntitone(a: real, b: real)
    requires 0.0 < a <= b
    ensures 1.0 / b <= 1.0 / a
  {
    assert 1.0 / b * b == 1.0;
    assert 1.0 / a * a == 1.0;
  }

  lemma {:induction false} FractionAtLeastReciprocal(p: real, q: real)
    requires p >= 1.0 && q > 0.0
    ensures 1.0 / q <= p / q
  {
    assert p / q == p * (1.0 / q);
  }

  /** Above 2^-61, the fraction 1/2^60 is strictly closer to mag than 0. */
  lemma {:induction false} LimitedFractionNonZero(mag: real)
    requires 0.0 < mag && !LimitedFractionIsZero(mag)
    ensures var u := 1.0 / Pow2(60) as real; (if mag < u then u - mag else mag - u) < mag
  {
    SmallestLimitedFraction();
    Pow2RStep(-61);
    Pow2RPositive(-61);
  }

  /** 2^-60 is the fraction 1/2^60. */
  lemma {:induction false} SmallestLimitedFraction()
    ensures Pow2R(-60) == 1.0 / Pow2(60) as real
  {
    Pow2RNeg(60);
    Pow2RNat(60);
  }

  /** The encoder as written: it also returns zero whenever the approximating fraction is zero. */
  function EncodeNormalNumberAsWritten(c: Config, mag: NonNegReal, sign: nat): (r: CodecResult)
    requires Valid(c) && sign <= 1
    ensures Consistent(c, r)
    ensures r.classification != NaN
    ensures LimitedFractionIsZero(mag) ==> r.classification == Zero
  {
    if mag == 0.0 then ZeroResult(c, sign == 0)
    else if LimitedFractionIsZero(mag) then ZeroResult(c, sign == 0)
    else EncodePositive(c, mag, sign)
  }

  /** The special-case dispatch: NaN, signed infinity and signed zero never reach rounding. */
  function EncodeValue(c: Config, x: Value): (r: CodecResult)
    requires Valid(c)
    ensures Consistent(c, r)
    ensures x.NotANumber? <==> r.classification == NaN
    ensures x.NotANumber? ==> r == NanResult(c, "NaN")
    ensures x.Infinite? ==> r == InfResult(c, !x.negative)
    ensures x.Finite? && x.magnitude == 0.0 ==> r == ZeroResult(c, !x.negative)
    ensures !x.NotANumber? ==> r.sign == (if x.negative then 1 else 0)
    ensures x.Finite? && x.magnitude > 0.0 ==> r == EncodePositive(c, x.magnitude, if x.negative then 1 else 0)
  {
    match x
    case NotANumber => NanResult(c, "NaN")
    case Infinite(negative) => InfResult(c, !negative)
    case Finite(negative, mag) =>
      if mag == 0.0 then ZeroResult(c, !negative)
      else EncodeNormalNumber(c, mag, if negative then 1 else 0)
  }

  /** An input: a number, or text for the host's float parser. */
  datatype Input = Number(x: Value) | Text(text: string)

  /**
    Encodes an input in the named precision. The host's float parser is a
    parameter; text it rejects gives the quiet NaN with reason "Invalid input: "
    followed by the text. An unknown precision name is an error.
   */
  function ToIeee754(value: Input, precision: string := "single", parseFloat: string -> Option<Value>): (r: Result<CodecResult, CodecError>)
    ensures r.Success? <==> PrecisionByName(precision).Some?
    ensures r.Failure? ==> r.error == UnknownPrecision(precision)
    ensures r.Success? ==> Consistent(ConfigOf(PrecisionByName(precision).value), r.value)
    ensures r.Success? && value.Text? && parseFloat(value.text).None? ==>
      r.value == NanResult(ConfigOf(PrecisionByName(precision).value), "Invalid input: " + value.text)
    ensures r.Success? && value.Number? ==> r.value == EncodeValue(ConfigOf(PrecisionByName(precision).value), value.x)
    ensures r.Success? && value.Text? && parseFloat(value.text).Some? ==>
      r.value == EncodeValue(ConfigOf(PrecisionByName(precision).value), parseFloat(value.text).value)
  {
    match PrecisionByName(precision)
    case None => Failure(UnknownPrecision(precision))
    case Some(p) =>
      var c := ConfigOf(p);
      match value
      case Number(x) => Success(EncodeValue(c, x))
      case Text(s) =>
        match parseFloat(s)
        case None => Success(NanResult(c, "Invalid input: " + s))
        case Some(x) => Success(EncodeValue(c, x))
  }

  /** Decoding a pattern already parsed to an integer of W bits: unpack, repack, classify, evaluate. */
  function Decode(c: Config, bits: nat): (r: CodecResult)
    requires Valid(c) && bits < Pow2(c.totalBits)
    ensures Consistent(c, r)
    ensures r.fields.bits == bits
    ensures var f := UnpackInt(c, bits); r.sign == f.sign && r.exponentRaw == f.exponent && r.mantissaRaw == f.mantissa
    ensures r.exponentUnbiased.None? && r.originalValue.None? && r.reason.None?
  {
    var f := UnpackInt(c, bits);
    var cls := Classify(c, f.exponent, f.mantissa);
    PackUnpack(c, bits);
    Assemble(c, f.sign, f.exponent, f.mantissa, cls, ComputeValue(c, f.sign, f.exponent, f.mantissa, cls), None, None, None)
  }

  /** Decodes a pattern given as an integer, a binary string or a 0x-prefixed hexadecimal string. */
  function FromIeee754(bits: BitPattern, precision: string := "single"): (r: Result<CodecResult, CodecError>)
    ensures PrecisionByName(precision).None? ==> r == Failure(UnknownPrecision(precision))
    ensures PrecisionByName(precision).Some? ==>
      var c := ConfigOf(PrecisionByName(precision).value);
      && (r.Success? <==> ParseBits(c, bits).Success?)
      && (r.Failure? ==> r.error == MalformedBits)
      && (r.Success? ==> Consistent(c, r.value) && r.value.fields.bits == ParseBits(c, bits).value)
  {
    match PrecisionByName(precision)
    case None => Failure(UnknownPrecision(precision))
    case Some(p) => DecodePattern(ConfigOf(p), bits)
  }

  /** Decoding a pattern in a known format: parse it to an integer, then decode that integer. */
  function DecodePattern(c: Config, bits: BitPattern): (r: Result<CodecResult, CodecError>)
    requires Valid(c)
    ensures r.Success? <==> ParseBits(c, bits).Success?
    ensures r.Failure? ==> r.error == MalformedBits
    ensures r.Success? ==> Consistent(c, r.value) && r.value.fields.bits == ParseBits(c, bits).value
  {
    match ParseBits(c, bits)
    case Failure(e) => Failure(e)
    case Success(n) => Success(Decode(c, n))
  }
}
