/**
  Properties of the codec: classification against the decoded value, the
  decode/encode round trips, the encoder's class by magnitude (underflow,
  subnormal range, overflow), its rounding error, the special inputs and the
  single-precision test patterns.
 */
module ConversionProperties {
  import opened Wrappers
  import opened Powers
  import opened Numerals
  import opened Packing
  import opened Rounding
  import opened Conversion

  // ---------------------------------------------------------------------
  // Decoded magnitudes

  /** The fraction field read as m / 2^F lies in [0, 1), and is positive when m is. */
  lemma {:induction false} FractionRange(c: Config, m: nat)
    requires Valid(c) && m <= c.fracMask
    ensures 0.0 <= FractionOf(c, m) < 1.0
    ensures m > 0 ==> FractionOf(c, m) > 0.0
  {
    var p := Pow2(c.fracBits) as real;
    DivNonNeg(m as real, p);
    DivSub(p, m as real, p);
    DivSelf(p);
    DivPos(p - m as real, p);
    if m > 0 {
      DivPos(m as real, p);
    }
  }

  /** A normal triple with biased exponent e has binary exponent e - bias. */
  lemma {:induction false} NormalMagnitudeBounds(c: Config, e: nat, m: nat)
    requires Valid(c) && m <= c.fracMask
    ensures Pow2R(e - c.bias) <= NormalMagnitude(c, e, m) < Pow2R(e - c.bias + 1)
    ensures Log2Floor(NormalMagnitude(c, e, m)) == e - c.bias
  {
    var k := e - c.bias;
    var x := NormalMagnitude(c, e, m);
    FractionRange(c, m);
    Pow2RPositive(k);
    NormalMagnitudeAt(c, e, m, k);
    ScaleBounds(x, 1.0 + FractionOf(c, m), Pow2R(k));
    Pow2RStep(k);
    Log2FloorUnique(x, k);
  }

  lemma {:induction false} ScaleBounds(x: real, s: real, p: real)
    requires p > 0.0 && 1.0 <= s < 2.0 && x == s * p
    ensures p <= x < 2.0 * p
  {
  }

  /** A subnormal triple denotes a magnitude in (0, 2^(1-bias)). */
  lemma {:induction false} SubnormalMagnitudeBounds(c: Config, m: nat)
    requires Valid(c) && 0 < m <= c.fracMask
    ensures 0.0 < SubnormalMagnitude(c, m) < Pow2R(1 - c.bias)
  {
    FractionRange(c, m);
    Pow2RPositive(1 - c.bias);
    MulLt(FractionOf(c, m), 1.0, Pow2R(1 - c.bias));
  }

  /** A normal magnitude with an integer significand: (2^F + m)·2^j for j = e - bias - F. */
  lemma {:induction false} NormalIntegerSignificand(c: Config, e: nat, m: nat, k: int, j: int)
    requires k == e - c.bias && j == k - c.fracBits
    ensures NormalMagnitude(c, e, m) == Units(Pow2(c.fracBits) + m, Pow2R(j))
  {
    Pow2RSplitAt(c.fracBits, k, j);
    SignificandForm(m as real, Pow2(c.fracBits) as real, Pow2R(k), Pow2R(j));
  }

  lemma {:induction false} Pow2RSplitAt(f: nat, k: int, j: int)
    requires j == k - f
    ensures Pow2R(k) == Pow2(f) as real * Pow2R(j)
  {
    Pow2RSplit(f, k);
  }

  lemma {:induction false} NormalMagnitudeAt(c: Config, e: nat, m: nat, k: int)
    requires k == e - c.bias
    ensures NormalMagnitude(c, e, m) == (1.0 + FractionOf(c, m)) * Pow2R(k)
  {
  }

  /** A subnormal magnitude with an integer significand: m·2^(1-bias-F). */
  lemma {:induction false} SubnormalIntegerSignificand(c: Config, m: nat)
    requires Valid(c)
    ensures SubnormalMagnitude(c, m) == m as real * Pow2R(1 - c.bias - c.fracBits)
  {
    Pow2RSplit(c.fracBits, 1 - c.bias);
    DivMulAssoc(m as real, Pow2(c.fracBits) as real, Pow2R(1 - c.bias), Pow2R(1 - c.bias - c.fracBits));
  }

  lemma {:induction false} SignificandForm(m: real, p: real, q: real, r: real)
    requires p > 0.0 && q == p * r
    ensures (1.0 + m / p) * q == (p + m) * r
  {
    DivMul(m, p);
  }

  lemma {:induction false} DivMulAssoc(m: real, p: real, q: real, r: real)
    requires p > 0.0 && q == p * r
    ensures m / p * q == m * r
  {
  }

  // ---------------------------------------------------------------------
  // Classification

  /**
    The class of an in-range triple is the kind of value it denotes: NaN and
    infinity by themselves, zero by a zero magnitude, subnormal by a magnitude
    in (0, 2^(1-bias)), normal by a magnitude of at least 2^(1-bias).
   */
  lemma {:induction false} ClassifyMatchesValue(c: Config, sign: nat, exponent: nat, mantissa: nat)
    requires Valid(c) && sign <= 1 && exponent <= c.expMax && mantissa <= c.fracMask
    ensures var cls := Classify(c, exponent, mantissa);
      var v := ComputeValue(c, sign, exponent, mantissa, cls);
      && (cls == NaN <==> v.NotANumber?)
      && (cls == Infinity <==> v.Infinite?)
      && (cls == Zero <==> v.Finite? && v.magnitude == 0.0)
      && (cls == Subnormal <==> v.Finite? && 0.0 < v.magnitude < Pow2R(1 - c.bias))
      && (cls == Normal <==> v.Finite? && v.magnitude >= Pow2R(1 - c.bias))
      && (!v.NotANumber? ==> v.negative == (sign == 1))
  {
    var cls := Classify(c, exponent, mantissa);
    Pow2RPositive(1 - c.bias);
    if cls == Subnormal {
      SubnormalMagnitudeBounds(c, mantissa);
    } else if cls == Normal {
      NormalMagnitudeBounds(c, exponent, mantissa);
      Pow2RLe(1 - c.bias, exponent - c.bias);
    }
  }

  // ---------------------------------------------------------------------
  // Round trips

  /** A subnormal magnitude scaled by 2^(F+bias-1) gives back the fraction field. */
  lemma {:induction false} SubnormalScaleBack(c: Config, m: nat)
    requires Valid(c)
    ensures SubnormalMagnitude(c, m) * Pow2R(c.fracBits + c.bias - 1) == m as real
  {
    SubnormalIntegerSignificand(c, m);
    Pow2RAdd(1 - c.bias - c.fracBits, c.fracBits + c.bias - 1);
    MulAssoc(m as real, Pow2R(1 - c.bias - c.fracBits), Pow2R(c.fracBits + c.bias - 1));
  }

  lemma {:induction false} MulAssoc(a: real, b: real, d: real)
    ensures (a * b) * d == a * (b * d)
  {
  }

  /** A normal magnitude divided by 2^(e-bias) is its significand 1 + m/2^F, so the scaled fraction is m. */
  lemma {:induction false} NormalScaleBack(c: Config, e: nat, m: nat)
    requires Valid(c) && m <= c.fracMask
    ensures NormalMagnitude(c, e, m) > 0.0
    ensures ScaledFraction(c, NormalMagnitude(c, e, m)) == m as real
  {
    var k := e - c.bias;
    var x := NormalMagnitude(c, e, m);
    NormalMagnitudeBounds(c, e, m);
    Pow2RPositive(e - c.bias);
    NormalFractionBack(c, e, m, k);
    ScaledFractionAt(c, x, k);
  }

  /** The scaled fraction is the fraction of mag against its own binade 2^floor(log2 mag). */
  lemma {:induction false} ScaledFractionAt(c: Config, mag: real, e: int)
    requires Valid(c) && mag > 0.0 && Log2Floor(mag) == e
    ensures ScaledFraction(c, mag) == BinadeFraction(c.fracBits, mag, e)
  {
  }

  /** Divided by 2^k, k = e - bias, a normal magnitude is its significand 1 + m/2^F. */
  lemma {:induction false} NormalSignificandBack(c: Config, e: nat, m: nat, k: int)
    requires k == e - c.bias
    ensures Pow2R(k) > 0.0
    ensures NormalMagnitude(c, e, m) / Pow2R(k) == 1.0 + FractionOf(c, m)
  {
    Pow2RPositive(k);
    ProductQuotient(NormalMagnitude(c, e, m), Pow2R(k), 1.0 + FractionOf(c, m));
  }

  lemma {:induction false} ProductQuotient(x: real, q: real, s: real)
    requires q > 0.0 && x == s * q
    ensures x / q == s
  {
  }

  /** Less one and scaled by 2^F, the significand 1 + m/2^F gives back m. */
  lemma {:induction false} NormalFractionBack(c: Config, e: nat, m: nat, k: int)
    requires k == e - c.bias
    ensures Pow2R(k) > 0.0
    ensures BinadeFraction(c.fracBits, NormalMagnitude(c, e, m), k) == m as real
  {
    var x := NormalMagnitude(c, e, m);
    NormalSignificandBack(c, e, m, k);
    Pow2RNat(c.fracBits);
    FractionScaleBack(x, Pow2R(k), FractionOf(c, m), m as real, Pow2(c.fracBits) as real, Pow2R(c.fracBits));
    assert BinadeFraction(c.fracBits, x, k) == (x / Pow2R(k) - 1.0) * Pow2R(c.fracBits);
  }

  lemma {:induction false} FractionScaleBack(x: real, q: real, f: real, m: real, p: real, y: real)
    requires q > 0.0 && p > 0.0 && x / q == 1.0 + f && f == m / p && y == p
    ensures (x / q - 1.0) * y == m
  {
    DivMul(m, p);
  }

  /** Decoding a result produced under the same format gives back its fields, class and value. */
  lemma {:induction false} EncodeThenDecode(c: Config, r: CodecResult)
    requires Valid(c) && Consistent(c, r)
    ensures r.fields.bits < Pow2(c.totalBits)
    ensures var d := Decode(c, r.fields.bits);
      && d.sign == r.sign && d.exponentRaw == r.exponentRaw && d.mantissaRaw == r.mantissaRaw
      && d.fields == r.fields && d.classification == r.classification && d.value == r.value
  {
    UnpackPack(c, r.sign, r.exponentRaw, r.mantissaRaw);
  }

  /** Encoding the magnitude of a subnormal triple gives back its fields. */
  lemma {:induction false} SubnormalReencode(c: Config, sign: nat, m: nat)
    requires Valid(c) && sign <= 1 && 0 < m <= c.fracMask
    ensures SubnormalMagnitude(c, m) > 0.0
    ensures var r := EncodePositive(c, SubnormalMagnitude(c, m), sign);
      r.sign == sign && r.exponentRaw == 0 && r.mantissaRaw == m
  {
    var mag := SubnormalMagnitude(c, m);
    SubnormalMagnitudeBounds(c, m);
    SubnormalScaleBack(c, m);
    Log2FloorBelowPower(mag, 1 - c.bias);
    assert SubnormalMantissa(c, mag) == m;
  }

  /** Encoding the magnitude of a normal triple gives back its fields: the scaled fraction is an integer, so nothing is rounded. */
  lemma {:induction false} NormalReencode(c: Config, sign: nat, e: nat, m: nat)
    requires Valid(c) && sign <= 1 && 1 <= e < c.expMax && m <= c.fracMask
    ensures NormalMagnitude(c, e, m) > 0.0
    ensures var r := EncodePositive(c, NormalMagnitude(c, e, m), sign);
      r.sign == sign && r.exponentRaw == e && r.mantissaRaw == m
  {
    var mag := NormalMagnitude(c, e, m);
    NormalScaleBack(c, e, m);
    NormalMagnitudeBounds(c, e, m);
    assert NormalRounding(c, mag) == Rounded(m, false);
  }

  /** Encoding the value of any triple that is not a NaN reproduces the triple. */
  lemma {:induction false} FieldsReencode(c: Config, sign: nat, e: nat, m: nat)
    requires Valid(c) && sign <= 1 && e <= c.expMax && m <= c.fracMask
    requires Classify(c, e, m) != NaN
    ensures var r := EncodeValue(c, ComputeValue(c, sign, e, m, Classify(c, e, m)));
      r.sign == sign && r.exponentRaw == e && r.mantissaRaw == m
  {
    var cls := Classify(c, e, m);
    if cls == Subnormal {
      SubnormalReencode(c, sign, m);
    } else if cls == Normal {
      NormalReencode(c, sign, e, m);
    }
  }

  /**
    Every pattern that is not a NaN is reproduced by encoding its own value:
    decoding then encoding gives the same fields, class, value and bits.
   */
  lemma {:induction false} DecodeThenEncode(c: Config, bits: nat)
    requires Valid(c) && bits < Pow2(c.totalBits)
    requires Decode(c, bits).classification != NaN
    ensures var d := Decode(c, bits);
      var r := EncodeValue(c, d.value);
      && r.sign == d.sign && r.exponentRaw == d.exponentRaw && r.mantissaRaw == d.mantissaRaw
      && r.fields == d.fields && r.fields.bits == bits
      && r.classification == d.classification && r.value == d.value
  {
    var f := UnpackInt(c, bits);
    FieldsReencode(c, f.sign, f.exponent, f.mantissa);
  }

  // ---------------------------------------------------------------------
  // The encoder's class by magnitude

  /** Half the smallest subnormal, 2^(-F-bias): the subnormal path rounds anything below it to zero. */
  function UnderflowThreshold(c: Config): real {
    Pow2R(-(c.fracBits + c.bias))
  }

  /** The smallest normal magnitude, 2^(1-bias). */
  function MinNormal(c: Config): real {
    Pow2R(1 - c.bias)
  }

  /**
    Halfway between the largest finite magnitude (2 - 2^-F)·2^bias and
    2^(bias+1): (2 - 2^-(F+1))·2^bias. The largest finite unbiased exponent
    equals the bias.
   */
  function OverflowThreshold(c: Config): real {
    (2.0 - 1.0 / Pow2(c.fracBits + 1) as real) * Pow2R(c.bias)
  }

  /** The four thresholds are in increasing order. */
  lemma {:induction false} ThresholdsOrdered(c: Config)
    requires Valid(c)
    ensures 0.0 < UnderflowThreshold(c) < MinNormal(c) < OverflowThreshold(c) < Pow2R(c.bias + 1)
  {
    Pow2RPositive(-(c.fracBits + c.bias));
    Pow2RMonotone(-(c.fracBits + c.bias), 1 - c.bias);
    assert c.bias >= 1 by { assert Pow2(c.expBits - 1) == 2 * Pow2(c.expBits - 2); }
    Pow2RLe(1 - c.bias, c.bias);
    Pow2RStep(c.bias);
    Pow2RPositive(c.bias);
    var p := Pow2(c.fracBits + 1) as real;
    assert p >= 2.0 by { assert Pow2(c.fracBits + 1) == 2 * Pow2(c.fracBits); }
    DivPos(1.0, p);
    assert 1.0 / p <= 0.5 by { MulLeIff(1.0 / p, 0.5, p); DivMul(1.0, p); }
    MulLt(1.0, 2.0 - 1.0 / p, Pow2R(c.bias));
    MulLt(2.0 - 1.0 / p, 2.0, Pow2R(c.bias));
  }

  /** The subnormal path rounds to fraction 0 exactly below half the smallest subnormal; the clamp never gives 0. */
  lemma {:induction false} SubnormalMantissaZero(c: Config, mag: NonNegReal)
    requires Valid(c)
    ensures SubnormalMantissa(c, mag) == 0 <==> mag < UnderflowThreshold(c)
  {
    var q := Pow2R(c.fracBits + c.bias - 1);
    Pow2RPositive(c.fracBits + c.bias - 1);
    Pow2RAdd(-(c.fracBits + c.bias), c.fracBits + c.bias - 1);
    assert UnderflowThreshold(c) * q == 0.5;
    MulLeIff(UnderflowThreshold(c), mag, q);
    assert c.fracMask >= 1 by { assert Pow2(c.fracBits) == 2 * Pow2(c.fracBits - 1); }
  }

  /** Below the smallest normal the encoder takes the subnormal path. */
  lemma {:induction false} SubnormalDispatch(c: Config, mag: NonNegReal, sign: nat)
    requires Valid(c) && sign <= 1 && 0.0 < mag < MinNormal(c)
    ensures EncodePositive(c, mag, sign) == EncodeSubnormal(c, mag, sign)
  {
    Log2FloorBelowPower(mag, 1 - c.bias);
  }

  /** (u - 1)·p >= p - 1/2 with u = mag / q is mag >= (2 - 1/(2p))·q. */
  lemma {:induction false} ThresholdEquiv(mag: real, q: real, p: real, s: real)
    requires q > 0.0 && p >= 1.0 && s == (mag / q - 1.0) * p
    ensures s >= p - 0.5 <==> mag >= (2.0 - 1.0 / (2.0 * p)) * q
  {
    var u := mag / q;
    var t := 2.0 - 1.0 / (2.0 * p);
    DivMul(mag, q);
    MulLeIff(t, u, q);
    assert (u - 1.0) * p == u * p - p;
    assert t * p == 2.0 * p - 0.5;
    MulLeIff(t, u, p);
  }

  /** On the normal path the result is infinity exactly when the biased exponent overflows, before or through the rounding carry. */
  lemma {:induction false} NormalPathInfinity(c: Config, mag: NonNegReal, sign: nat)
    requires Valid(c) && sign <= 1 && mag > 0.0 && Log2Floor(mag) >= 1 - c.bias
    ensures var cls := EncodePositive(c, mag, sign).classification; cls == Normal || cls == Infinity
    ensures var biased := Log2Floor(mag) + c.bias;
      EncodePositive(c, mag, sign).classification == Infinity <==>
        biased >= c.expMax || (biased == c.expMax - 1 && NormalRounding(c, mag).carry)
  {
  }

  /** With unbiased exponent equal to the bias, the rounding carries exactly from the overflow threshold on. */
  lemma {:induction false} TopBinadeCarry(c: Config, mag: NonNegReal)
    requires Valid(c) && mag > 0.0 && Log2Floor(mag) == c.bias
    ensures NormalRounding(c, mag).carry <==> mag >= OverflowThreshold(c)
  {
    var p := Pow2(c.fracBits) as real;
    assert Pow2(c.fracBits + 1) as real == 2.0 * p;
    var scaled := ScaledFraction(c, mag);
    ScaledFractionAt(c, mag, c.bias);
    Pow2RNat(c.fracBits);
    Pow2RPositive(c.bias);
    assert scaled == (mag / Pow2R(c.bias) - 1.0) * p;
    NormalRoundingCarry(c, mag);
    ThresholdEquiv(mag, Pow2R(c.bias), p, scaled);
    assert OverflowThreshold(c) == (2.0 - 1.0 / (2.0 * p)) * Pow2R(c.bias);
  }

  /** The normal path's rounding carries exactly when the scaled fraction is at least 2^F - 1/2. */
  lemma {:induction false} NormalRoundingCarry(c: Config, mag: real)
    requires Valid(c) && mag > 0.0
    ensures NormalRounding(c, mag).carry <==> ScaledFraction(c, mag) >= Pow2(c.fracBits) as real - 0.5
  {
    EncoderFlagsCarry(ScaledFraction(c, mag), c.fracBits);
  }

  /** The overflow threshold is at least 2^bias. */
  lemma {:induction false} OverflowAboveTopBinade(c: Config)
    requires Valid(c)
    ensures OverflowThreshold(c) >= Pow2R(c.bias)
  {
    Pow2RPositive(c.bias);
    var p := Pow2(c.fracBits + 1) as real;
    DivPos(1.0, p);
    assert 1.0 / p <= 1.0 by { MulLeIff(1.0 / p, 1.0, p); DivMul(1.0, p); }
    MulLe(1.0, 2.0 - 1.0 / p, Pow2R(c.bias));
  }

  /**
    Overflow: a positive magnitude encodes as infinity exactly from the
    overflow threshold on, whether the exponent overflows before rounding or
    through the rounding carry.
   */
  lemma {:induction false} EncodeOverflow(c: Config, mag: NonNegReal, sign: nat)
    requires Valid(c) && sign <= 1 && mag > 0.0
    ensures EncodePositive(c, mag, sign).classification == Infinity <==> mag >= OverflowThreshold(c)
  {
    if mag >= MinNormal(c) {
      var e := Log2Floor(mag);
      if e >= c.bias + 1 {
        OverflowAboveTop(c, mag, sign);
      } else if e == c.bias {
        OverflowInTopBinade(c, mag, sign);
      } else {
        OverflowBelowTop(c, mag, sign);
      }
    } else {
      ThresholdsOrdered(c);
      SubnormalDispatch(c, mag, sign);
    }
  }

  /** Above the top binade the exponent overflows before rounding. */
  lemma {:induction false} OverflowAboveTop(c: Config, mag: NonNegReal, sign: nat)
    requires Valid(c) && sign <= 1 && mag > 0.0 && mag >= MinNormal(c) && Log2Floor(mag) >= c.bias + 1
    ensures EncodePositive(c, mag, sign).classification == Infinity && mag >= OverflowThreshold(c)
  {
    ThresholdsOrdered(c);
    ExpMaxIsTwiceBias(c);
    Log2FloorAtLeastPower(mag, 1 - c.bias);
    NormalPathInfinity(c, mag, sign);
    Pow2RLe(c.bias + 1, Log2Floor(mag));
  }

  /** In the top binade the result overflows exactly when the rounding carries. */
  lemma {:induction false} OverflowInTopBinade(c: Config, mag: NonNegReal, sign: nat)
    requires Valid(c) && sign <= 1 && mag > 0.0 && mag >= MinNormal(c) && Log2Floor(mag) == c.bias
    ensures EncodePositive(c, mag, sign).classification == Infinity <==> mag >= OverflowThreshold(c)
  {
    ThresholdsOrdered(c);
    ExpMaxIsTwiceBias(c);
    Log2FloorAtLeastPower(mag, 1 - c.bias);
    NormalPathInfinity(c, mag, sign);
    TopBinadeCarry(c, mag);
  }

  /** Below the top binade neither the exponent nor the carry reaches exp_max. */
  lemma {:induction false} OverflowBelowTop(c: Config, mag: NonNegReal, sign: nat)
    requires Valid(c) && sign <= 1 && mag > 0.0 && mag >= MinNormal(c) && Log2Floor(mag) < c.bias
    ensures EncodePositive(c, mag, sign).classification != Infinity && mag < OverflowThreshold(c)
  {
    ThresholdsOrdered(c);
    ExpMaxIsTwiceBias(c);
    Log2FloorAtLeastPower(mag, 1 - c.bias);
    NormalPathInfinity(c, mag, sign);
    Pow2RLe(Log2Floor(mag) + 1, c.bias);
    OverflowAboveTopBinade(c);
  }

  /**
    The class of an encoded positive magnitude is decided by where it falls
    among the thresholds: zero below half the smallest subnormal, subnormal
    up to the smallest normal, normal up to the overflow threshold, infinity
    from there on.
   */
  lemma {:induction false} EncodeClassByMagnitude(c: Config, mag: NonNegReal, sign: nat)
    requires Valid(c) && sign <= 1 && mag > 0.0
    ensures var cls := EncodePositive(c, mag, sign).classification;
      && (cls == Zero <==> mag < UnderflowThreshold(c))
      && (cls == Subnormal <==> UnderflowThreshold(c) <= mag < MinNormal(c))
      && (cls == Normal <==> MinNormal(c) <= mag < OverflowThreshold(c))
      && (cls == Infinity <==> OverflowThreshold(c) <= mag)
  {
    ThresholdsOrdered(c);
    EncodeOverflow(c, mag, sign);
    if mag < MinNormal(c) {
      SubnormalDispatch(c, mag, sign);
      SubnormalMantissaZero(c, mag);
    } else {
      Log2FloorAtLeastPower(mag, 1 - c.bias);
      NormalPathInfinity(c, mag, sign);
    }
  }

  // ---------------------------------------------------------------------
  // Rounding accuracy of the normal path

  /** The fields of a normal result: the biased exponent of mag, raised by one on a carry, and the rounded fraction. */
  lemma {:induction false} NormalPathFields(c: Config, mag: NonNegReal, sign: nat)
    requires Valid(c) && sign <= 1 && mag > 0.0 && EncodePositive(c, mag, sign).classification == Normal
    ensures var r := EncodePositive(c, mag, sign);
      var rd := NormalRounding(c, mag);
      && Log2Floor(mag) >= 1 - c.bias
      && r.exponentRaw == Log2Floor(mag) + c.bias + (if rd.carry then 1 else 0)
      && r.mantissaRaw == rd.mantissa
      && rd.mantissa <= c.fracMask && (rd.carry ==> rd.mantissa == 0)
      && r.value.Finite? && r.value.magnitude == NormalMagnitude(c, r.exponentRaw, r.mantissaRaw)
  {
    NormalPathExponent(c, mag, sign);
    NormalPathMantissa(c, mag, sign);
    NormalPathValue(c, mag, sign);
  }

  lemma {:induction false} NormalPathExponent(c: Config, mag: NonNegReal, sign: nat)
    requires Valid(c) && sign <= 1 && mag > 0.0 && EncodePositive(c, mag, sign).classification == Normal
    ensures Log2Floor(mag) >= 1 - c.bias
    ensures EncodePositive(c, mag, sign).exponentRaw == Log2Floor(mag) + c.bias + (if NormalRounding(c, mag).carry then 1 else 0)
  {
  }

  lemma {:induction false} NormalPathMantissa(c: Config, mag: NonNegReal, sign: nat)
    requires Valid(c) && sign <= 1 && mag > 0.0 && EncodePositive(c, mag, sign).classification == Normal
    ensures var rd := NormalRounding(c, mag);
      && EncodePositive(c, mag, sign).mantissaRaw == rd.mantissa
      && rd.mantissa <= c.fracMask && (rd.carry ==> rd.mantissa == 0)
  {
  }

  lemma {:induction false} NormalPathValue(c: Config, mag: NonNegReal, sign: nat)
    requires Valid(c) && sign <= 1 && mag > 0.0 && EncodePositive(c, mag, sign).classification == Normal
    ensures var r := EncodePositive(c, mag, sign);
      r.value.Finite? && r.value.magnitude == NormalMagnitude(c, r.exponentRaw, r.mantissaRaw)
  {
  }

  /** With q = P·u: mag / u == (mag / q - 1)·P + P. */
  lemma {:induction false} QuotientScale(mag: real, p: real, u: real, q: real)
    requires p > 0.0 && u > 0.0 && q == p * u
    ensures mag / u == (mag / q - 1.0) * p + p
  {
    assert mag / q * p == mag / u;
  }

  /** Measured in units of 2^(e-F), mag is 2^F plus s = (mag / 2^e - 1)·2^F. */
  lemma {:induction false} PowerQuotientScale(mag: real, f: nat, e: int, s: real)
    requires s == BinadeFraction(f, mag, e)
    ensures Pow2R(e - f) > 0.0 && mag / Pow2R(e - f) == Pow2R(f) + s
  {
    Pow2RPositive(e);
    assert s == (mag / Pow2R(e) - 1.0) * Pow2R(f);
    Pow2RPositive(f);
    Pow2RPositive(e - f);
    Pow2RFactor(f, e);
    QuotientScale(mag, Pow2R(f), Pow2R(e - f), Pow2R(e));
  }

  /** Measured in units of 2^(e-F), e = floor(log2 mag), mag is 2^F plus the scaled fraction the normal path rounds. */
  lemma {:induction false} MagnitudeInUnits(c: Config, mag: NonNegReal)
    requires Valid(c) && mag > 0.0
    ensures var e := Log2Floor(mag);
      Pow2R(e - c.fracBits) > 0.0 &&
      mag / Pow2R(e - c.fracBits) == Pow2R(c.fracBits) + ScaledFraction(c, mag)
  {
    ScaledFractionAt(c, mag, Log2Floor(mag));
    PowerQuotientScale(mag, c.fracBits, Log2Floor(mag), ScaledFraction(c, mag));
  }

  /** Shifting by an even integer keeps the nearest-even relation. */
  lemma {:induction false} NearestEvenShift(x: real, n: int, k: int)
    requires IsNearestEven(x, n) && k % 2 == 0
    ensures IsNearestEven(x + k as real, n + k)
  {
  }

  /** Normal fields taken from a rounding of mag's binade denote n = 2^F + the rounded value units of ulp = 2^(e-F). */
  lemma {:induction false} RoundedFieldsInUnits(c: Config, e: int, exponent: nat, mantissa: nat, rd: Rounded, n: nat, ulp: real, x: real)
    requires Valid(c) && exponent == e + c.bias + (if rd.carry then 1 else 0)
    requires mantissa == rd.mantissa && (rd.carry ==> rd.mantissa == 0)
    requires n == Pow2(c.fracBits) + RoundedValue(rd, c.fracBits) && ulp == Pow2R(e - c.fracBits)
    requires x == NormalMagnitude(c, exponent, mantissa)
    ensures x == Units(n, ulp)
  {
    if rd.carry {
      NormalIntegerSignificand(c, exponent, mantissa, exponent - c.bias, e - c.fracBits + 1);
      Pow2RStep(e - c.fracBits);
      CarryUnits(NormalMagnitude(c, exponent, mantissa), Pow2(c.fracBits), n, ulp, Pow2R(e - c.fracBits + 1));
    } else {
      NormalIntegerSignificand(c, exponent, mantissa, exponent - c.bias, e - c.fracBits);
      SameUnits(NormalMagnitude(c, exponent, mantissa), Pow2(c.fracBits) + mantissa, n, ulp);
    }
  }

  lemma {:induction false} SameUnits(x: real, a: int, b: int, u: real)
    requires x == Units(a, u) && a == b
    ensures x == Units(b, u)
  {
  }

  /** p units of 2u are 2p units of u. */
  lemma {:induction false} CarryUnits(x: real, p: int, n: int, u: real, u2: real)
    requires x == Units(p + 0, u2) && u2 == 2.0 * u && n == p + p
    ensures x == Units(n, u)
  {
  }

  /** From n nearest-even to x / u, v = n·u is within half of u of x. */
  lemma {:induction false} HalfUnitError(x: real, u: real, n: int, v: real)
    requires u > 0.0 && IsNearestEven(x / u, n) && v == n as real * u
    ensures -0.5 * u <= v - x <= 0.5 * u
  {
    var d := n as real - x / u;
    DivMul(x, u);
    assert v - x == d * u;
    MulLe(-0.5, d, u);
    MulLe(d, 0.5, u);
  }

  /** n units of u, the magnitude n·u. */
  function Units(n: int, u: real): real {
    n as real * u
  }

  /** The unit in the last place of a normal magnitude's binade, 2^(e-F) for e = floor(log2 mag). */
  function Ulp(c: Config, mag: real): real
    requires mag > 0.0
  {
    Pow2R(Log2Floor(mag) - c.fracBits)
  }

  /** The significand the normal path rounds mag to, counted in ulps: 2^F plus the rounded fraction, 2^(F+1) on a carry. */
  function RoundedSignificand(c: Config, mag: real): nat
    requires Valid(c) && mag > 0.0
  {
    Pow2(c.fracBits) + RoundedValue(NormalRounding(c, mag), c.fracBits)
  }

  /** The magnitude of normal fields taken from the rounding of mag is the rounded significand in ulps. */
  lemma {:induction false} RoundedResultInUnits(c: Config, mag: real, r: CodecResult)
    requires Valid(c) && mag > 0.0
    requires r.exponentRaw == Log2Floor(mag) + c.bias + (if NormalRounding(c, mag).carry then 1 else 0)
    requires r.mantissaRaw == NormalRounding(c, mag).mantissa
    requires r.value.Finite? && r.value.magnitude == NormalMagnitude(c, r.exponentRaw, r.mantissaRaw)
    ensures r.value.magnitude == Units(RoundedSignificand(c, mag), Ulp(c, mag))
  {
    var rd := NormalRounding(c, mag);
    var e := Log2Floor(mag);
    var n := RoundedSignificand(c, mag);
    var u := Ulp(c, mag);
    assert u == Pow2R(e - c.fracBits);
    assert n == Pow2(c.fracBits) + RoundedValue(rd, c.fracBits);
    assert rd.carry ==> rd.mantissa == 0;
    RoundedFieldsInUnits(c, e, r.exponentRaw, r.mantissaRaw, rd, n, u, r.value.magnitude);
  }

  /** A normal result's magnitude is its rounded significand in ulps. */
  lemma {:induction false} NormalValueInUnits(c: Config, mag: NonNegReal, sign: nat)
    requires Valid(c) && sign <= 1 && mag > 0.0 && EncodePositive(c, mag, sign).classification == Normal
    ensures EncodePositive(c, mag, sign).value.Finite?
    ensures EncodePositive(c, mag, sign).value.magnitude == Units(RoundedSignificand(c, mag), Ulp(c, mag))
  {
    NormalPathFields(c, mag, sign);
    RoundedResultInUnits(c, mag, EncodePositive(c, mag, sign));
  }

  /**
    The normal path rounds correctly: the result is N ulps where N is the
    integer nearest to mag / ulp, the even one on a tie. The carry case,
    N = 2^(F+1), is included.
   */
  lemma {:induction false} NormalRoundsToNearestEven(c: Config, mag: NonNegReal, sign: nat)
    requires Valid(c) && sign <= 1 && mag > 0.0 && EncodePositive(c, mag, sign).classification == Normal
    ensures var v, u, n := EncodePositive(c, mag, sign).value, Ulp(c, mag), RoundedSignificand(c, mag);
      u > 0.0 && v.Finite? && v.magnitude == Units(n, u) && IsNearestEven(mag / u, n)
  {
    NormalValueInUnits(c, mag, sign);
    NormalRoundingNearest(c, mag);
  }

  /**
    The rounded significand in ulps is within half an ulp of mag; by
    NormalRoundsToNearestEven this is the error of every normal result.
   */
  lemma {:induction false} RoundedSignificandError(c: Config, mag: NonNegReal, u: real, n: nat)
    requires Valid(c) && mag > 0.0 && u == Ulp(c, mag) && n == RoundedSignificand(c, mag)
    ensures u > 0.0 && -0.5 * u <= n as real * u - mag <= 0.5 * u
  {
    NormalRoundingNearest(c, mag);
    HalfUnitError(mag, u, n, n as real * u);
  }

  /** The normal path's rounded significand, 2^F plus the rounded value, is nearest-even to mag in units of 2^(e-F). */
  lemma {:induction false} NormalRoundingNearest(c: Config, mag: NonNegReal)
    requires Valid(c) && mag > 0.0
    ensures Ulp(c, mag) > 0.0 && IsNearestEven(mag / Ulp(c, mag), RoundedSignificand(c, mag))
  {
    var scaled := ScaledFraction(c, mag);
    MagnitudeInUnits(c, mag);
    Pow2RNat(c.fracBits);
    assert Pow2(c.fracBits) % 2 == 0 by { assert Pow2(c.fracBits) == 2 * Pow2(c.fracBits - 1); }
    NearestEvenOffset(mag / Ulp(c, mag), Pow2(c.fracBits), scaled, RoundedValue(NormalRounding(c, mag), c.fracBits), RoundedSignificand(c, mag));
  }

  /** Adding an even integer p to a real and to its nearest-even integer keeps the second nearest-even to the first. */
  lemma {:induction false} NearestEvenOffset(x: real, p: int, s: real, r: int, n: int)
    requires IsNearestEven(s, r) && p % 2 == 0 && x == p as real + s && n == p + r
    ensures IsNearestEven(x, n)
  {
    NearestEvenShift(s, r, p);
  }

  // ---------------------------------------------------------------------
  // Round trips through the two entry points

  /** Encoding in a named precision and decoding the integer pattern back gives the same fields, class and value. */
  lemma {:induction false} ToThenFromIeee754(value: Input, precision: string, parseFloat: string -> Option<Value>)
    requires ToIeee754(value, precision, parseFloat).Success?
    ensures var r := ToIeee754(value, precision, parseFloat).value;
      var d := FromIeee754(IntBits(r.fields.bits), precision);
      && d.Success?
      && d.value.sign == r.sign && d.value.exponentRaw == r.exponentRaw && d.value.mantissaRaw == r.mantissaRaw
      && d.value.fields == r.fields && d.value.classification == r.classification && d.value.value == r.value
  {
    ConsistentPatternDecodes(precision, ToIeee754(value, precision, parseFloat).value);
  }

  /** Any result consistent with a named precision decodes, from its integer pattern, to the same fields, class and value. */
  lemma {:induction false} ConsistentPatternDecodes(precision: string, r: CodecResult)
    requires PrecisionByName(precision).Some? && Consistent(ConfigOf(PrecisionByName(precision).value), r)
    ensures var d := FromIeee754(IntBits(r.fields.bits), precision);
      && d.Success?
      && d.value.sign == r.sign && d.value.exponentRaw == r.exponentRaw && d.value.mantissaRaw == r.mantissaRaw
      && d.value.fields == r.fields && d.value.classification == r.classification && d.value.value == r.value
  {
    var c := ConfigOf(PrecisionByName(precision).value);
    EncodeThenDecode(c, r);
    FromIeee754Integer(precision, r.fields.bits);
  }

  /** An integer pattern that fits the named precision's width decodes as Decode of that integer. */
  lemma {:induction false} FromIeee754Integer(precision: string, n: nat)
    requires PrecisionByName(precision).Some? && n < Pow2(ConfigOf(PrecisionByName(precision).value).totalBits)
    ensures FromIeee754(IntBits(n), precision) == Success(Decode(ConfigOf(PrecisionByName(precision).value), n))
  {
    var c := ConfigOf(PrecisionByName(precision).value);
    DecodeIntegerPattern(c, n);
  }

  /** In a known format, an integer pattern of at most W bits decodes as Decode of that integer. */
  lemma {:induction false} DecodeIntegerPattern(c: Config, n: nat)
    requires Valid(c) && n < Pow2(c.totalBits)
    ensures DecodePattern(c, IntBits(n)) == Success(Decode(c, n))
  {
    assert ParseBits(c, IntBits(n)) == Success(n);
  }

  /** Decoding a pattern that is not a NaN and encoding its value in the same precision gives the pattern back. */
  lemma {:induction false} FromThenToIeee754(bits: BitPattern, precision: string, parseFloat: string -> Option<Value>)
    requires FromIeee754(bits, precision).Success?
    requires FromIeee754(bits, precision).value.classification != NaN
    ensures PrecisionByName(precision).Some?
    ensures var d := FromIeee754(bits, precision).value;
      var r := ToIeee754(Number(d.value), precision, parseFloat);
      && r.Success?
      && r.value.fields == d.fields && r.value.classification == d.classification && r.value.value == d.value
  {
    var c := ConfigOf(PrecisionByName(precision).value);
    var n := ParseBits(c, bits).value;
    DecodeThenEncode(c, n);
  }

  // ---------------------------------------------------------------------
  // Boundaries of the format

  /** The smallest subnormal 2^(1-bias-F) encodes as exponent field 0 and fraction 1. */
  lemma {:induction false} SmallestSubnormalEncodes(c: Config, sign: nat)
    requires Valid(c) && sign <= 1
    ensures Pow2R(1 - c.bias - c.fracBits) > 0.0
    ensures var r := EncodePositive(c, Pow2R(1 - c.bias - c.fracBits), sign);
      r.classification == Subnormal && r.exponentRaw == 0 && r.mantissaRaw == 1
  {
    SubnormalIntegerSignificand(c, 1);
    SubnormalReencode(c, sign, 1);
  }

  /** The smallest normal 2^(1-bias) encodes as exponent field 1 and fraction 0. */
  lemma {:induction false} SmallestNormalEncodes(c: Config, sign: nat)
    requires Valid(c) && sign <= 1
    ensures MinNormal(c) > 0.0
    ensures var r := EncodePositive(c, MinNormal(c), sign);
      r.classification == Normal && r.exponentRaw == 1 && r.mantissaRaw == 0
  {
    assert NormalMagnitude(c, 1, 0) == MinNormal(c);
    NormalReencode(c, sign, 1, 0);
    ExpMaxIsTwiceBias(c);
  }

  /** The largest finite magnitude (2 - 2^-F)·2^bias encodes as the largest finite exponent and a full fraction. */
  lemma {:induction false} LargestFiniteEncodes(c: Config, sign: nat)
    requires Valid(c) && sign <= 1
    ensures NormalMagnitude(c, c.expMax - 1, c.fracMask) > 0.0
    ensures var r := EncodePositive(c, NormalMagnitude(c, c.expMax - 1, c.fracMask), sign);
      r.classification == Normal && r.exponentRaw == c.expMax - 1 && r.mantissaRaw == c.fracMask
  {
    ExpMaxIsTwiceBias(c);
    NormalReencode(c, sign, c.expMax - 1, c.fracMask);
  }

  /**
    The subnormal path rounds half up, not to even: half the smallest
    subnormal, an exact tie between 0 and 1 units, gives fraction 1 where
    roundTiesToEven gives 0.
   */
  lemma {:induction false} UnderflowTieRoundsUp(c: Config, sign: nat)
    requires Valid(c) && sign <= 1
    ensures UnderflowThreshold(c) > 0.0
    ensures var r := EncodePositive(c, UnderflowThreshold(c), sign);
      && r.classification == Subnormal && r.mantissaRaw == 1
      && UnderflowThreshold(c) * Pow2R(c.fracBits + c.bias - 1) == 0.5
      && !IsNearestEven(0.5, r.mantissaRaw) && IsNearestEven(0.5, 0)
  {
    ThresholdsOrdered(c);
    SubnormalDispatch(c, UnderflowThreshold(c), sign);
    SubnormalMantissaAtTie(c);
  }

  /** At half the smallest subnormal the scaled magnitude is exactly 1/2, which the subnormal path rounds to 1. */
  lemma {:induction false} SubnormalMantissaAtTie(c: Config)
    requires Valid(c)
    ensures UnderflowThreshold(c) >= 0.0
    ensures UnderflowThreshold(c) * Pow2R(c.fracBits + c.bias - 1) == 0.5
    ensures SubnormalMantissa(c, UnderflowThreshold(c)) == 1
  {
    Pow2RPositive(-(c.fracBits + c.bias));
    Pow2RAdd(-(c.fracBits + c.bias), c.fracBits + c.bias - 1);
    assert c.fracMask >= 1 by { assert Pow2(c.fracBits) == 2 * Pow2(c.fracBits - 1); }
  }

  /**
    The subnormal path's error in units of the smallest subnormal: below the
    clamp at fracMask + 1/2 units it is at most half a unit, ties rounding
    up; from the clamp on the result is the largest subnormal, up to one unit
    below the input.
   */
  lemma {:induction false} SubnormalRoundingError(c: Config, mag: NonNegReal)
    requires Valid(c) && 0.0 < mag < MinNormal(c)
    ensures var x := mag * Pow2R(c.fracBits + c.bias - 1);
      var m := SubnormalMantissa(c, mag) as real;
      && x < Pow2(c.fracBits) as real
      && (x < c.fracMask as real + 0.5 ==> -0.5 < m - x <= 0.5)
      && (x >= c.fracMask as real + 0.5 ==> SubnormalMantissa(c, mag) == c.fracMask && -1.0 < m - x <= -0.5)
  {
    var q := Pow2R(c.fracBits + c.bias - 1);
    Pow2RPositive(c.fracBits + c.bias - 1);
    MulLt(mag, MinNormal(c), q);
    Pow2RAdd(1 - c.bias, c.fracBits + c.bias - 1);
    Pow2RNat(c.fracBits);
  }

  // ---------------------------------------------------------------------
  // The limit_denominator cut (see Findings)

  /**
    As written, every magnitude up to 2^-61 is returned as zero, even where
    the corrected encoder gives a subnormal or a normal result.
   */
  lemma {:induction false} AsWrittenFlushesTinyValues(c: Config, mag: NonNegReal, sign: nat)
    requires Valid(c) && sign <= 1 && UnderflowThreshold(c) <= mag <= Pow2R(-61)
    ensures EncodeNormalNumberAsWritten(c, mag, sign).classification == Zero
    ensures EncodeNormalNumber(c, mag, sign).classification != Zero
  {
    ThresholdsOrdered(c);
    EncodeClassByMagnitude(c, mag, sign);
  }

  /** Above 2^-61 the written encoder and the corrected one agree. */
  lemma {:induction false} AsWrittenAgreesAboveCut(c: Config, mag: NonNegReal, sign: nat)
    requires Valid(c) && sign <= 1 && mag > Pow2R(-61)
    ensures EncodeNormalNumberAsWritten(c, mag, sign) == EncodeNormalNumber(c, mag, sign)
  {
  }

  /**
    In a format whose underflow threshold lies above 2^-61 (half precision:
    2^-25) the cut changes nothing: those magnitudes round to zero anyway.
   */
  lemma {:induction false} AsWrittenHarmlessForNarrowFormats(c: Config, mag: NonNegReal, sign: nat)
    requires Valid(c) && sign <= 1 && c.fracBits + c.bias <= 60
    ensures EncodeNormalNumberAsWritten(c, mag, sign) == EncodeNormalNumber(c, mag, sign)
  {
    if 0.0 < mag <= Pow2R(-61) {
      Pow2RMonotone(-61, -(c.fracBits + c.bias));
      ThresholdsOrdered(c);
      SubnormalDispatch(c, mag, sign);
      SubnormalMantissaZero(c, mag);
    }
  }
}
