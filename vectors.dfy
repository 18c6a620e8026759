/**
  Concrete binary32 patterns: what the decoder makes of a handful of bit
  patterns, what the encoder makes of a few magnitudes, and where the
  encoder's boundaries fall in that format.
 */
module Vectors {
  import opened Powers
  import opened Packing
  import opened Conversion
  import opened ConversionProperties

  /** The binary32 decoding of `bits` has the given class, sign, exponent field, fraction field and value. */
  predicate DecodesTo(bits: nat, cls: Class, sign: nat, exponent: nat, mantissa: nat, v: Value)
    requires bits < 0x1_0000_0000
  {
    Pow2Values();
    var d := Decode(Binary32(), bits);
    d.classification == cls && d.sign == sign && d.exponentRaw == exponent && d.mantissaRaw == mantissa && d.value == v
  }

  /** A binary32 pattern whose fields are a normal exponent and a zero fraction decodes to a signed power of two. */
  lemma {:induction false} DecodePowerOfTwo(bits: nat, sign: nat, exponent: nat)
    requires bits < 0x1_0000_0000 && 0 < exponent < 255
    requires UnpackInt(Binary32(), bits) == Fields(sign, exponent, 0)
    ensures Pow2R(exponent - 127) > 0.0 && DecodesTo(bits, Normal, sign, exponent, 0, Finite(sign != 0, Pow2R(exponent - 127)))
  {
    Pow2Values();
    Pow2RPositive(exponent - 127);
    NormalPowerOfTwo(Binary32(), bits, sign, exponent);
  }

  /** The decoding of a pattern with a normal exponent field and a zero fraction field. */
  lemma {:induction false} NormalPowerOfTwo(c: Config, bits: nat, sign: nat, exponent: nat)
    requires Valid(c) && bits < Pow2(c.totalBits) && 0 < exponent < c.expMax
    requires UnpackInt(c, bits) == Fields(sign, exponent, 0)
    ensures Pow2R(exponent - c.bias) > 0.0
    ensures Decode(c, bits).classification == Normal
    ensures Decode(c, bits).value == Finite(sign != 0, Pow2R(exponent - c.bias))
  {
    Pow2RPositive(exponent - c.bias);
    var d := Decode(c, bits);
    assert d.sign == sign && d.exponentRaw == exponent && d.mantissaRaw == 0;
    assert d.classification == Normal;
    NormalZeroFractionValue(c, sign, exponent);
  }

  /** A normal exponent field with a zero fraction field has the value 2^(exponent - bias). */
  lemma {:induction false} NormalZeroFractionValue(c: Config, sign: nat, exponent: nat)
    requires Valid(c)
    ensures Pow2R(exponent - c.bias) > 0.0
    ensures ComputeValue(c, sign, exponent, 0, Normal) == Finite(sign != 0, Pow2R(exponent - c.bias))
  {
    Pow2RPositive(exponent - c.bias);
    ZeroOver(Pow2(c.fracBits) as real);
    assert FractionOf(c, 0) == 0.0;
  }

  /** Zero over a positive denominator is zero. */
  lemma {:induction false} ZeroOver(p: real)
    requires p > 0.0
    ensures 0 as real / p == 0.0
  {
  }

  /** 0x3F800000 unpacks to sign 0, exponent 127, fraction 0. */
  lemma {:induction false} UnpackOne()
    ensures UnpackInt(Binary32(), 0x3F800000) == Fields(0, 127, 0)
  {
    Pow2Values();
    assert 0x3F800000 / Pow2(23) == 127;
  }

  /** 0x40000000 and 0xC0000000 unpack to exponent 128, fraction 0, and signs 0 and 1. */
  lemma {:induction false} UnpackTwo()
    ensures UnpackInt(Binary32(), 0x40000000) == Fields(0, 128, 0)
    ensures UnpackInt(Binary32(), 0xC0000000) == Fields(1, 128, 0)
  {
    Pow2Values();
    assert 0x40000000 / Pow2(23) == 128;
    assert 0xC0000000 / Pow2(23) == 384;
  }

  /** 0x3F800000 decodes to the normal 1.0: sign 0, exponent 127, fraction 0. */
  lemma {:induction false} DecodeOne()
    ensures DecodesTo(0x3F800000, Normal, 0, 127, 0, Finite(false, 1.0))
  {
    UnpackOne();
    DecodePowerOfTwo(0x3F800000, 0, 127);
  }

  /** 0x40000000 decodes to 2.0: sign 0, exponent 128, fraction 0. */
  lemma {:induction false} DecodeTwo()
    ensures DecodesTo(0x40000000, Normal, 0, 128, 0, Finite(false, 2.0))
  {
    UnpackTwo();
    DecodePowerOfTwo(0x40000000, 0, 128);
    assert Pow2R(1) == 2.0;
  }

  /** 0xC0000000 decodes to -2.0: sign 1, exponent 128, fraction 0. */
  lemma {:induction false} DecodeMinusTwo()
    ensures DecodesTo(0xC0000000, Normal, 1, 128, 0, Finite(true, 2.0))
  {
    UnpackTwo();
    DecodePowerOfTwo(0xC0000000, 1, 128);
    assert Pow2R(1) == 2.0;
  }

  /** The all-ones exponent: 0x7F800000 and 0xFF800000 are the infinities, 0x7FC00000 is the quiet NaN. */
  lemma {:induction false} DecodeSpecials()
    ensures DecodesTo(0x7F800000, Infinity, 0, 255, 0, Infinite(false))
    ensures DecodesTo(0xFF800000, Infinity, 1, 255, 0, Infinite(true))
    ensures DecodesTo(0x7FC00000, NaN, 0, 255, 0x400000, NotANumber)
  {
    Pow2Values();
    assert 0x7F800000 / Pow2(23) == 255;
    assert 0xFF800000 / Pow2(23) == 511;
    assert 0x7FC00000 / Pow2(23) == 255;
  }

  /** The quiet NaN the encoder produces is the pattern 0x7FC00000. */
  lemma {:induction false} EncodeNaN()
    ensures NanResult(Binary32(), "NaN").fields.bits == 0x7FC00000
  {
    Pow2Values();
  }

  /** Encoding 2.0 and -2.0 gives 0x40000000 and 0xC0000000. */
  lemma {:induction false} EncodeTwo()
    ensures EncodeValue(Binary32(), Finite(false, 2.0)).fields.bits == 0x40000000
    ensures EncodeValue(Binary32(), Finite(true, 2.0)).fields.bits == 0xC0000000
  {
    DecodeTwo();
    EncodeDecoded(0x40000000, Normal, 0, 128, 0, Finite(false, 2.0));
    DecodeMinusTwo();
    EncodeDecoded(0xC0000000, Normal, 1, 128, 0, Finite(true, 2.0));
  }

  /** A binary32 pattern with a normal exponent field decodes to the normal magnitude of its fields. */
  lemma {:induction false} DecodeNormalPattern(bits: nat, sign: nat, exponent: nat, mantissa: nat, mag: real)
    requires bits < 0x1_0000_0000 && 0 < exponent < 255 && mag >= 0.0
    requires UnpackInt(Binary32(), bits) == Fields(sign, exponent, mantissa)
    requires mag == NormalMagnitude(Binary32(), exponent, mantissa)
    ensures DecodesTo(bits, Normal, sign, exponent, mantissa, Finite(sign != 0, mag))
  {
    Pow2Values();
    var d := Decode(Binary32(), bits);
    assert d.sign == sign && d.exponentRaw == exponent && d.mantissaRaw == mantissa;
    assert d.classification == Normal;
  }

  /** 0x3FC00000 and 0x40200000 unpack to the fields of 1.5 and 2.5. */
  lemma {:induction false} UnpackOperands()
    ensures UnpackInt(Binary32(), 0x3FC00000) == Fields(0, 127, 0x400000)
    ensures UnpackInt(Binary32(), 0x40200000) == Fields(0, 128, 0x200000)
  {
    Pow2Values();
    assert 0x3FC00000 / Pow2(23) == 127 && 0x3FC00000 % Pow2(23) == 0x400000;
    assert 0x40200000 / Pow2(23) == 128 && 0x40200000 % Pow2(23) == 0x200000;
  }

  /** The fields (127, 0x400000) and (128, 0x200000) denote 1.5 and 2.5. */
  lemma {:induction false} OperandMagnitudes()
    ensures NormalMagnitude(Binary32(), 127, 0x400000) == 1.5
    ensures NormalMagnitude(Binary32(), 128, 0x200000) == 2.5
  {
    Pow2Values();
    assert FractionOf(Binary32(), 0x400000) == 0.5;
    assert FractionOf(Binary32(), 0x200000) == 0.25;
    assert Pow2R(1) == 2.0;
  }

  /** 0x3FC00000 decodes to 1.5 and 0x40200000 to 2.5. */
  lemma {:induction false} DecodeOperands()
    ensures DecodesTo(0x3FC00000, Normal, 0, 127, 0x400000, Finite(false, 1.5))
    ensures DecodesTo(0x40200000, Normal, 0, 128, 0x200000, Finite(false, 2.5))
  {
    UnpackOperands();
    OperandMagnitudes();
    DecodeNormalPattern(0x3FC00000, 0, 127, 0x400000, 1.5);
    DecodeNormalPattern(0x40200000, 0, 128, 0x200000, 2.5);
  }

  /** Encoding the arithmetic demo's operands 1.5 and 2.5 gives 0x3FC00000 and 0x40200000. */
  lemma {:induction false} EncodeOperands()
    ensures EncodeValue(Binary32(), Finite(false, 1.5)).fields.bits == 0x3FC00000
    ensures EncodeValue(Binary32(), Finite(false, 2.5)).fields.bits == 0x40200000
  {
    DecodeOperands();
    EncodeDecoded(0x3FC00000, Normal, 0, 127, 0x400000, Finite(false, 1.5));
    EncodeDecoded(0x40200000, Normal, 0, 128, 0x200000, Finite(false, 2.5));
  }

  /** A binary32 pattern that decodes to a number is what the encoder makes of that number. */
  lemma {:induction false} EncodeDecoded(bits: nat, cls: Class, sign: nat, exponent: nat, mantissa: nat, v: Value)
    requires bits < 0x1_0000_0000 && cls != NaN
    requires DecodesTo(bits, cls, sign, exponent, mantissa, v)
    ensures EncodeValue(Binary32(), v).fields.bits == bits
  {
    Pow2Values();
    DecodeThenEncode(Binary32(), bits);
  }

  /**
    In binary32 the written encoder returns zero for the smallest normal
    2^-126, which the corrected encoder returns as exponent field 1.
   */
  lemma {:induction false} AsWrittenLosesSmallestNormal()
    ensures MinNormal(Binary32()) > 0.0
    ensures EncodeNormalNumberAsWritten(Binary32(), MinNormal(Binary32()), 0).classification == Zero
    ensures var r := EncodeNormalNumber(Binary32(), MinNormal(Binary32()), 0);
      r.classification == Normal && r.exponentRaw == 1 && r.mantissaRaw == 0
  {
    var c := Binary32();
    SmallestNormalEncodes(c, 0);
    ThresholdsOrdered(c);
    Pow2RLe(1 - c.bias, -61);
    AsWrittenFlushesTinyValues(c, MinNormal(c), 0);
  }
}
