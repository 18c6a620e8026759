# IEEE 754 binary-format calculator: a verified model of its codec

This project models the core of an educational IEEE 754 calculator in Dafny:

- the multi-precision codec (`ConversionModule.py`), which
  - encodes a decimal value as the sign, biased exponent and fraction fields
    of one of the binary interchange formats binary16, binary32, binary64 and
    binary128 (sections 3.4 and 3.6 of IEEE 754-2019), and
  - decodes a bit pattern back into its class (zero, subnormal, normal,
    infinity, NaN) and its value;
- the binary32 bit-string helpers of the calculator's window (`app.py`):
  grouping, splitting, and reading the exponent, the significand and the
  class name;
- the fixed-width bit-string shifts (`utils.py`).

Values are exact. A finite value is a sign plus a non-negative `real`
magnitude, so +0 and -0 stay distinct, and every NaN is the same value. The
binary exponent of a magnitude is `Log2Floor`, the unique `e` with
`2^e <= mag < 2^(e+1)`. The four helpers the codec imports from its `pack`
module are modelled in `Packing` and `Rounding` as specified functions:

- the format table;
- packing fields into `s·2^(W-1) + e·2^F + m`, and unpacking;
- the field rendering;
- the rounding primitive.

Module layout:

| file | module | models |
|---|---|---|
| wrappers.dfy | Wrappers | `Option` and `Result` |
| powers.dfy | Powers | `2^n`, `2^e` over the reals, the binary exponent `Log2Floor` |
| numerals.dfy | Numerals | binary and hexadecimal numerals |
| pack.dfy | Packing | the format registry, pack/unpack, parsing of bit-pattern inputs, the field rendering |
| rounding.dfy | Rounding | the guard/round/sticky rounding primitive and round-to-nearest-even |
| conversion.dfy | Conversion | classification, value reconstruction, special results, the encoder and the decoder |
| conversion_properties.dfy | ConversionProperties | round trips, thresholds, overflow, correct rounding of the normal path, the subnormal path's rounding |
| vectors.dfy | Vectors | the binary32 patterns of the usage examples |
| app_helpers.dfy | AppHelpers | the window's bit-string helpers |
| utils.dfy | Utils | the two shifts |

Two properties of the code, measured against IEEE 754:

- IEEE 754 rounds a subnormal result to nearest, ties to even. The code's
  subnormal path instead adds one half, truncates and clamps to the fraction
  mask (`ConversionModule.py:181-185`), so an exact tie rounds up
  (`ConversionProperties.UnderflowTieRoundsUp`).
- In IEEE 754 binary32, magnitudes up to and including `2^-150` round to
  zero. The code's half-up rule turns `2^-150` into fraction 1
  (`ConversionProperties.EncodeClassByMagnitude`: zero exactly below
  `2^-(F+bias)`).
- Both statements are about the corrected encoder. The code as written
  loses far more; see "## Findings".

The code's default arguments are kept as Dafny default parameters: the
precision `"single"` of both entry points, `positive = true` of the zero and
infinity results, the reason `"NaN"` of the NaN result, and the group size 4
of the window's grouping.

## Model

| member | source | states |
|---|---|---|
| Packing.PrecisionByName | ConversionModule.py:22 | exactly "half", "single", "double" and "quad" name a format; any other name has none |
| Packing.ConfigOf | ConversionModule.py:22 | each registry entry (16/5/10/15, 32/8/23/127, 64/11/52/1023, 128/15/112/16383) satisfies W = 1 + E + F, bias = 2^(E-1) - 1, exp_max = 2^E - 1, frac_mask = 2^F - 1 |
| Packing.ExpMaxIsTwiceBias | ConversionModule.py:122-123 | the all-ones exponent is 2·bias + 1, so the largest finite unbiased exponent is the bias |
| Packing.SingleConfig | ConversionModule.py:22 | the registry's single precision is the binary32 table entry used by the window helpers |
| Packing.Pack | ConversionModule.py:149 | a packed triple of in-range fields fits in W bits |
| Packing.UnpackInt | ConversionModule.py:62 | unpacking gives sign <= 1, exponent <= exp_max and fraction <= frac_mask |
| Packing.PackUnpack | ConversionModule.py:62-67 | packing the unpacked fields rebuilds the pattern: pack after unpack is the identity on [0, 2^W) |
| Packing.UnpackPack | ConversionModule.py:149 | unpacking a packed triple returns the same three fields |
| Packing.ParseBits | ConversionModule.py:53-64 | an integer pattern is accepted exactly when it is in [0, 2^W); text without the `0x` prefix is accepted exactly when it is a W-character binary string, and is read as its value; `0x` text is accepted exactly when one or more hexadecimal digits follow whose value is below 2^W, and is read as that value; every rejection is the malformed-bits error |
| Packing.FormatBits | ConversionModule.py:67 | the rendering holds the pattern, its hexadecimal string of ceil(W/4) digits whose value is the pattern, its W-digit binary string whose value is the pattern, and sign, exponent and fraction substrings of widths 1, E and F that make up that string |
| Packing.FormatFields | ConversionModule.py:150 | the three substrings of the rendering spell out the unpacked sign, exponent and fraction |
| Numerals.BinaryRoundTrip | ConversionModule.py:67 | rendering a number below 2^W as W binary digits and reading it back gives the number |
| Numerals.HexRoundTrip | ExampleUsage.py:20 | rendering a number below 2^(4k) as k hexadecimal digits and reading it back gives the number |
| Numerals.BinaryStringRoundTrip | ConversionModule.py:61-62 | reading a binary string and rendering it at its width gives the string back |
| Powers.Log2Floor | ConversionModule.py:108-109 | the binary exponent e of a positive magnitude satisfies 2^e <= mag < 2^(e+1) |
| Powers.Log2FloorUnique | ConversionModule.py:108-109 | that bracket determines e uniquely |
| Rounding.RoundToNearestEven | ConversionModule.py:139-141 | the rounded value is the floor or the floor plus one; the fraction stays below 2^F, and a carry happens exactly when the rounding reaches 2^F, leaving fraction 0 |
| Rounding.NearestEvenUnique | ConversionModule.py:139-141 | the integer nearest to a real, ties to even, is unique |
| Rounding.EncoderFlagsRoundNearestEven | ConversionModule.py:131-141 | with guard = fraction part >= 1/2, round = 0 and sticky = fraction part > 1/2, the primitive returns the integer nearest to the scaled fraction, the even one on a tie |
| Rounding.DiscardedBitsRoundNearestEven | ConversionModule.py:134-137 | with the full guard, round and sticky bits the primitive also rounds to nearest, ties to even |
| Rounding.EncoderFlagsCarry | ConversionModule.py:139-146 | under the encoder's flags the fraction carries into the exponent exactly when the scaled fraction is at least 2^F - 1/2 |
| Conversion.Classify | ConversionModule.py:207-220 | the all-ones exponent is infinity or NaN, the zero exponent zero or subnormal, any other exponent normal; among the special exponents, a zero fraction gives zero or infinity and a nonzero one subnormal or NaN |
| Conversion.ComputeValue | ConversionModule.py:222-241 | zero is signed zero, infinity is signed infinity, NaN is the only class with the NaN value, and subnormal and normal values are finite with the sign of the sign bit |
| Conversion.ZeroResult | ConversionModule.py:298-312 | a consistent zero result with exponent 0, fraction 0 and the requested sign |
| Conversion.InfResult | ConversionModule.py:314-329 | a consistent infinity result with exponent exp_max, fraction 0 and the requested sign |
| Conversion.NanResult | ConversionModule.py:331-347 | a consistent quiet NaN with sign 0, exponent exp_max, fraction 2^(F-1) and the given reason |
| Conversion.SubnormalMantissa | ConversionModule.py:179-185 | the subnormal path's fraction is at most frac_mask |
| Conversion.EncodeSubnormal | ConversionModule.py:176-205 | the subnormal path gives a consistent zero or subnormal result with exponent 0, the input's sign and the half-up-then-clamped fraction `SubnormalMantissa`; it is zero exactly when that fraction is 0; a subnormal one records unbiased exponent 1 - bias and the original value |
| Conversion.ScaledFraction | ConversionModule.py:111-128 | the scaled fraction (mag / 2^e - 1)·2^F of the normal path lies in [0, 2^F) |
| Conversion.BinadeFractionRange | ConversionModule.py:127-128 | measured against its own binade, a magnitude's scaled fraction lies in [0, 2^F) |
| Conversion.NormalRounding | ConversionModule.py:131-141 | the normal path's rounding gives a fraction at most frac_mask, 0 on a carry, and the integer nearest to the scaled fraction, the even one on a tie |
| Conversion.EncodePositive | ConversionModule.py:108-162 | a positive magnitude gives a consistent result that is not NaN and keeps the sign; a normal result has exponent in [1, exp_max - 1], records exponent - bias as its unbiased exponent, and records the original value |
| Conversion.EncodeNormalNumber | ConversionModule.py:86-98 | corrected: a zero magnitude gives the signed zero result and every positive magnitude the positive-magnitude encoding; the result is consistent, not NaN, with the input's sign |
| Conversion.ZeroIsClosestLimitedFraction | ConversionModule.py:95-97 | up to 2^-61, 0 is at least as close to the magnitude as every positive fraction with denominator at most 2^60, so the limited approximation is 0 |
| Conversion.LimitedFractionNonZero | ConversionModule.py:95-97 | above 2^-61, the fraction 1/2^60 is strictly closer to the magnitude than 0, so the limited approximation is not 0 |
| Conversion.EncodeNormalNumberAsWritten | ConversionModule.py:95-98 | as written: every magnitude the 2^60-denominator approximation turns into 0 (exactly mag <= 2^-61) is returned as zero |
| Conversion.EncodeValue | ConversionModule.py:31-46 | NaN gives the quiet NaN with reason "NaN" and is the only input that gives a NaN; ±infinity and ±0 give the matching special results; a finite nonzero value gives the positive-magnitude encoding of its magnitude with its sign; every other sign is kept |
| Conversion.ToIeee754 | ConversionModule.py:11-46 | it succeeds exactly for a known precision, with a consistent result; a number, or text the float parser accepts, gives the encoding of that value in the named format; text the float parser rejects gives the quiet NaN with reason "Invalid input: " followed by the text |
| Conversion.Decode | ConversionModule.py:66-84 | a decoded W-bit integer gives a consistent result whose sign, exponent and fraction are the unpacked fields and whose rendering holds the same integer |
| Conversion.FromIeee754 | ConversionModule.py:48-84 | an unknown precision is an error; otherwise decoding succeeds exactly when the pattern parses, every other failure is the malformed-bits error, and a success is consistent and carries the parsed integer |
| Conversion.DecodePattern | ConversionModule.py:61-71 | in a known format, a pattern decodes exactly when it parses, to a consistent result holding the parsed integer |
| ConversionProperties.FractionRange | ConversionModule.py:232-237 | the fraction m / 2^F of an in-range field lies in [0, 1) and is positive when m is |
| ConversionProperties.NormalMagnitudeBounds | ConversionModule.py:235-239 | a normal triple with biased exponent e denotes a magnitude in [2^(e-bias), 2^(e-bias+1)), whose binary exponent is e - bias |
| ConversionProperties.SubnormalMagnitudeBounds | ConversionModule.py:230-234 | a subnormal triple denotes a magnitude in (0, 2^(1-bias)) |
| ConversionProperties.NormalIntegerSignificand | ConversionModule.py:235-239 | a normal magnitude is (2^F + m) units of 2^(e-bias-F) |
| ConversionProperties.SubnormalIntegerSignificand | ConversionModule.py:230-234 | a subnormal magnitude is m·2^(1-bias-F) |
| ConversionProperties.ClassifyMatchesValue | ConversionModule.py:207-239 | the class of an in-range triple matches its value in both directions: NaN, infinity, zero (magnitude 0), subnormal (magnitude in (0, 2^(1-bias))) and normal (magnitude >= 2^(1-bias)); the sign bit is the value's sign |
| ConversionProperties.SubnormalScaleBack | ConversionModule.py:179-181 | a subnormal magnitude scaled by 2^(F+bias-1) gives back its fraction field |
| ConversionProperties.NormalScaleBack | ConversionModule.py:111-128 | the scaled fraction of a normal magnitude is exactly its fraction field |
| ConversionProperties.NormalSignificandBack | ConversionModule.py:111-112 | a normal magnitude divided by 2^(e-bias) is its significand 1 + m/2^F |
| ConversionProperties.NormalFractionBack | ConversionModule.py:127-128 | the significand less one, scaled by 2^F, gives back m |
| ConversionProperties.EncodeThenDecode | ConversionModule.py:61-71 | decoding a result consistent with a format gives back its sign, fields, rendering, class and value |
| ConversionProperties.SubnormalReencode | ConversionModule.py:176-193 | encoding the magnitude of a subnormal triple gives back its sign, exponent 0 and its fraction |
| ConversionProperties.NormalReencode | ConversionModule.py:108-153 | encoding the magnitude of a normal triple gives back its sign, exponent and fraction, because nothing is rounded |
| ConversionProperties.FieldsReencode | ConversionModule.py:31-46 | encoding the value of any triple that is not a NaN reproduces the triple |
| ConversionProperties.DecodeThenEncode | ConversionModule.py:59-84 | every pattern that is not a NaN is reproduced by encoding its decoded value: same fields, rendering, bits, class and value |
| ConversionProperties.ThresholdsOrdered | ConversionModule.py:115-124 | 0 < half the smallest subnormal < smallest normal < overflow threshold < 2^(bias+1) |
| ConversionProperties.SubnormalMantissaZero | ConversionModule.py:182-188 | the subnormal path rounds to fraction 0 exactly below half the smallest subnormal, 2^-(F+bias) |
| ConversionProperties.SubnormalDispatch | ConversionModule.py:115-117 | every positive magnitude below 2^(1-bias) takes the subnormal path |
| ConversionProperties.NormalPathInfinity | ConversionModule.py:122-146 | on the normal path the result is normal or infinity, and infinity exactly when the biased exponent is already >= exp_max or reaches it through the rounding carry |
| ConversionProperties.TopBinadeCarry | ConversionModule.py:139-146 | in the binade of exponent bias the rounding carries exactly from the overflow threshold (2 - 2^-(F+1))·2^bias on |
| ConversionProperties.OverflowAboveTopBinade | ConversionModule.py:122-124 | the overflow threshold is at least 2^bias |
| ConversionProperties.EncodeOverflow | ConversionModule.py:122-146 | a positive magnitude encodes as infinity exactly when it is at least the overflow threshold, whether the overflow happens before rounding or through the carry |
| ConversionProperties.EncodeClassByMagnitude | ConversionModule.py:114-146 | the class of an encoded positive magnitude is decided, in both directions, by the thresholds: zero below 2^-(F+bias), subnormal up to 2^(1-bias), normal up to the overflow threshold, infinity from there on |
| ConversionProperties.NormalPathFields | ConversionModule.py:149-162 | a normal result's exponent is the magnitude's biased exponent plus the carry, its fraction is the rounded fraction (in range, 0 on a carry), and its value is that of its own fields |
| ConversionProperties.NormalPathExponent | ConversionModule.py:143-160 | a normal result's exponent is floor(log2 mag) + bias, plus one on a carry |
| ConversionProperties.NormalPathMantissa | ConversionModule.py:139-162 | a normal result's fraction is the rounded fraction, at most frac_mask and 0 on a carry |
| ConversionProperties.NormalPathValue | ConversionModule.py:153-156 | a normal result's value is computed from the produced fields, not from the input |
| ConversionProperties.MagnitudeInUnits | ConversionModule.py:111-128 | measured in units of 2^(e-F), a magnitude is 2^F plus the scaled fraction the normal path rounds |
| ConversionProperties.RoundedResultInUnits | ConversionModule.py:139-153 | the fields taken from the rounding denote the rounded significand in ulps, the carry included |
| ConversionProperties.NormalValueInUnits | ConversionModule.py:153-156 | a normal result's magnitude is its rounded significand in ulps |
| ConversionProperties.NormalRoundsToNearestEven | ConversionModule.py:131-156 | the normal path rounds correctly: the result is N ulps, where N is the integer nearest to mag / ulp and the even one on a tie |
| ConversionProperties.RoundedSignificandError | ConversionModule.py:131-141 | the rounded significand is within half an ulp of the magnitude |
| ConversionProperties.NormalRoundingNearest | ConversionModule.py:127-141 | 2^F plus the rounded value is nearest-even to mag in units of 2^(e-F) |
| ConversionProperties.ToThenFromIeee754 | ConversionModule.py:11-84 | encoding in a named precision and decoding the integer pattern gives back the same sign, fields, rendering, class and value |
| ConversionProperties.ConsistentPatternDecodes | ConversionModule.py:59-71 | every result consistent with a named precision decodes from its integer pattern to the same fields, class and value |
| ConversionProperties.FromIeee754Integer | ConversionModule.py:59-64 | an integer pattern that fits the named precision decodes as that integer |
| ConversionProperties.DecodeIntegerPattern | ConversionModule.py:61-64 | in a known format, an integer pattern below 2^W decodes as that integer |
| ConversionProperties.FromThenToIeee754 | ConversionModule.py:11-84 | decoding a pattern that is not a NaN and encoding its value in the same precision gives back its fields, class and value |
| ConversionProperties.SmallestSubnormalEncodes | ConversionModule.py:176-190 | 2^(1-bias-F) encodes as a subnormal with exponent 0 and fraction 1 |
| ConversionProperties.SmallestNormalEncodes | ConversionModule.py:115-149 | 2^(1-bias) encodes as a normal with exponent 1 and fraction 0 |
| ConversionProperties.LargestFiniteEncodes | ConversionModule.py:122-149 | (2 - 2^-F)·2^bias encodes as a normal with exponent exp_max - 1 and fraction frac_mask |
| ConversionProperties.UnderflowTieRoundsUp | ConversionModule.py:182 | half the smallest subnormal, an exact tie, encodes as fraction 1, which is not the nearest-even choice 0 |
| ConversionProperties.SubnormalMantissaAtTie | ConversionModule.py:181-182 | at half the smallest subnormal the scaled magnitude is exactly 1/2 and rounds to 1 |
| ConversionProperties.SubnormalRoundingError | ConversionModule.py:181-185 | below the clamp the subnormal fraction is within half a unit of the scaled magnitude, ties rounding up; from the clamp on it is frac_mask, within one unit below |
| ConversionProperties.AsWrittenFlushesTinyValues | ConversionModule.py:95-98 | as written, every magnitude from 2^-(F+bias) up to 2^-61 becomes zero, where the corrected encoder gives a subnormal or normal result |
| ConversionProperties.AsWrittenAgreesAboveCut | ConversionModule.py:95-98 | above 2^-61 the encoder as written and the corrected one agree |
| ConversionProperties.AsWrittenHarmlessForNarrowFormats | ConversionModule.py:95-98 | when F + bias <= 60 (half precision) the cut changes no result |
| Vectors.DecodeOne | ExampleUsage.py:33 | 0x3F800000 decodes to the normal 1.0: sign 0, exponent 127, fraction 0 |
| Vectors.DecodeTwo | ExampleUsage.py:34 | 0x40000000 decodes to the normal 2.0: sign 0, exponent 128, fraction 0 |
| Vectors.DecodeMinusTwo | ExampleUsage.py:35 | 0xC0000000 decodes to the normal -2.0: sign 1, exponent 128, fraction 0 |
| Vectors.DecodeSpecials | ExampleUsage.py:36-38 | 0x7F800000 is +infinity, 0xFF800000 is -infinity, 0x7FC00000 is the quiet NaN with fraction 0x400000 |
| Vectors.EncodeNaN | ConversionModule.py:331-335 | the encoder's quiet NaN in binary32 is 0x7FC00000 |
| Vectors.EncodeTwo | ExampleUsage.py:34-35 | encoding 2.0 and -2.0 in binary32 gives 0x40000000 and 0xC0000000 |
| Vectors.DecodeOperands | ExampleUsage.py:53-57 | 0x3FC00000 decodes to 1.5 (exponent 127, fraction 0x400000) and 0x40200000 to 2.5 (exponent 128, fraction 0x200000) |
| Vectors.EncodeOperands | ExampleUsage.py:53-57 | encoding the arithmetic demo's operands 1.5 and 2.5 in binary32 gives 0x3FC00000 and 0x40200000 |
| Vectors.AsWrittenLosesSmallestNormal | ConversionModule.py:95-98 | as written, binary32's smallest normal 2^-126 is returned as zero; the corrected encoder gives exponent 1, fraction 0 |
| AppHelpers.RemoveSpaces | app.py:47 | the stripped string holds no space and is no longer than the input |
| AppHelpers.RemoveSpacesOfSpaceFree | app.py:47 | stripping a space-free string changes nothing |
| AppHelpers.FormatBits | app.py:45-48 | a zero group is rejected, and a negative group gives the empty string |
| AppHelpers.FormatBitsKeepsBits | app.py:45-48 | for a positive group, removing the spaces from the grouped text gives back the stripped input |
| AppHelpers.Chunks | app.py:48 | a string of length n cut into slices of `group` characters gives ceil(n / group) slices |
| AppHelpers.JoinSpaced | app.py:48 | joining k > 0 parts with single spaces adds k - 1 characters to their total length |
| AppHelpers.ChunksLaws | app.py:48 | the chunks run together are the string; every chunk but the last has `group` characters, and the last has 1 to `group` |
| AppHelpers.GroupedLayout | app.py:48 | the grouped text has a single space after every `group` characters and nowhere else |
| AppHelpers.SplitBits | app.py:50-58 | splitting succeeds exactly when the stripped input has 32 characters; the parts have lengths 1, 8 and 23 and make up the stripped input |
| AppHelpers.ParseBinary | app.py:63 | a base-2 parse succeeds exactly on a non-empty binary string, and gives its value, which is below 2^length |
| AppHelpers.ExponentValue | app.py:60-64 | the exponent value is the field's value minus 127, in [-127, 128] for 8 bits, and fails exactly when the field does not parse |
| AppHelpers.MantissaValue | app.py:66-79 | the loop computes the hidden bit (0 for a zero exponent, else 1) plus the sum of d_i·2^-i, and fails when a field does not parse |
| AppHelpers.WeightedSumOfBinary | app.py:72-78 | on binary digits the sum of d_i·2^-i is the numeral's value times 2^-n |
| AppHelpers.MantissaValueRange | app.py:66-79 | on binary fields the result lies in [0, 1) for a zero exponent and in [1, 2) otherwise |
| AppHelpers.WeightedSumIsFraction | app.py:72-78 | on an F-digit fraction field the sum is the codec's fraction m / 2^F |
| AppHelpers.DetectSpecial | app.py:81-92 | a class name is produced exactly when both fields parse |
| AppHelpers.DetectSpecialAgrees | app.py:81-92 | on an 8-bit exponent and a 23-bit fraction the name is that of the codec's classifier for binary32 |
| Utils.Zeros | utils.py:7 | n zeros, and none for n <= 0 |
| Utils.Prefix | utils.py:7 | the first k characters, or the whole string when it is shorter |
| Utils.SliceFrom | utils.py:10 | the slice is a suffix of the string, of length max(0, len - n) for n >= 0 and min(-n, len) for n < 0 |
| Utils.ShiftRight | utils.py:6-7 | a right shift keeps the string's length for every count |
| Utils.ShiftLeft | utils.py:9-10 | a left shift is never longer than the string, and keeps its length for n >= 0 |
| Utils.ShiftsKeepWidth | utils.py:6-10 | for n >= 0 both shifts keep the length |
| Utils.ShiftRightContent | utils.py:7 | for 0 <= n <= width, a right shift is n zeros followed by all but the last n characters |
| Utils.ShiftLeftContent | utils.py:10 | for 0 <= n <= width, a left shift is all but the first n characters followed by n zeros |
| Utils.ShiftPastWidth | utils.py:6-10 | shifting by the width or more leaves only zeros |
| Utils.ShiftByZero | utils.py:6-10 | shifting by 0 is the identity for both shifts |
| Utils.ShiftByNegative | utils.py:6-10 | a negative count leaves a right shift unchanged and makes a left shift keep only the last -n characters |
| Utils.ShiftRightValue | utils.py:6-7 | as numbers, a right shift within the width is division by 2^n |
| Utils.ShiftLeftValue | utils.py:9-10 | as numbers, a left shift within the width is multiplication by 2^n modulo 2^width |

## Left out

- Host floating point. Inputs, magnitudes and values are exact reals.
  - The `float()` of the input, the rounding of the stored `value` to a host
    float, and the overflow of that conversion for binary128 are not
    modelled.
  - `math.log2` is replaced by the exact binary exponent `Log2Floor`.
  - The normal path's significand arithmetic is exact.
  - The subnormal path's arithmetic at `ConversionModule.py:181-182` is
    exact. The code multiplies and adds one half in host doubles, so a value
    just below a tie can round up: in half precision the double
    2^-25 - 2^-78 gives `mantissa_scaled + 0.5` = 1 - 2^-54, which the host
    rounds to 1.0, and the code yields fraction 1 where the model yields 0.
  - The overflow of that multiplication. For binary64 and binary128 the
    scaling factor 2^(F+bias-1) exceeds the double range. As written, line
    181 is never reached for those formats: all their subnormals lie below
    2^-61, so the cut at line 97 returns zero first. Once that cut is
    removed, as in the corrected encoder, line 181 would raise
    `OverflowError` on every subnormal input of those formats; the corrected
    encoder gives the exact subnormal result instead.
- Text inputs. The host's float parser is a parameter of `ToIeee754`, so
  which strings it accepts is left open.
- `pack.py` is not part of this model. Its four helpers are specified
  functions, and the registry's values are written out. The case of the
  rendered hexadecimal digits is therefore not known; the model renders
  upper case and parses either case.
- Unknown precision names. The registry lookup raises in the code; in the
  model, both entry points return an `UnknownPrecision` error instead.
- Decoder error messages. On an unpack failure the code returns an error
  entry with value `None`; the model returns `MalformedBits` without the
  message text.
- `_create_breakdown` and the `encoding_steps` entry: presentation text only.
- NaN payloads and the signalling bit. The decoder collapses every NaN to one
  value.
- `IEEEApp` (Tkinter window state), `convert.py` (host `struct` packing),
  `ops.py` (host float add and multiply), `main.py` and `ExampleUsage.py`
  (console demos; their cases appear as `Vectors`) and `PackageStructure.py`
  (re-exports).
- Base-2 and single-digit parsing in `app.py` accept only the plain digits.
  Python's `int()` also allows signs, surrounding whitespace, underscores, a
  `0b` prefix and non-ASCII digits.
- AppHelpers.MantissaValue: the accumulator is an exact real, not a host
  float.
- Conversion.ScaledFraction: it is measured against the exact binade
  `Log2Floor`. The code takes the binade from `math.log2` at
  `ConversionModule.py:108`, whose rounding can put a magnitude just below a
  power of two into the binade above; that case is not modelled. The later
  steps (division by a power of two at line 112, subtracting one, scaling by
  2^F) are exact in host doubles too.

## Findings

| source | as written | input that shows it | evidently intended | confidence | as-written member | corrected member |
|---|---|---|---|---|---|---|
| ConversionModule.py:95-98 | the magnitude is approximated by the closest fraction with denominator at most 2^60, and a zero approximation returns a zero result; that approximation is 0 exactly when mag <= 2^-61 | binary32 smallest normal 2^-126 (and every binary32 subnormal): returned as +0 instead of exponent 1, fraction 0 | only an exact zero magnitude gives a zero result; smaller magnitudes go on to the subnormal and normal paths | high (derived by proof, not executed) | Conversion.EncodeNormalNumberAsWritten | Conversion.EncodeNormalNumber |

The as-written member's lemmas are:

- `ConversionProperties.AsWrittenFlushesTinyValues`: every magnitude from
  2^-(F+bias) up to 2^-61 becomes zero, where the corrected encoder does not
  give zero.
- `Vectors.AsWrittenLosesSmallestNormal`: the concrete binary32 input.
- `ConversionProperties.AsWrittenAgreesAboveCut` and
  `ConversionProperties.AsWrittenHarmlessForNarrowFormats`: where the two
  members agree.

`Conversion.EncodeValue` and `Conversion.ToIeee754` use the corrected member.
