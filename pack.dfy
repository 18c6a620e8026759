/**
  The bit-packing layer the codec imports (its `pack` module): the table of
  binary interchange formats, packing and unpacking of (sign, exponent,
  fraction) fields, parsing of bit-pattern inputs and the field rendering
  placed in every result. Formats follow sections 3.4 and 3.6 of IEEE 754-2019.
 */
module Packing {
  import opened Wrappers
  import opened Powers
  import opened Numerals

  datatype Precision = Half | Single | Double | Quad

  /** The format names the registry recognises. */
  function PrecisionByName(name: string): (p: Option<Precision>)
    ensures p.Some? <==> name == "half" || name == "single" || name == "double" || name == "quad"
    ensures p == Some(Single) <==> name == "single"
  {
    if name == "half" then Some(Half)
    else if name == "single" then Some(Single)
    else if name == "double" then Some(Double)
    else if name == "quad" then Some(Quad)
    else None
  }

  /** Format parameters: widths in bits, the exponent bias, the all-ones exponent and the fraction mask. */
  datatype Config = Config(totalBits: nat, expBits: nat, fracBits: nat, bias: nat, expMax: nat, fracMask: nat)

  /** The invariant every registry entry satisfies. */
  predicate Valid(c: Config) {
    && c.expBits >= 2
    && c.fracBits >= 1
    && c.totalBits == 1 + c.expBits + c.fracBits
    && c.bias == Pow2(c.expBits - 1) - 1
    && c.expMax == Pow2(c.expBits) - 1
    && c.fracMask == Pow2(c.fracBits) - 1
  }

  /** The all-ones exponent is 2·bias + 1, so the largest finite unbiased exponent equals the bias. */
  lemma {:induction false} ExpMaxIsTwiceBias(c: Config)
    requires Valid(c)
    ensures c.expMax == 2 * c.bias + 1
  {
    assert Pow2(c.expBits) == 2 * Pow2(c.expBits - 1);
  }

  /** The registry: half, single, double and quad (binary16/32/64/128), with expMax = 2^E - 1 and fracMask = 2^F - 1 written out. */
  function ConfigOf(p: Precision): (c: Config)
    ensures Valid(c)
    ensures c.bias >= 15 && c.fracBits >= 10
  {
    Pow2Values();
    RegistryPowers();
    match p
    case Half => Config(16, 5, 10, 15, 31, 1023)
    case Single => Config(32, 8, 23, 127, 255, 8388607)
    case Double => Config(64, 11, 52, 1023, 2047, 4503599627370495)
    case Quad => Config(128, 15, 112, 16383, 32767, 5192296858534827628530496329220095)
  }

  /** The powers of two the double and quad entries need. */
  lemma {:induction false} RegistryPowers()
    ensures Pow2(11) == 2048 && Pow2(52) == 4503599627370496 && Pow2(112) == 5192296858534827628530496329220096
  {
    Pow2Values();
    Pow2Add(10, 1);
    Pow2Add(22, 22);
    Pow2Add(44, 8);
    Pow2Add(52, 8);
    Pow2Add(60, 52);
    Pow2Add(22, 8);
    Pow2Add(30, 14);
  }

  /** The binary32 parameters spelled out. */
  function Binary32(): (c: Config)
    ensures Valid(c)
  {
    Pow2Values();
    Config(32, 8, 23, 127, 255, 8388607)
  }

  /** The registry's single precision is Binary32(). */
  lemma {:induction false} SingleConfig(p: Precision)
    requires p == Single
    ensures ConfigOf(p) == Binary32()
  {
    Pow2Values();
  }

  /**
    The bit pattern sign·2^(W-1) + exponent·2^F + fraction. The caller supplies
    fields in range; the fraction mask is then the identity and the three
    fields occupy disjoint bits, so the shifts and ors are these sums.
   */
  function Pack(c: Config, sign: nat, exponent: nat, mantissa: nat): (bits: nat)
    requires Valid(c) && sign <= 1 && exponent <= c.expMax && mantissa <= c.fracMask
    ensures bits < Pow2(c.totalBits)
  {
    PackFits(c, sign, exponent, mantissa);
    sign * Pow2(c.totalBits - 1) + exponent * Pow2(c.fracBits) + mantissa
  }

  lemma {:induction false} PackFits(c: Config, sign: nat, exponent: nat, mantissa: nat)
    requires Valid(c) && sign <= 1 && exponent <= c.expMax && mantissa <= c.fracMask
    ensures sign * Pow2(c.totalBits - 1) + exponent * Pow2(c.fracBits) + mantissa < Pow2(c.totalBits)
  {
    var pe, pf := Pow2(c.expBits), Pow2(c.fracBits);
    Pow2Add(c.expBits, c.fracBits);
    assert Pow2(c.totalBits) == 2 * Pow2(c.totalBits - 1);
    BelowProduct(exponent, pe, mantissa, pf);
  }

  /** e < p and m < q give e*q + m < p*q. */
  lemma {:induction false} BelowProduct(e: nat, p: nat, m: nat, q: nat)
    requires e < p && m < q
    ensures e * q + m < p * q
  {
    assert e * q <= (p - 1) * q;
  }

  datatype Fields = Fields(sign: nat, exponent: nat, mantissa: nat)

  /** Splits a pattern into bits >> (W-1), (bits >> F) & exp_max and bits & frac_mask. */
  function UnpackInt(c: Config, bits: nat): (f: Fields)
    requires Valid(c) && bits < Pow2(c.totalBits)
    ensures f.sign <= 1 && f.exponent <= c.expMax && f.mantissa <= c.fracMask
  {
    var pf, pe := Pow2(c.fracBits), Pow2(c.expBits);
    var high := bits / pf;
    UnpackBounds(c, bits, pf, pe, high);
    Fields(high / pe, high % pe, bits % pf)
  }

  /** The three fields of a W-bit pattern lie in their ranges. */
  lemma {:induction false} UnpackBounds(c: Config, bits: nat, pf: int, pe: int, high: int)
    requires Valid(c) && bits < Pow2(c.totalBits)
    requires pf == Pow2(c.fracBits) && pe == Pow2(c.expBits) && high == bits / pf
    ensures 0 <= high && 0 <= high / pe <= 1
    ensures high % pe <= c.expMax && bits % pf <= c.fracMask
  {
    PatternWidth(c, pf, pe);
    FieldBounds(bits, Pow2(c.totalBits), pf, pe, high);
  }

  /** A W-bit pattern space is the sign bit times the exponent space times the fraction space. */
  lemma {:induction false} PatternWidth(c: Config, pf: int, pe: int)
    requires Valid(c) && pf == Pow2(c.fracBits) && pe == Pow2(c.expBits)
    ensures Pow2(c.totalBits) == 2 * pe * pf
  {
    Pow2Add(c.expBits + 1, c.fracBits);
    assert Pow2(c.expBits + 1) == 2 * pe;
  }

  /** Quotient bounds of n < 2·pe·pf split at pf and then at pe. */
  lemma {:induction false} FieldBounds(n: nat, w: int, pf: int, pe: int, high: int)
    requires pf >= 1 && pe >= 1 && w == 2 * pe * pf && n < w && high == n / pf
    ensures 0 <= high && 0 <= high / pe <= 1
  {
    DivBelow(n, 2 * pe, pf);
    DivBelow(high, 2, pe);
  }

  /** n < a*b with b > 0 gives n / b < a. */
  lemma {:induction false} DivBelow(n: nat, a: nat, b: nat)
    requires b > 0 && n < a * b
    ensures n / b < a
  {
  }

  /** Packing the unpacked fields rebuilds the pattern: pack ∘ unpack is the identity on [0, 2^W). */
  lemma {:induction false} PackUnpack(c: Config, bits: nat)
    requires Valid(c) && bits < Pow2(c.totalBits)
    ensures var f := UnpackInt(c, bits); Pack(c, f.sign, f.exponent, f.mantissa) == bits
  {
    var pe, pf := Pow2(c.expBits), Pow2(c.fracBits);
    var f := UnpackInt(c, bits);
    var high := bits / pf;
    assert bits == high * pf + f.mantissa;
    assert high == f.sign * pe + f.exponent;
    Pow2Add(c.expBits, c.fracBits);
    Regroup(bits, high, pf, f.mantissa, f.sign, pe, f.exponent);
  }

  /** n = h*p + m with h = s*q + e gives n = s*(q*p) + e*p + m. */
  lemma {:induction false} Regroup(n: int, h: int, p: int, m: int, s: int, q: int, e: int)
    requires n == h * p + m && h == s * q + e
    ensures n == s * (q * p) + e * p + m
  {
    assert h * p == s * q * p + e * p;
  }

  /** n = s*w + e*p + m with w = q*p and h = s*q + e gives n = h*p + m. */
  lemma {:induction false} Ungroup(n: int, s: int, q: int, e: int, p: int, m: int, w: int, h: int)
    requires n == s * w + e * p + m && w == q * p && h == s * q + e
    ensures n == h * p + m
  {
    assert s * w == s * q * p;
  }

  /** Unpacking a packed triple returns the same fields. */
  lemma {:induction false} UnpackPack(c: Config, sign: nat, exponent: nat, mantissa: nat)
    requires Valid(c) && sign <= 1 && exponent <= c.expMax && mantissa <= c.fracMask
    ensures UnpackInt(c, Pack(c, sign, exponent, mantissa)) == Fields(sign, exponent, mantissa)
  {
    var pe, pf, pw := Pow2(c.expBits), Pow2(c.fracBits), Pow2(c.totalBits - 1);
    var bits := Pack(c, sign, exponent, mantissa);
    Pow2Add(c.expBits, c.fracBits);
    assert pw == pe * pf;
    assert bits == sign * pw + exponent * pf + mantissa;
    var high := sign * pe + exponent;
    Ungroup(bits, sign, pe, exponent, pf, mantissa, pw, high);
    DivModUnique(bits, pf, high, mantissa);
    DivModUnique(high, pe, sign, exponent);
  }

  datatype CodecError = UnknownPrecision(name: string) | MalformedBits

  /** A bit pattern as the decoder accepts it: an integer or a binary or 0x-prefixed hexadecimal string. */
  datatype BitPattern = IntBits(n: int) | TextBits(text: string)

  /**
    The integer a bit pattern denotes, or MalformedBits for a negative or too
    large integer, a binary string of the wrong length or alphabet, or a hex
    string with no digits, a bad digit or a value of more than W bits.
   */
  function ParseBits(c: Config, b: BitPattern): (r: Result<nat, CodecError>)
    requires Valid(c)
    ensures r.Success? ==> r.value < Pow2(c.totalBits)
    ensures r.Failure? ==> r.error == MalformedBits
    ensures b.IntBits? ==> (r.Success? <==> 0 <= b.n < Pow2(c.totalBits))
    ensures b.IntBits? && r.Success? ==> r.value == b.n
    ensures b.TextBits? && IsBinary(b.text) && |b.text| == c.totalBits ==> r == Success(BinValue(b.text))
    ensures b.TextBits? && !(|b.text| >= 2 && b.text[..2] == "0x") ==>
      (r.Success? <==> IsBinary(b.text) && |b.text| == c.totalBits)
    ensures b.TextBits? && |b.text| >= 2 && b.text[..2] == "0x" ==>
      && (r.Success? <==> b.text[2..] != [] && IsHex(b.text[2..]) && HexValue(b.text[2..]) < Pow2(c.totalBits))
      && (r.Success? ==> r.value == HexValue(b.text[2..]))
  {
    match b
    case IntBits(n) =>
      if 0 <= n < Pow2(c.totalBits) then Success(n) else Failure(MalformedBits)
    case TextBits(s) =>
      if |s| >= 2 && s[..2] == "0x" then
        assert !IsBinary(s) by { assert s[1] == 'x'; }
        var digits := s[2..];
        if digits != [] && IsHex(digits) && HexValue(digits) < Pow2(c.totalBits)
        then Success(HexValue(digits))
        else Failure(MalformedBits)
      else if |s| == c.totalBits && IsBinary(s) then Success(BinValue(s))
      else Failure(MalformedBits)
  }

  /**
    The rendering of a pattern kept in every result: the integer, its
    hexadecimal string zero-padded to ceil(W/4) upper-case digits, its W-bit
    binary string and the three field substrings.
   */
  datatype BitFormat = BitFormat(bits: nat, hex: string, binary: string, signBit: string, exponentBits: string, fractionBits: string)

  function FormatBits(c: Config, bits: nat): (r: BitFormat)
    requires Valid(c) && bits < Pow2(c.totalBits)
    ensures r.bits == bits
    ensures |r.hex| == (c.totalBits + 3) / 4 && IsHex(r.hex) && HexValue(r.hex) == bits
    ensures |r.binary| == c.totalBits && IsBinary(r.binary)
    ensures BinValue(r.binary) == bits
    ensures |r.signBit| == 1 && |r.exponentBits| == c.expBits && |r.fractionBits| == c.fracBits
    ensures r.signBit + r.exponentBits + r.fractionBits == r.binary
  {
    var b := ToBinary(bits, c.totalBits);
    BinaryRoundTrip(bits, c.totalBits);
    var digits := (c.totalBits + 3) / 4;
    HexWidthFits(bits, c.totalBits, digits);
    HexRoundTrip(bits, digits);
    assert b == b[..1] + b[1..1 + c.expBits] + b[1 + c.expBits..];
    BitFormat(bits, ToHex(bits, digits), b, b[..1], b[1..1 + c.expBits], b[1 + c.expBits..])
  }

  /** A W-bit number fits in ceil(W/4) hexadecimal digits. */
  lemma {:induction false} HexWidthFits(bits: nat, width: nat, digits: nat)
    requires bits < Pow2(width) && digits == (width + 3) / 4
    ensures bits < Pow2(4 * digits)
  {
    if width < 4 * digits {
      Pow2Monotone(width, 4 * digits);
    }
  }

  /** The field substrings of the rendering spell out the unpacked fields. */
  lemma {:induction false} FormatFields(c: Config, bits: nat)
    requires Valid(c) && bits < Pow2(c.totalBits)
    ensures var r, f := FormatBits(c, bits), UnpackInt(c, bits);
      && IsBinary(r.signBit) && IsBinary(r.exponentBits) && IsBinary(r.fractionBits)
      && BinValue(r.signBit) == f.sign
      && BinValue(r.exponentBits) == f.exponent
      && BinValue(r.fractionBits) == f.mantissa
  {
    var pe, pf := Pow2(c.expBits), Pow2(c.fracBits);
    RenderedFields(FormatBits(c, bits), bits, pe, pf);
  }

  /** A rendering whose binary string is bits, cut into 1, E and F characters, holds bits' three fields. */
  lemma {:induction false} RenderedFields(r: BitFormat, bits: nat, pe: int, pf: int)
    requires IsBinary(r.binary) && BinValue(r.binary) == bits && r.signBit + r.exponentBits + r.fractionBits == r.binary
    requires pe == Pow2(|r.exponentBits|) && pf == Pow2(|r.fractionBits|)
    ensures IsBinary(r.signBit) && IsBinary(r.exponentBits) && IsBinary(r.fractionBits)
    ensures BinValue(r.signBit) == bits / pf / pe
    ensures BinValue(r.exponentBits) == bits / pf % pe
    ensures BinValue(r.fractionBits) == bits % pf
  {
    var s, e, m := r.signBit, r.exponentBits, r.fractionBits;
    SplitNumeral(r.binary, s, e, m, pe, pf);
    var high := BinValue(s) * pe + BinValue(e);
    DivModUnique(bits, pf, high, BinValue(m));
    DivModUnique(high, pe, BinValue(s), BinValue(e));
  }

  /** The three pieces of a binary numeral are numerals whose values, shifted into place, add up to it. */
  lemma {:induction false} SplitNumeral(bin: string, s: string, e: string, m: string, pe: int, pm: int)
    requires IsBinary(bin) && bin == s + e + m && pe == Pow2(|e|) && pm == Pow2(|m|)
    ensures IsBinary(s) && IsBinary(e) && IsBinary(m)
    ensures BinValue(bin) == (BinValue(s) * pe + BinValue(e)) * pm + BinValue(m)
  {
    forall i | 0 <= i < |s| ensures s[i] == '0' || s[i] == '1' { assert s[i] == bin[i]; }
    forall i | 0 <= i < |e| ensures e[i] == '0' || e[i] == '1' { assert e[i] == bin[|s| + i]; }
    forall i | 0 <= i < |m| ensures m[i] == '0' || m[i] == '1' { assert m[i] == bin[|s| + |e| + i]; }
    BinValueAppend(s + e, m);
    BinValueAppend(s, e);
  }
}
