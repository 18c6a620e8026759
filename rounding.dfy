/**
  The rounding primitive the codec imports (`round_to_nearest_even` of its
  `pack` module): an integer part, a round-up decision taken from guard,
  round and sticky flags, and a carry out of the fraction field. The rounding
  direction is roundTiesToEven of section 4.3.1 of IEEE 754-2019.
 */
module Rounding {
  import opened Powers

  /** A rounded fraction field and whether rounding carried out of it into the exponent. */
  datatype Rounded = Rounded(mantissa: nat, carry: bool)

  /** The integer the rounding produced, a carry counting as 2^F. */
  function RoundedValue(r: Rounded, fracBits: nat): nat {
    r.mantissa + (if r.carry then Pow2(fracBits) else 0)
  }

  /**
    Truncates `scaled` to its integer part m and adds one when the guard bit is
    set together with the round or sticky bit, or on an exact half (guard alone)
    when m is odd. Reaching 2^F gives fraction 0 with the carry set.
   */
  function RoundToNearestEven(scaled: real, fracBits: nat, guard: bool, roundBit: bool, sticky: bool): (r: Rounded)
    requires 0.0 <= scaled < Pow2(fracBits) as real
    ensures r.mantissa < Pow2(fracBits)
    ensures r.carry ==> r.mantissa == 0
    ensures RoundedValue(r, fracBits) == scaled.Floor || RoundedValue(r, fracBits) == scaled.Floor + 1
    ensures r.carry <==> RoundedValue(r, fracBits) == Pow2(fracBits)
  {
    var m := scaled.Floor;
    var up := (guard && (roundBit || sticky)) || (guard && !roundBit && !sticky && m % 2 == 1);
    if up && m + 1 == Pow2(fracBits) then Rounded(0, true)
    else if up then Rounded(m + 1, false)
    else Rounded(m, false)
  }

  /** n is the integer nearest to x, and on an exact tie the even one. */
  predicate IsNearestEven(x: real, n: int) {
    && -0.5 <= n as real - x <= 0.5
    && ((n as real - x == 0.5 || n as real - x == -0.5) ==> n % 2 == 0)
  }

  /** The nearest-even integer of a real is unique. */
  lemma {:induction false} NearestEvenUnique(x: real, n1: int, n2: int)
    requires IsNearestEven(x, n1) && IsNearestEven(x, n2)
    ensures n1 == n2
  {
  }

  /**
    The flags the encoder passes (guard = fraction part >= 1/2, round = 0,
    sticky = fraction part > 1/2) make the primitive round to nearest, ties to even.
   */
  lemma {:induction false} EncoderFlagsRoundNearestEven(scaled: real, fracBits: nat)
    requires 0.0 <= scaled < Pow2(fracBits) as real
    ensures var frac := scaled - scaled.Floor as real;
      IsNearestEven(scaled, RoundedValue(RoundToNearestEven(scaled, fracBits, frac >= 0.5, false, frac > 0.5), fracBits))
  {
  }

  /**
    With the flags of the IEEE convention (guard = first discarded bit, round
    = second, sticky = any further bit set) the primitive also rounds to
    nearest, ties to even.
   */
  lemma {:induction false} DiscardedBitsRoundNearestEven(scaled: real, fracBits: nat)
    requires 0.0 <= scaled < Pow2(fracBits) as real
    ensures var frac := scaled - scaled.Floor as real;
      var guard := frac >= 0.5;
      var rest := if guard then frac - 0.5 else frac;
      var roundBit := rest >= 0.25;
      var sticky := (if roundBit then rest - 0.25 else rest) > 0.0;
      IsNearestEven(scaled, RoundedValue(RoundToNearestEven(scaled, fracBits, guard, roundBit, sticky), fracBits))
  {
  }

  /** Under the encoder's flags the fraction field carries out exactly when the scaled value is at least 2^F - 1/2. */
  lemma {:induction false} EncoderFlagsCarry(scaled: real, fracBits: nat)
    requires fracBits >= 1 && 0.0 <= scaled < Pow2(fracBits) as real
    ensures var frac := scaled - scaled.Floor as real;
      RoundToNearestEven(scaled, fracBits, frac >= 0.5, false, frac > 0.5).carry <==> scaled >= Pow2(fracBits) as real - 0.5
  {
    assert Pow2(fracBits) == 2 * Pow2(fracBits - 1);
    EncoderFlagsCarryBelow(scaled, fracBits, Pow2(fracBits));
  }

  /** EncoderFlagsCarry for an even bound p = 2^F: only m = p - 1, which is odd, can carry. */
  lemma {:induction false} EncoderFlagsCarryBelow(scaled: real, fracBits: nat, p: int)
    requires p == Pow2(fracBits) && p % 2 == 0 && 0.0 <= scaled < p as real
    ensures var frac := scaled - scaled.Floor as real;
      RoundToNearestEven(scaled, fracBits, frac >= 0.5, false, frac > 0.5).carry <==> scaled >= p as real - 0.5
  {
    var m := scaled.Floor;
    var frac := scaled - m as real;
    var r := RoundToNearestEven(scaled, fracBits, frac >= 0.5, false, frac > 0.5);
    if scaled >= p as real - 0.5 {
      assert m == p - 1;
      assert m % 2 == 1;
      assert r.carry;
    } else if m == p - 1 {
      assert frac < 0.5;
      assert !r.carry;
    } else {
      assert m + 1 < p;
      assert !r.carry;
    }
  }
}
