/** The float tests of the width scorer, stated on the raw bits of an IEEE-754
    single-precision value. Int32BitsToSingle keeps the bits, so a decoded
    float is its Word. For non-negative finite floats the numeric order is the
    order of the bit patterns, and -0.0 compares equal to 0.0; the interval
    and magnitude tests below rely on that property of the encoding. */
module Float32 {
  import opened BigEndian

  const SignBit: Word := 0x8000_0000
  const NegativeZero: Word := 0x8000_0000
  const PositiveInfinity: Word := 0x7F80_0000

  /** Bit patterns of the constants the scorer compares against. */
  const Zero: Word := 0
  const F45: Word := 0x4234_0000
  const F65: Word := 0x4282_0000
  const F100: Word := 0x42C8_0000
  const F500: Word := 0x43FA_0000
  const F550: Word := 0x4409_8000
  const F1e6: Word := 0x4974_2400

  /** float.IsNaN(v) || float.IsInfinity(v): the exponent field is all ones. */
  predicate IsNaNOrInfinity(bits: Word) {
    bits / 0x80_0000 % 0x100 == 0xFF
  }

  /** The magnitude bits, i.e. the bits of Math.Abs(v). */
  function Magnitude(bits: Word): (m: Word)
    ensures m < SignBit
    ensures m == bits || m + SignBit == bits
  {
    bits % SignBit
  }

  /** lo <= v && v <= hi, for non-negative finite bounds lo <= hi. */
  predicate InClosedRange(bits: Word, lo: Word, hi: Word)
    requires lo <= hi < PositiveInfinity
  {
    (bits < SignBit && lo <= bits <= hi) || (lo == Zero && bits == NegativeZero)
  }

  /** Math.Abs(v) > bound, for a finite v and a non-negative finite bound. */
  predicate AbsGreaterThan(bits: Word, bound: Word)
    requires bound < PositiveInfinity
  {
    Magnitude(bits) > bound
  }

  /** A NaN or an infinity is exactly a magnitude at or above +Infinity. */
  lemma NaNOrInfinityIsLargeMagnitude(bits: Word)
    ensures IsNaNOrInfinity(bits) <==> Magnitude(bits) >= PositiveInfinity
  {
  }

  /** A value inside a finite interval is neither NaN nor infinite. */
  lemma InClosedRangeIsFinite(bits: Word, lo: Word, hi: Word)
    requires lo <= hi < PositiveInfinity
    requires InClosedRange(bits, lo, hi)
    ensures !IsNaNOrInfinity(bits)
  {
    NaNOrInfinityIsLargeMagnitude(bits);
  }
}
