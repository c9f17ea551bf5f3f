/** The binary interchange formats of section 3.4 of IEEE 754-2008, as far
    as `exp2`/`exp2f` need them: these helpers build the power of two `2^e`
    directly as a bit pattern, `((bias + e) as uW) << F`. */
module Ieee754 {
  import opened Bits

  /** A binary interchange format: the width `E` of the biased-exponent
      field, the width `F` of the trailing significand (fraction) field,
      and the exponent bias. */
  datatype Format = Format(exponentBits: nat, fractionBits: nat, bias: nat)

  /** binary32 (`f32`) and binary64 (`f64`). */
  const Binary32: Format := Format(8, 23, 127)
  const Binary64: Format := Format(11, 52, 1023)

  /** The total width `W = 1 + E + F`: sign, exponent, fraction. */
  function TotalBits(fmt: Format): nat
  {
    1 + fmt.exponentBits + fmt.fractionBits
  }

  /** The shape every binary interchange format has: a sign bit, an `E`-bit
      exponent with bias `2^(E-1) - 1`, and a fraction; `E + 1` bits fit in
      the 32 bits of the `i32` the helpers compute in. */
  predicate Shaped(fmt: Format)
  {
    2 <= fmt.exponentBits && fmt.exponentBits + 1 <= 32 && fmt.fractionBits >= 1 &&
    fmt.bias + 1 == Pow2(fmt.exponentBits - 1)
  }

  lemma StandardFormatsShaped()
    ensures Shaped(Binary32) && TotalBits(Binary32) == 32
    ensures Shaped(Binary64) && TotalBits(Binary64) == 64
  {
    Pow2Seven();
    assert Pow2(10) == 1024;
  }

  /** The sign bit of a pattern. */
  function SignBit(fmt: Format, bits: nat): nat
  {
    bits / Pow2(fmt.exponentBits + fmt.fractionBits)
  }

  /** The biased-exponent field of a pattern. */
  function BiasedExponent(fmt: Format, bits: nat): nat
  {
    (bits / Pow2(fmt.fractionBits)) % Pow2(fmt.exponentBits)
  }

  /** The trailing-significand field of a pattern. */
  function Fraction(fmt: Format, bits: nat): nat
  {
    bits % Pow2(fmt.fractionBits)
  }

  /** The exponent of the least subnormal, `2^MinExponent`: -149 for
      binary32 and -1074 for binary64. */
  function MinExponent(fmt: Format): int
  {
    1 - fmt.bias - fmt.fractionBits
  }

  /** `bits` is the encoding of the real number `2^e`: either a normal
      number with a zero fraction and unbiased exponent `e`, or a subnormal
      whose fraction is the single bit `2^(e - MinExponent)`. */
  predicate EncodesPowerOfTwo(fmt: Format, bits: nat, e: int)
  {
    bits < Pow2(TotalBits(fmt)) && SignBit(fmt, bits) == 0 &&
    (if BiasedExponent(fmt, bits) == 0 then
       MinExponent(fmt) <= e < 1 - fmt.bias && Fraction(fmt, bits) == Pow2(e - MinExponent(fmt))
     else
       BiasedExponent(fmt, bits) < Pow2(fmt.exponentBits) - 1 &&
       Fraction(fmt, bits) == 0 && BiasedExponent(fmt, bits) - fmt.bias == e)
  }

  const I32_MIN: int := -0x8000_0000
  const I32_MAX: int := 0x7FFF_FFFF

  /** An `i32` result of a wrapping addition. */
  function WrapI32(x: int): (r: int)
    ensures I32_MIN <= r <= I32_MAX
    ensures (r - x) % TWO32 == 0
  {
    ModShift(0, (x - I32_MIN) / TWO32, TWO32);
    var r := (x - I32_MIN) % TWO32 + I32_MIN;
    DivModParts(x - I32_MIN, TWO32);
    assert r - x == -((x - I32_MIN) / TWO32) * TWO32;
    r
  }

  /** The pattern `exp2` (binary64) or `exp2f` (binary32) builds in a
      release build: `bias + e` in wrapping `i32` arithmetic, widened with
      sign extension to the format's width, shifted left by `F` with the
      overflowing bits dropped. */
  function Exp2Bits(fmt: Format, e: int): (bits: nat)
    requires Shaped(fmt)
    ensures bits < Pow2(TotalBits(fmt))
  {
    var sum := WrapI32(fmt.bias + e);
    var widened := sum % Pow2(TotalBits(fmt));
    ShlTruncates(widened, fmt.exponentBits + 1, fmt.fractionBits);
    ShiftedBound(widened % Pow2(fmt.exponentBits + 1), fmt.exponentBits + 1, fmt.fractionBits);
    Shl(widened, fmt.fractionBits, TotalBits(fmt))
  }

  lemma ShiftedBound(m: nat, r: nat, s: nat)
    requires m < Pow2(r)
    ensures m * Pow2(s) < Pow2(r + s)
  {
    Pow2Add(r, s);
    MulLt(m, Pow2(r), Pow2(s));
  }

  /** What `Exp2Bits` comes to: `bias + e` reduced to its low `E + 1`
      bits, placed above the fraction field. */
  lemma Exp2BitsForm(fmt: Format, e: int)
    requires Shaped(fmt)
    ensures Exp2Bits(fmt, e) == ((fmt.bias + e) % Pow2(fmt.exponentBits + 1)) * Pow2(fmt.fractionBits)
  {
    var k := fmt.exponentBits + 1;
    var x := fmt.bias + e;
    var sum := WrapI32(x);
    var widened := sum % Pow2(TotalBits(fmt));
    assert k + fmt.fractionBits == TotalBits(fmt);
    ShlTruncates(widened, k, fmt.fractionBits);
    ModMod(sum, k, TotalBits(fmt));
    Pow2ThirtyTwo();
    Pow2Add(k, 32 - k);
    ModCongruent(x, sum, Pow2(k), Pow2(32 - k));
  }

  /** Numbers congruent modulo `a * c` are congruent modulo `a`. */
  lemma ModCongruent(x: int, y: int, a: int, c: int)
    requires a > 0 && c > 0 && (y - x) % (a * c) == 0
    ensures y % a == x % a
  {
    var q := (y - x) / (a * c);
    DivModParts(y - x, a * c);
    MulAssoc(q, c, a);
    ModShift(x, q * c, a);
  }

  /** The fields of `m * f` split at `f` and then at `a * f`. */
  lemma ScaledFields(m: nat, a: int, f: int)
    requires a > 0 && f > 0
    ensures (m * f) % f == 0 && (m * f) / f == m
    ensures (m * f) / (a * f) == m / a
  {
    DivMod(m * f, f, m, 0);
    DivDiv(m * f, f, a);
  }

  /** Decoding a pattern `m * 2^F` with `m` below `2^(E+1)`: the fraction
      is zero, the exponent field is the low `E` bits of `m` and the sign
      its top bit. */
  lemma DecodeShifted(fmt: Format, m: nat)
    requires Shaped(fmt) && m < Pow2(fmt.exponentBits + 1)
    ensures Fraction(fmt, m * Pow2(fmt.fractionBits)) == 0
    ensures BiasedExponent(fmt, m * Pow2(fmt.fractionBits)) == m % Pow2(fmt.exponentBits)
    ensures SignBit(fmt, m * Pow2(fmt.fractionBits)) == m / Pow2(fmt.exponentBits)
  {
    var E, F := fmt.exponentBits, fmt.fractionBits;
    ScaledFields(m, Pow2(E), Pow2(F));
    Pow2Add(E, F);
  }

  /** The residue `m` of `x` modulo `2p` splits into a zero top bit and a
      low part that is `x` itself in `1..p-2` exactly when `x` lies there. */
  lemma ResidueInRange(x: int, p: int)
    requires p >= 2
    ensures var m := x % (2 * p);
      (m / p == 0 && 1 <= m % p <= p - 2 && m % p == x) <==> 1 <= x <= p - 2
  {
    var m := x % (2 * p);
    DivModParts(x, 2 * p);
    DivModParts(m, p);
    if 1 <= x <= p - 2 {
      DivMod(x, 2 * p, 0, x);
      DivMod(m, p, 0, m);
    }
  }

  /** The residue modulo `2p` of an `x` in `-p..-1` has its top bit set. */
  lemma ResidueNegative(x: int, p: int)
    requires p > 0 && -p <= x < 0
    ensures (x % (2 * p)) / p == 1
  {
    DivMod(x, 2 * p, -1, x + 2 * p);
    DivMod(x + 2 * p, p, 1, x + p);
  }

  /** `exp2`/`exp2f` yield exactly `2^e` if and only if `-bias < e <= bias`:
      the lower bound is the one the source's `debug_assert!` checks. */
  lemma Exp2ExactIff(fmt: Format, e: int)
    requires Shaped(fmt)
    ensures EncodesPowerOfTwo(fmt, Exp2Bits(fmt, e), e) <==> -(fmt.bias as int) < e <= fmt.bias
  {
    var E := fmt.exponentBits;
    var p := Pow2(E);
    var m := (fmt.bias + e) % Pow2(E + 1);
    assert Pow2(E + 1) == 2 * p;
    assert p == 2 * Pow2(E - 1);
    Exp2BitsForm(fmt, e);
    DivModParts(fmt.bias + e, Pow2(E + 1));
    DecodeShifted(fmt, m);
    ResidueInRange(fmt.bias + e, p);
  }

  /** At `e = -bias` the pattern is `+0.0` rather than a small number. */
  lemma Exp2AtMinusBias(fmt: Format)
    requires Shaped(fmt)
    ensures Exp2Bits(fmt, -(fmt.bias as int)) == 0
  {
    Exp2BitsForm(fmt, -(fmt.bias as int));
  }

  /** The `2^E` exponents below `-bias` give patterns with the sign bit
      set (for binary64, `e = -1024` gives negative infinity). */
  lemma Exp2BelowRangeNegative(fmt: Format, e: int)
    requires Shaped(fmt)
    requires -(fmt.bias as int) - Pow2(fmt.exponentBits) <= e < -(fmt.bias as int)
    ensures SignBit(fmt, Exp2Bits(fmt, e)) == 1
  {
    var E := fmt.exponentBits;
    var p := Pow2(E);
    var m := (fmt.bias + e) % Pow2(E + 1);
    assert Pow2(E + 1) == 2 * p;
    Exp2BitsForm(fmt, e);
    DivModParts(fmt.bias + e, Pow2(E + 1));
    DecodeShifted(fmt, m);
    ResidueNegative(fmt.bias + e, p);
  }

  /** `exp2`/`exp2f` with the build's checks: in a debug build the
      `debug_assert!(e > -bias)` fails first, then the `i32` addition
      `bias + e` may overflow; a release build always yields the pattern.
      Both debug panics are `None`: a caller whose `e` stays far inside
      the `i32` range, as the float sampler's does, can only see the
      failed assertion. */
  function Exp2(build: Build, fmt: Format, e: int): (r: Option<nat>)
    requires Shaped(fmt) && I32_MIN <= e <= I32_MAX
    ensures build == Release ==> r == Some(Exp2Bits(fmt, e))
    ensures build == Debug ==> (r.None? <==> e <= -(fmt.bias as int) || fmt.bias + e > I32_MAX)
    ensures r.Some? && e <= fmt.bias ==> (EncodesPowerOfTwo(fmt, r.value, e) <==> -(fmt.bias as int) < e)
  {
    Exp2ExactIff(fmt, e);
    if build == Debug && !(e > -(fmt.bias as int)) then None
    else if build == Debug && fmt.bias + e > I32_MAX then None
    else Some(Exp2Bits(fmt, e))
  }

  /** The intended power of two: exact down to the least subnormal
      `2^MinExponent`, and `+0.0` below it (where `2^e` underflows). */
  function Exp2Fixed(fmt: Format, e: int): (bits: nat)
    requires Shaped(fmt)
    ensures MinExponent(fmt) <= e <= fmt.bias ==> EncodesPowerOfTwo(fmt, bits, e)
    ensures e < MinExponent(fmt) ==> bits == 0
  {
    if e < MinExponent(fmt) then 0
    else if e <= -(fmt.bias as int) then
      SubnormalPowerOfTwo(fmt, e);
      Pow2(e - MinExponent(fmt))
    else
      Exp2ExactIff(fmt, e);
      Exp2Bits(fmt, e)
  }

  /** A power of two in the subnormal range is encoded by its lone fraction bit. */
  lemma SubnormalPowerOfTwo(fmt: Format, e: int)
    requires Shaped(fmt) && MinExponent(fmt) <= e <= -(fmt.bias as int)
    ensures EncodesPowerOfTwo(fmt, Pow2(e - MinExponent(fmt)), e)
  {
    var k: nat := e - MinExponent(fmt);
    var x := Pow2(k);
    var F := fmt.fractionBits;
    Pow2Monotone(k, F);
    DivMod(x, Pow2(F), 0, x);
    Pow2Le(F, fmt.exponentBits + F);
    DivMod(x, Pow2(fmt.exponentBits + F), 0, x);
    Pow2Monotone(fmt.exponentBits + F, TotalBits(fmt));
  }
}
