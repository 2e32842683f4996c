/** The Linear formats as the PMBus Power System Management Protocol
    Specification Part II defines them (section 7.1, Linear Data Format, and
    section 8.3, VOUT_MODE), as reference definitions, and exactly when the
    library's decoders agree with them. */
module PmbusLinearFormat {
  import opened Bits
  import opened LinearDecoder

  /** A `bits`-wide field read as two's complement. */
  function SignedField(v: nat, bits: nat): (s: int)
    requires 1 <= bits && v < Pow2(bits)
    ensures -(Pow2(bits - 1) as int) <= s < Pow2(bits - 1)
    ensures s == v || s == v - Pow2(bits)
  {
    if v >= Pow2(bits - 1) then v - Pow2(bits) else v
  }

  /** x * 2^n for any integer n. */
  function ScaleByPow2(x: real, n: int): real
  {
    if n >= 0 then x * Pow2(n) as real else x / Pow2(-n) as real
  }

  /** Linear11: an 11-bit two's-complement mantissa times 2 to a 5-bit
      two's-complement exponent. */
  function StandardLinear11(w: Uint): real
  {
    Pow2Constants();
    ScaleByPow2(SignedField(Lin11Mantissa(w), 11) as real, SignedField(Lin11RawExponent(w), 5))
  }

  /** Linear16 output voltage: the unsigned word times 2 to the 5-bit
      two's-complement exponent held in bits 4..0 of VOUT_MODE. */
  function StandardLinear16(w: Uint, voutMode: nat): real
  {
    Pow2Constants();
    ScaleByPow2(w as real, SignedField(voutMode % 32, 5))
  }

  /** Dividing two reals by the same positive number keeps them apart. */
  lemma DivideInjective(a: real, b: real, p: real)
    requires p > 0.0 && a / p == b / p
    ensures a == b
  {
    assert a == a / p * p;
    assert b == b / p * p;
  }

  /** For a positive x and a power of two p of at least 2, x / p < x < x * p. */
  lemma ShrinkGrow(x: real, p: real)
    requires x > 0.0 && p >= 2.0
    ensures x / p < x < x * p
  {
    assert x / p * p == x;
  }

  /** A negative exponent field: both divide by the same power of two, so they
      agree exactly when the mantissa's sign bit is clear. */
  lemma Linear11NegativeExponent(w: Uint)
    requires Lin11RawExponent(w) >= 16
    ensures Linear11Value(w) == StandardLinear11(w) <==> Lin11Mantissa(w) < 0x400
  {
    Pow2Constants();
    var m := Lin11Mantissa(w);
    var sm := SignedField(m, 11);
    var p := Pow2(Lin11Shift(w)) as real;
    assert StandardLinear11(w) == sm as real / p;
    if Linear11Value(w) == StandardLinear11(w) {
      DivideInjective(m as real, sm as real, p);
    }
  }

  /** A zero exponent field: the value is the mantissa itself, read unsigned by
      the library and signed by the standard. */
  lemma Linear11ZeroExponent(w: Uint)
    requires Lin11RawExponent(w) == 0
    ensures Linear11Value(w) == StandardLinear11(w) <==> Lin11Mantissa(w) < 0x400
  {
    Pow2Constants();
    assert StandardLinear11(w) == SignedField(Lin11Mantissa(w), 11) as real;
  }

  /** A positive exponent field n: the library divides by 2^n where the
      standard multiplies, so only a zero mantissa decodes the same. */
  lemma Linear11PositiveExponent(w: Uint)
    requires 1 <= Lin11RawExponent(w) < 16
    ensures Linear11Value(w) == StandardLinear11(w) <==> Lin11Mantissa(w) == 0
  {
    Pow2Constants();
    var m := Lin11Mantissa(w);
    var sm := SignedField(m, 11);
    var p := Pow2(Lin11Shift(w)) as real;
    assert p >= 2.0;
    assert StandardLinear11(w) == sm as real * p;
    if m >= 0x400 {
      assert sm < 0;
      assert sm as real * p < 0.0;
      HalvedBounds(m as real, Lin11Shift(w));
    } else if m > 0 {
      ShrinkGrow(m as real, p);
    }
  }

  /** `lin11_to_dec` gives the standard's value exactly when the mantissa is
      zero, or its sign bit is clear and the exponent is zero or negative. A
      set mantissa sign bit or a positive exponent gives a different value. */
  lemma Linear11AgreesIff(w: Uint)
    ensures Linear11Value(w) == StandardLinear11(w)
            <==> Lin11Mantissa(w) == 0
                 || (Lin11Mantissa(w) < 0x400
                     && (Lin11RawExponent(w) == 0 || Lin11RawExponent(w) >= 16))
  {
    var raw := Lin11RawExponent(w);
    if raw >= 16 {
      Linear11NegativeExponent(w);
    } else if raw == 0 {
      Linear11ZeroExponent(w);
    } else {
      Linear11PositiveExponent(w);
    }
  }

  /** A zero or negative VOUT_MODE exponent: both divide the word by the same
      power of two (or leave it as it is). */
  lemma Linear16NonPositiveExponent(w: Uint, voutMode: nat)
    requires voutMode % 32 == 0 || voutMode % 32 >= 16
    ensures Linear16Value(w, voutMode) == StandardLinear16(w, voutMode)
  {
    Pow2Constants();
    var low := voutMode % 32;
    if low >= 16 {
      assert StandardLinear16(w, voutMode) == w as real / Pow2(Lin16Shift(voutMode)) as real;
    }
  }

  /** A positive VOUT_MODE exponent n: the library divides by 2^(32 - n) where
      the standard multiplies by 2^n, so only a zero word decodes the same. */
  lemma Linear16PositiveExponent(w: Uint, voutMode: nat)
    requires 1 <= voutMode % 32 < 16
    ensures Linear16Value(w, voutMode) == StandardLinear16(w, voutMode) <==> w == 0
  {
    Pow2Constants();
    var low := voutMode % 32;
    var q := Pow2(low) as real;
    assert StandardLinear16(w, voutMode) == w as real * q;
    assert q >= 2.0;
    if w > 0 {
      ShrinkGrow(w as real, q);
    }
  }

  /** `lin16_to_dec` gives the standard's value exactly when the word is zero or
      the exponent is zero or negative; a positive exponent n in 1..15 divides
      by 2^(32 - n) where the standard multiplies by 2^n. */
  lemma Linear16AgreesIff(w: Uint, voutMode: nat)
    ensures Linear16Value(w, voutMode) == StandardLinear16(w, voutMode)
            <==> w == 0 || voutMode % 32 == 0 || voutMode % 32 >= 16
  {
    if voutMode % 32 == 0 || voutMode % 32 >= 16 {
      Linear16NonPositiveExponent(w, voutMode);
    } else {
      Linear16PositiveExponent(w, voutMode);
    }
  }
}
