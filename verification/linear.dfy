/** `PMBus::lin11_to_dec` and `PMBus::lin16_to_dec`: turning a raw word into a
    number by halving a mantissa a number of times read from a 5-bit field.
    Results are exact reals: every start value is below 2^24 and at most 31
    halvings follow, so single precision represents each step exactly. */
module LinearDecoder {
  import opened Bits

  /** Bits 10..0 of a Linear11 word, read as an unsigned number. */
  function Lin11Mantissa(w: Uint): (m: nat)
    ensures m < 0x800
  {
    w % 0x800
  }

  /** Bits 15..11 of a Linear11 word. */
  function Lin11RawExponent(w: Uint): (raw: nat)
    ensures raw < 32
    ensures w == raw * 0x800 + Lin11Mantissa(w)
  {
    w / 0x800
  }

  /** How many times `lin11_to_dec` halves the mantissa: the 5-bit
      two's-complement magnitude when the field's top bit is set, otherwise
      the field itself. It never exceeds 16. */
  function Lin11Shift(w: Uint): (k: nat)
    ensures k <= 16
    ensures Lin11RawExponent(w) >= 16 ==> Lin11RawExponent(w) + k == 32
    ensures Lin11RawExponent(w) < 16 ==> k == Lin11RawExponent(w)
  {
    var raw := Lin11RawExponent(w);
    if raw >= 16 then 32 - raw else raw
  }

  /** How many times `lin16_to_dec` halves the word: the 5-bit two's-complement
      negation of the exponent's low five bits, applied unconditionally. */
  function Lin16Shift(exponent: nat): (k: nat)
    ensures k < 32
    ensures (exponent + k) % 32 == 0
  {
    (32 - exponent % 32) % 32
  }

  /** x / 2^n */
  function Halved(x: real, n: nat): real
  {
    x / Pow2(n) as real
  }

  /** The value `lin11_to_dec` computes for w: the mantissa scaled down by
      2^k, never negative and never above the mantissa. */
  function Linear11Value(w: Uint): (v: real)
    ensures 0.0 <= v <= Lin11Mantissa(w) as real
  {
    var m, k := Lin11Mantissa(w) as real, Lin11Shift(w);
    HalvedBounds(m, k);
    Halved(m, k)
  }

  /** The value `lin16_to_dec` computes for w and the exponent register value:
      the whole word scaled down by 2^k, never negative and never above it. */
  function Linear16Value(w: Uint, exponent: nat): (v: real)
    ensures 0.0 <= v <= w as real
  {
    var k := Lin16Shift(exponent);
    HalvedBounds(w as real, k);
    Halved(w as real, k)
  }

  /** The decoders' shared loop: divide by two, `times` times. */
  method HalveRepeatedly(start: real, times: nat) returns (value: real)
    ensures value == Halved(start, times)
    ensures 0.0 <= start ==> 0.0 <= value <= start
  {
    value := start;
    var ii := 0;
    while ii < times
      invariant ii <= times
      invariant value * Pow2(ii) as real == start
    {
      value := value / 2.0;
      ii := ii + 1;
    }
  }

  /** `w & 0x7FF` and `w >> 11` pick out the two fields of a Linear11 word. */
  lemma Lin11Fields(w: Uint)
    ensures And(w, 0x7FF) == Lin11Mantissa(w)
    ensures Shr(w, 11) == Lin11RawExponent(w)
  {
    Pow2Constants();
    AndLowMask(w, 11);
    ShrIsDiv(w, 11);
  }

  /** `raw >> 4` is non-zero exactly when the sign bit of the 5-bit field is set. */
  lemma Lin11SignBit(raw: nat)
    requires raw < 32
    ensures Shr(raw, 4) != 0 <==> raw >= 16
  {
    Pow2Constants();
    ShrIsDiv(raw, 4);
  }

  /** With the sign bit set, `(~raw + 1) & 0x1F` is the magnitude 32 - raw. */
  lemma Lin11Negate(raw: nat)
    requires 16 <= raw < 32
    ensures Negate5(raw) == 32 - raw
  {
    NegatedField(raw, Negate5(raw));
  }

  /** The arithmetic step of Lin11Negate. It takes the negation as a parameter
      so that the solver does not unfold the bitwise `Negate5` term. */
  lemma NegatedField(raw: nat, x: nat)
    requires 16 <= raw < 32 && x == (32 - raw % 32) % 32
    ensures x == 32 - raw
  {
  }

  /** `lin11_to_dec`: split the word with `& 0x7FF` and `>> 11`, negate the
      exponent field in five bits when its bit 4 is set, then halve. */
  method Lin11ToDec(receivedWord: Uint) returns (receivedFloat: real)
    ensures receivedFloat == Halved(Lin11Mantissa(receivedWord) as real, Lin11Shift(receivedWord))
    ensures 0.0 <= receivedFloat <= Lin11Mantissa(receivedWord) as real
  {
    Lin11Fields(receivedWord);
    var mantissa := And(receivedWord, 0x7FF);
    var exponent := Shr(receivedWord, 11);
    Lin11SignBit(exponent);
    if Shr(exponent, 4) != 0 {
      Lin11Negate(exponent);
      exponent := Negate5(exponent);
    }
    receivedFloat := HalveRepeatedly(mantissa as real, exponent);
  }

  /** `lin16_to_dec`: negate the exponent in five bits, then halve the whole
      word that many times. */
  method Lin16ToDec(receivedWord: Uint, exponent: Uint) returns (updatedWord: real)
    ensures updatedWord == Halved(receivedWord as real, Lin16Shift(exponent))
    ensures 0.0 <= updatedWord <= receivedWord as real
  {
    var updatedExponent: Byte := Negate5(exponent);
    updatedWord := HalveRepeatedly(receivedWord as real, updatedExponent);
  }

  /** Halving only ever shrinks a non-negative start value, never below zero,
      and doubling n times undoes it. */
  lemma HalvedBounds(x: real, n: nat)
    requires 0.0 <= x
    ensures 0.0 <= Halved(x, n) <= x
    ensures Halved(x, n) * Pow2(n) as real == x
  {
    var p := Pow2(n) as real;
    assert p >= 1.0;
    assert x / p * p == x;
  }

  /** The Linear11 word for a non-negative mantissa m and the exponent -e,
      with e in 0..16 (the exponents five-bit two's complement can hold). */
  function EncodeLinear11(m: nat, e: nat): (w: Uint)
    requires m < 0x800 && e <= 16
    ensures Lin11Mantissa(w) == m
    ensures Lin11Shift(w) == e
  {
    ((32 - e) % 32) * 0x800 + m
  }

  /** Decoding an encoded word yields m / 2^e: Linear11 round trip. */
  lemma Linear11RoundTrip(m: nat, e: nat)
    requires m < 0x800 && e <= 16
    ensures Linear11Value(EncodeLinear11(m, e)) == m as real / Pow2(e) as real
  {
  }

  /** Re-encoding a word's mantissa and halving count gives the word back exactly
      when its exponent field is zero or has its sign bit set; fields 1..15
      (positive exponents) are decoded as if they were the negative ones. */
  lemma EncodeDecodeIff(w: Uint)
    ensures EncodeLinear11(Lin11Mantissa(w), Lin11Shift(w)) == w
            <==> Lin11RawExponent(w) == 0 || Lin11RawExponent(w) >= 16
  {
    var raw := Lin11RawExponent(w);
    if 1 <= raw < 16 {
      assert Lin11RawExponent(EncodeLinear11(Lin11Mantissa(w), Lin11Shift(w))) == 32 - raw;
    }
  }

  /** Word 0x0000 decodes to zero. */
  lemma Linear11Zero()
    ensures Linear11Value(0) == 0.0
  {
  }

  /** Mantissa 100 with exponent field 0b11110 (-2) decodes to 25. */
  lemma Linear11MinusTwo()
    ensures Linear11Value(0xF064) == 25.0
  {
    assert Lin11Mantissa(0xF064) == 100 && Lin11RawExponent(0xF064) == 30;
  }

  /** An exponent field of 0b00011 (+3) still divides: 100 becomes 12.5, not 800. */
  lemma Linear11PositiveFieldDivides()
    ensures Linear11Value(0x1864) == 12.5
  {
    assert Lin11Mantissa(0x1864) == 100 && Lin11RawExponent(0x1864) == 3;
  }

  /** Every exponent field from 1 to 15 (a positive exponent) divides the
      mantissa by 2^field instead of multiplying by it. */
  lemma Linear11PositiveFieldHalves(w: Uint)
    requires 1 <= Lin11RawExponent(w) < 16
    ensures Linear11Value(w) == Lin11Mantissa(w) as real / Pow2(Lin11RawExponent(w)) as real
  {
  }

  /** Five bits cannot hold -17: the field (32 - 17) is +15, which decodes as a
      halving count of 15, not 17. */
  lemma Linear11NoSeventeen(m: nat)
    requires m < 0x800
    ensures Linear11Value(((32 - 17) % 32) * 0x800 + m) == m as real / Pow2(15) as real
  {
    var w := 15 * 0x800 + m;
    assert ((32 - 17) % 32) * 0x800 + m == w;
    DivModUnique(w, 0x800, 15, m);
    Linear11PositiveFieldHalves(w);
  }

  /** Only the low five bits of the exponent argument matter to `lin16_to_dec`. */
  lemma Linear16LowBitsOnly(w: Uint, exponent: nat)
    ensures Linear16Value(w, exponent) == Linear16Value(w, exponent % 32)
  {
    assert Lin16Shift(exponent) == Lin16Shift(exponent % 32);
  }

  /** Exponent 0 returns the word unchanged; exponent 0b11101 (-3) divides by 8,
      so 1000 decodes to 125. */
  lemma Linear16Examples(w: Uint)
    ensures Linear16Value(w, 0) == w as real
    ensures Linear16Value(1000, 0x1D) == 125.0
  {
    assert Lin16Shift(0x1D) == 3;
  }
}
