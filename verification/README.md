# PMBus telemetry decoding (Murata DCE0133V2 library)

A Dafny model of the Arduino PMBus library's decoding core (`PMBus.cpp`):

- **Bus transaction** (`data_request`): after the command byte is written and
  the reply has arrived, the received bytes are drained in pairs. The first
  byte of each pair is the low byte and the second the high byte. The result
  is `msb << 8 | lsb`. The module is `BusTransaction` in `bus.dfy`.
- **Linear11 decoding** (`lin11_to_dec`): the mantissa is `w & 0x7FF`, read
  unsigned, and the exponent field is `w >> 11`. When bit 4 of the field is
  set, the field is replaced by its 5-bit two's-complement magnitude. The
  mantissa is then halved that many times. The module is `LinearDecoder` in
  `linear.dfy`.
- **Linear16 decoding** (`lin16_to_dec`): the exponent is always negated in
  five bits. The whole word is then halved that many times.
- **Channel table**: input voltage, output voltage, temperature, output current
  and output power. Each channel has a device address, a command byte, a
  reply length and a decoder. The module is `Telemetry` in `channels.dfy`.

The C operators `&`, `|`, `~` and `>>` are defined bit by bit in `Bits`
(`bits.dfy`), and their arithmetic closed forms are proved by induction.
`<<` and the wrapping `+` are defined by their arithmetic effect on a 16-bit
word. `unsigned int` and `int` are 16 bits wide, as on the AVR boards. At
`PMBus.cpp:39` the bytes `msb` and `lsb` are first promoted to `int`.

The decoders return `float`. The model uses exact `real`s, and nothing is lost:
- every start value is at most 65535, so it converts to single precision exactly;
- at most 31 halvings follow, so no intermediate falls below 2^-31;
- each halving of such a value is therefore exact in single precision.

`PmbusLinearFormat` (`standard.dfy`) defines the Linear11 and Linear16 formats
as the PMBus Power System Management Protocol Specification Part II defines
them: section 7.1 (Linear Data Format) and section 8.3 (VOUT_MODE). Rev 1.2
numbering is used. The module proves exactly when the library's decoders agree
with the standard. The library departs from the standard in three ways:
- the Linear11 mantissa is read unsigned (the FIXME at `PMBus.cpp:45`);
- a positive exponent still divides;
- Linear16 negates its exponent unconditionally.

These are modelled as written.

Two consequences of the code that are easy to expect otherwise; the model
follows the code:
- A one-byte reply `[b]` does not give `0x00bb`. The loop's second `read()`
  runs on an empty buffer, so the high byte is whatever the transport returns
  there (`BusTransaction.OneByte`). For output voltage this is harmless,
  because only the low five bits of the VOUT_MODE word are used
  (`Telemetry.ReadingFromRegisters`).
- The Linear11 round trip `decode((twos(e) << 11) | m) == m / 2^e` holds for
  `e` in 0..16, not 0..31. Five bits cannot hold -17 or below; for example
  `e = 17` encodes as +15 and decodes with 15 halvings
  (`LinearDecoder.Linear11NoSeventeen`).

## Model

| member | source | states |
|---|---|---|
| Bits.AndLowMask | PMBus.cpp:58 | masking with k one-bits (`& 0x7FF`, `& 0x1F`) keeps the value modulo 2^k |
| Bits.ShrIsDiv | PMBus.cpp:61 | shifting right by k divides by 2^k |
| Bits.OrDisjoint | PMBus.cpp:39 | `hi << k` or-ed with lo, lo below 2^k, equals hi * 2^k + lo |
| Bits.NotComplement | PMBus.cpp:65 | `~a` on `width` bits is 2^width - 1 - a |
| Bits.NotPlusOne | PMBus.cpp:65 | `~e + 1` on `unsigned int` is 2^16 - e, or 0 when e is 0 |
| Bits.And | PMBus.cpp:58 | `a & b` is at most each operand |
| Bits.Or | PMBus.cpp:39 | the bitwise or of a and b is at least each operand and at most their sum |
| Bits.Not | PMBus.cpp:65 | `~a` on `width` bits is below 2^width |
| Bits.Shr | PMBus.cpp:61 | `a >> k` never exceeds a |
| Bits.Shl | PMBus.cpp:39 | `a << k` is a * 2^k whenever that fits in 16 bits |
| Bits.AddUint | PMBus.cpp:65 | `a + b` on `unsigned int` is the plain sum below 2^16 and wraps by 2^16 above |
| Bits.Negate5 | PMBus.cpp:91 | `(~e + 1) & 0x1F` is (32 - e mod 32) mod 32, so only e's low five bits matter |
| BusTransaction.LastPair | PMBus.cpp:21-36 | the loop leaves lsb = 0 and the stale msb for no bytes; otherwise lsb is the first byte of the last pair, and msb is its second byte, or the empty-buffer read when the reply has odd length |
| BusTransaction.DropFirstPair | PMBus.cpp:33-36 | with more than two bytes, dropping the first pair leaves the outcome unchanged |
| BusTransaction.ReceivedWord | PMBus.cpp:21-39 | the returned word's high byte is msb and its low byte is lsb, as left by the last pass of the loop |
| BusTransaction.DataRequest | PMBus.cpp:19-43 | draining the buffer in (low, high) pairs returns the word of the last pair; an even reply of at least two bytes gives last * 256 + second-to-last |
| BusTransaction.ShiftOrByte | PMBus.cpp:39 | `msb << 8` or-ed with lsb, on `int` after promotion and kept as its 16-bit pattern, is msb * 256 + lsb |
| BusTransaction.TwoBytes | PMBus.cpp:33-39 | the reply [lo, hi] assembles to hi * 256 + lo, so the first byte is the low byte |
| BusTransaction.AssembleSplit | PMBus.cpp:33-39 | a word sent low byte first is assembled back to itself |
| BusTransaction.SplitAssemble | PMBus.cpp:33-39 | splitting an assembled pair gives the pair back |
| BusTransaction.OnlyLastPairCounts | PMBus.cpp:33-36 | with more than two bytes, earlier pairs are overwritten and only the last pair counts |
| BusTransaction.OneByte | PMBus.cpp:33-36 | a single byte b assembles to emptyRead * 256 + b, which equals b only if the empty-buffer read is 0 |
| LinearDecoder.Lin11Mantissa | PMBus.cpp:58 | the Linear11 mantissa lies in 0..2047 |
| LinearDecoder.Lin11RawExponent | PMBus.cpp:61 | the exponent field lies in 0..31, and the word is field * 2048 + mantissa |
| LinearDecoder.Lin11Shift | PMBus.cpp:64-66 | the halving count is at most 16; a field of 16 or more gives count 32 - field; a smaller field is the count itself |
| LinearDecoder.Lin16Shift | PMBus.cpp:91 | the Linear16 halving count is below 32, and adding it to the exponent gives a multiple of 32 |
| LinearDecoder.Lin11Fields | PMBus.cpp:58-61 | `w & 0x7FF` and `w >> 11` are the mantissa and the exponent field |
| LinearDecoder.Lin11SignBit | PMBus.cpp:64 | `exponent >> 4` is non-zero exactly when the field is 16 or more |
| LinearDecoder.Lin11Negate | PMBus.cpp:65 | for a field of 16..31, `(~e + 1) & 0x1F` is 32 - e |
| LinearDecoder.Linear11Value | PMBus.cpp:53-77 | the Linear11 value lies between 0 and the mantissa |
| LinearDecoder.Linear16Value | PMBus.cpp:89-101 | the Linear16 value lies between 0 and the word |
| LinearDecoder.HalveRepeatedly | PMBus.cpp:72-74 | the halving loop returns start / 2^n, between 0 and start for a non-negative start |
| LinearDecoder.Lin11ToDec | PMBus.cpp:53-77 | `lin11_to_dec` returns mantissa / 2^k with k the halving count, and the result lies between 0 and the mantissa |
| LinearDecoder.Lin16ToDec | PMBus.cpp:89-101 | `lin16_to_dec` returns word / 2^((32 - e mod 32) mod 32), and the result lies between 0 and the word |
| LinearDecoder.HalvedBounds | PMBus.cpp:68-76 | halving a non-negative value never makes it negative or larger, and doubling as often undoes it |
| LinearDecoder.EncodeLinear11 | PMBus.cpp:58-66 | the word built from mantissa m and exponent -e (e in 0..16) decodes to fields m and e |
| LinearDecoder.Linear11RoundTrip | PMBus.cpp:58-76 | decoding the encoded word for m and -e gives m / 2^e |
| LinearDecoder.EncodeDecodeIff | PMBus.cpp:61-66 | re-encoding a word's fields gives the word back iff its exponent field is 0 or 16..31 |
| LinearDecoder.Linear11Zero | PMBus.cpp:58-76 | word 0x0000 decodes to 0 |
| LinearDecoder.Linear11MinusTwo | PMBus.cpp:58-76 | mantissa 100 with field 0b11110 decodes to 25 |
| LinearDecoder.Linear11PositiveFieldDivides | PMBus.cpp:64-74 | field 0b00011 with mantissa 100 decodes to 12.5, because the code divides instead of multiplying |
| LinearDecoder.Linear11PositiveFieldHalves | PMBus.cpp:64-74 | for every word whose exponent field n is 1..15, the result is mantissa / 2^n, a division where the standard multiplies |
| LinearDecoder.Linear11NoSeventeen | PMBus.cpp:61-66 | the field 32 - 17 = 15 decodes with 15 halvings, so exponent -17 cannot round-trip |
| LinearDecoder.Linear16LowBitsOnly | PMBus.cpp:91 | `lin16_to_dec` depends only on the exponent mod 32 |
| LinearDecoder.Linear16Examples | PMBus.cpp:89-101 | exponent 0 returns the word itself; 1000 with exponent 0b11101 gives 125 |
| PmbusLinearFormat.Linear11NegativeExponent | PMBus.cpp:64-74 | with a negative exponent field, the decoder agrees with the standard iff the mantissa's sign bit is clear |
| PmbusLinearFormat.Linear11ZeroExponent | PMBus.cpp:58-76 | with a zero exponent field, the decoder agrees with the standard iff the mantissa's sign bit is clear |
| PmbusLinearFormat.Linear11PositiveExponent | PMBus.cpp:64-74 | with a positive exponent field, the decoder agrees with the standard iff the mantissa is 0 |
| PmbusLinearFormat.Linear11AgreesIff | PMBus.cpp:45-77 | `lin11_to_dec` equals the standard's Linear11 value iff the mantissa is 0, or its sign bit is clear and the exponent is 0 or negative |
| PmbusLinearFormat.Linear16NonPositiveExponent | PMBus.cpp:89-101 | with a zero or negative VOUT_MODE exponent, the decoder equals the standard |
| PmbusLinearFormat.Linear16PositiveExponent | PMBus.cpp:89-101 | with a positive VOUT_MODE exponent, the decoder equals the standard iff the word is 0 |
| PmbusLinearFormat.Linear16AgreesIff | PMBus.cpp:89-101 | `lin16_to_dec` equals the standard's Linear16 value iff the word is 0 or the VOUT_MODE exponent is 0 or negative |
| Telemetry.Command | PMBus.cpp:108-150 | input voltage reads 0x88, output voltage 0x8B, output current 0x8C, temperature 0x8D and output power 0x96, and each of these bytes belongs to one channel only |
| Telemetry.Reading | PMBus.cpp:108-151 | no channel reading is negative; a Linear11 reading never exceeds its mantissa, and output voltage never exceeds its word |
| Telemetry.ValueRequest | PMBus.cpp:110-150 | every channel reads two bytes from address 127 |
| Telemetry.ReadChannel | PMBus.cpp:108-151 | a wrapper reads its command and decodes it with its format (Linear16 with VOUT_MODE for output voltage); the result is never negative, and a Linear11 reading never exceeds its mantissa |
| Telemetry.CommandsDistinct | PMBus.cpp:110-150 | the five command bytes 0x88, 0x8B, 0x8D, 0x8C and 0x96 are distinct, and none is VOUT_MODE (0x20) |
| Telemetry.ReadingFromRegisters | PMBus.cpp:108-151 | against a device that answers from its registers, each wrapper decodes the register it names; output voltage does not depend on the empty-buffer read |
| Telemetry.TemperatureOfZeroBytes | PMBus.cpp:128-131 | temperature is 0 when the device answers 0x8D with two zero bytes |

## Left out

- The Wire transport (`beginTransmission`, `write`, `endTransmission`, `requestFrom`, `available`, `read`) is hardware I/O. It is modelled only as the sequence of bytes that reaches the receive buffer. Two transport values become parameters: what `read()` returns on an empty buffer, and the stale content of the uninitialised `msb`.
- The count `requestFrom` returns is never consulted by the code, so it is not an input to the model.
- `msb << 8` at `PMBus.cpp:39` overflows a 16-bit `int` for msb of 0x80 or more, which C++11 leaves undefined and C++14 makes implementation-defined. It is modelled as the two's-complement wrap GCC produces, whose 16-bit pattern the assignment to `unsigned int` keeps (`Bits.Shl`).
- The uninitialised `msb` when no byte arrives is undefined behaviour in C++. It is modelled as one arbitrary byte per bus.
- `vout_request` makes two `data_request` calls whose evaluation order C++ leaves unspecified. The bus is modelled as a pure function of the request, so the order cannot matter. A device whose answers change between the two reads is not modelled.
- IEEE single-precision rounding is not modelled. Results are exact reals, which the exactness argument above shows lose nothing.
- On 32-bit cores `unsigned int` is 32 bits. There, a direct call of `lin11_to_dec` with a word of 2^16 or more would see an exponent field wider than five bits. The library only passes `data_request` results, which are below 2^16, so the model uses 16-bit words.
- The deprecated input-current and input-power channels (`PMBus.cpp:153-164`) are commented out and not modelled. The unused `_device_addr` field is not modelled either.
- The mode bits 7..5 of VOUT_MODE are ignored by the code, and also by the model.
- PMBus.h holds only declarations.
