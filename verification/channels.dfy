/** The five telemetry wrappers (`vin_request`, `vout_request`, `temp_request`,
    `current_out_request`, `power_out_request`): each is one entry of a table
    of device address, command byte, reply length and decoder. */
module Telemetry {
  import opened Bits
  import opened BusTransaction
  import opened LinearDecoder

  datatype Channel = InputVoltage | OutputVoltage | Temperature | OutputCurrent | OutputPower

  /** One write-then-read transaction: address, command byte, reply length. */
  datatype Request = Request(deviceAddr: Byte, command: Byte, expectedLength: Byte)

  /** The transport as the library sees it: the bytes that end up in the
      receive buffer for each request, and what reads past them yield. */
  datatype Bus = Bus(received: Request -> seq<Byte>, env: ReadEnv)

  /** Every wrapper talks to the device at address 127. */
  const DeviceAddr: Byte := 127

  /** VOUT_MODE, whose low five bits hold the Linear16 exponent. */
  const VoutModeCommand: Byte := 0x20

  /** The PMBus command each channel reads; each command byte belongs to
      exactly one channel. */
  function Command(ch: Channel): (c: Byte)
    ensures c == 0x88 <==> ch == InputVoltage
    ensures c == 0x8B <==> ch == OutputVoltage
    ensures c == 0x8C <==> ch == OutputCurrent
    ensures c == 0x8D <==> ch == Temperature
    ensures c == 0x96 <==> ch == OutputPower
  {
    match ch
    case InputVoltage => 0x88   // READ_VIN
    case OutputVoltage => 0x8B  // READ_VOUT
    case OutputCurrent => 0x8C  // READ_IOUT
    case Temperature => 0x8D    // READ_TEMPERATURE_1
    case OutputPower => 0x96    // READ_POUT
  }

  /** The two-byte read of a channel's value. */
  function ValueRequest(ch: Channel): (r: Request)
    ensures r.deviceAddr == DeviceAddr && r.expectedLength == 2
  {
    Request(DeviceAddr, Command(ch), 2)
  }

  /** The one-byte read of VOUT_MODE. */
  const ModeRequest: Request := Request(DeviceAddr, VoutModeCommand, 1)

  /** `data_request` as a function of the bus. */
  function Transact(bus: Bus, req: Request): Uint
  {
    ReceivedWord(bus.received(req), bus.env)
  }

  /** What a wrapper returns: output voltage is Linear16 with the exponent from
      VOUT_MODE, every other channel Linear11. No reading is negative. */
  function Reading(ch: Channel, bus: Bus): (v: real)
    ensures 0.0 <= v
    ensures ch != OutputVoltage ==> v <= Lin11Mantissa(Transact(bus, ValueRequest(ch))) as real
    ensures ch == OutputVoltage ==> v <= Transact(bus, ValueRequest(ch)) as real
  {
    if ch == OutputVoltage then
      Linear16Value(Transact(bus, ValueRequest(ch)), Transact(bus, ModeRequest))
    else
      Linear11Value(Transact(bus, ValueRequest(ch)))
  }

  /** The wrappers: one or two bus transactions, then the channel's decoder. */
  method ReadChannel(ch: Channel, bus: Bus) returns (value: real)
    ensures value == Reading(ch, bus)
    ensures 0.0 <= value
    ensures ch != OutputVoltage ==> value <= Lin11Mantissa(Transact(bus, ValueRequest(ch))) as real
  {
    var word := DataRequest(bus.received(ValueRequest(ch)), bus.env);
    if ch == OutputVoltage {
      var mode := DataRequest(bus.received(ModeRequest), bus.env);
      value := Lin16ToDec(word, mode);
    } else {
      value := Lin11ToDec(word);
    }
  }

  /** The command bytes tell the channels apart, and none is VOUT_MODE. */
  lemma CommandsDistinct(a: Channel, b: Channel)
    ensures Command(a) == Command(b) <==> a == b
    ensures Command(a) != VoutModeCommand
  {
  }

  /** A device that answers every two-byte read of a register with its word,
      low byte first, and every one-byte read with the word's low byte. */
  ghost predicate AnswersFrom(bus: Bus, regs: Byte -> Uint)
  {
    (forall cmd: Byte :: bus.received(Request(DeviceAddr, cmd, 2)) == LowFirstBytes(regs(cmd)))
    && (forall cmd: Byte :: bus.received(Request(DeviceAddr, cmd, 1)) == [regs(cmd) % 0x100])
  }

  /** Against such a device every wrapper decodes the register it names. The
      VOUT_MODE read returns one byte, so its high byte is whatever `read()`
      yields on an empty buffer; that byte never reaches the exponent's low
      five bits, so output voltage does not depend on it. */
  lemma ReadingFromRegisters(ch: Channel, bus: Bus, regs: Byte -> Uint)
    requires AnswersFrom(bus, regs)
    ensures ch != OutputVoltage ==> Reading(ch, bus) == Linear11Value(regs(Command(ch)))
    ensures ch == OutputVoltage ==>
              Reading(ch, bus) == Linear16Value(regs(Command(OutputVoltage)), regs(VoutModeCommand) % 0x100)
  {
    var w := regs(Command(ch));
    assert bus.received(ValueRequest(ch)) == LowFirstBytes(w);
    AssembleSplit(w, bus.env);
    if ch == OutputVoltage {
      var b: Byte := regs(VoutModeCommand) % 0x100;
      assert bus.received(ModeRequest) == [b];
      OneByte(b, bus.env);
      var mode := Transact(bus, ModeRequest);
      assert mode == bus.env.emptyRead as nat * 0x100 + b;
      assert mode % 32 == b % 32;
      Linear16LowBitsOnly(w, mode);
      Linear16LowBitsOnly(w, b);
    }
  }

  /** Temperature reads 0 when the device answers 0x8D with two zero bytes. */
  lemma TemperatureOfZeroBytes(bus: Bus)
    requires bus.received(ValueRequest(Temperature)) == [0, 0]
    ensures Reading(Temperature, bus) == 0.0
  {
    TwoBytes(0, 0, bus.env);
    Linear11Zero();
  }
}
