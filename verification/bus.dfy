/** The byte-assembly half of `PMBus::data_request`: after the command byte has
    been written and `requestFrom` has filled the receive buffer, the bytes are
    drained two at a time, low byte first, and combined into one word.
    The receive buffer is modelled as the sequence of received bytes. */
module BusTransaction {
  import opened Bits

  /** What the transport's `read()` yields when the receive buffer is already
      empty (the AVR `Wire` library returns -1, which becomes 0xFF in a byte),
      and what the never-initialised `msb` holds when no byte arrives at all. */
  datatype ReadEnv = ReadEnv(emptyRead: Byte, staleMsb: Byte)

  /** The (lsb, msb) pair left behind by the draining loop: the last complete
      pair; a trailing single byte pairs with the empty-buffer read; with no
      byte at all, lsb keeps its initial 0 and msb its stale contents. */
  function LastPair(rx: seq<Byte>, env: ReadEnv): (lsbMsb: (Byte, Byte))
    ensures |rx| == 0 ==> lsbMsb == (0, env.staleMsb)
    ensures |rx| >= 1 ==> lsbMsb.0 == rx[(|rx| - 1) / 2 * 2]
    ensures |rx| >= 1 && |rx| % 2 == 0 ==> lsbMsb.1 == rx[|rx| - 1]
    ensures |rx| % 2 == 1 ==> lsbMsb.1 == env.emptyRead
  {
    if |rx| == 0 then (0, env.staleMsb)
    else if |rx| % 2 == 0 then (rx[|rx| - 2], rx[|rx| - 1])
    else (rx[|rx| - 1], env.emptyRead)
  }

  /** The word `data_request` returns for the received bytes `rx`. */
  function ReceivedWord(rx: seq<Byte>, env: ReadEnv): (w: Uint)
    ensures w / 0x100 == LastPair(rx, env).1 && w % 0x100 == LastPair(rx, env).0
  {
    LastPair(rx, env).1 as nat * 0x100 + LastPair(rx, env).0
  }

  /** The bytes a device sends for the word w: low byte first, then high byte. */
  function LowFirstBytes(w: Uint): (rx: seq<Byte>)
    ensures |rx| == 2
  {
    [w % 0x100, w / 0x100]
  }

  /** `data_request` itself: drain the receive buffer in (low, high) pairs,
      then return `msb << 8 | lsb`. The count `requestFrom` reports is not
      consulted, so it is not an input. */
  method DataRequest(rx: seq<Byte>, env: ReadEnv) returns (receivedWord: Uint)
    ensures receivedWord == ReceivedWord(rx, env)
    ensures |rx| >= 2 && |rx| % 2 == 0 ==> receivedWord == rx[|rx| - 1] as nat * 0x100 + rx[|rx| - 2]
  {
    var lsb: Byte := 0;
    var msb: Byte := env.staleMsb;
    var next := 0;  // index of the next byte `read()` returns
    while next < |rx|
      invariant next <= |rx|
      invariant next % 2 == 0 || next == |rx|
      invariant next == 0 ==> lsb == 0 && msb == env.staleMsb
      invariant next > 0 && next % 2 == 0 ==> lsb == rx[next - 2] && msb == rx[next - 1]
      invariant next % 2 == 1 ==> lsb == rx[next - 1] && msb == env.emptyRead
    {
      lsb := rx[next];
      next := next + 1;
      if next < |rx| {
        msb := rx[next];
        next := next + 1;
      } else {
        msb := env.emptyRead;
      }
    }
    ShiftOrByte(msb, lsb);
    receivedWord := Or(Shl(msb, 8), lsb);
  }

  /** `msb << 8 | lsb`, computed on `int` after promotion and kept as its
      16-bit pattern, is msb * 256 + lsb. */
  lemma ShiftOrByte(msb: Byte, lsb: Byte)
    ensures Or(Shl(msb, 8), lsb) == msb as nat * 0x100 + lsb
  {
    Pow2Constants();
    assert Shl(msb, 8) == msb as nat * 0x100;
    OrDisjoint(msb, lsb, 8);
  }

  /** Two received bytes [lo, hi] assemble to hi * 256 + lo: the first byte on
      the wire is the low byte. */
  lemma TwoBytes(lo: Byte, hi: Byte, env: ReadEnv)
    ensures ReceivedWord([lo, hi], env) == hi as nat * 0x100 + lo
  {
  }

  /** Sending a word low byte first and assembling it gives the word back. */
  lemma AssembleSplit(w: Uint, env: ReadEnv)
    ensures ReceivedWord(LowFirstBytes(w), env) == w
  {
  }

  /** And splitting an assembled pair gives the pair back. */
  lemma SplitAssemble(lo: Byte, hi: Byte, env: ReadEnv)
    ensures LowFirstBytes(ReceivedWord([lo, hi], env)) == [lo, hi]
  {
  }

  /** Each pass of the loop overwrites lsb and msb: when more than two bytes
      arrive, only the last pair counts, whatever came before it. */
  lemma OnlyLastPairCounts(prefix: seq<Byte>, lo: Byte, hi: Byte, env: ReadEnv)
    requires |prefix| % 2 == 0
    ensures ReceivedWord(prefix + [lo, hi], env) == hi as nat * 0x100 + lo
  {
    var rx := prefix + [lo, hi];
    assert rx[|rx| - 2] == lo && rx[|rx| - 1] == hi;
  }

  /** Dropping the first pair of a longer reply leaves the outcome unchanged:
      the next pass of the loop overwrites it. */
  lemma DropFirstPair(rx: seq<Byte>, env: ReadEnv)
    requires |rx| > 2
    ensures LastPair(rx, env) == LastPair(rx[2..], env)
  {
    var rest := rx[2..];
    assert |rest| % 2 == |rx| % 2;
    assert rest[|rest| - 1] == rx[|rx| - 1];
    if |rx| % 2 == 0 {
      assert rest[|rest| - 2] == rx[|rx| - 2];
    }
  }

  /** A single received byte is the low byte; the high byte is whatever the
      transport's `read()` yields on an empty buffer, not zero. */
  lemma OneByte(b: Byte, env: ReadEnv)
    ensures ReceivedWord([b], env) == env.emptyRead as nat * 0x100 + b
    ensures ReceivedWord([b], env) == b <==> env.emptyRead == 0
  {
  }
}
