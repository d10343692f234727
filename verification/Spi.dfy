/**
 SPI transfer (metal/src/drivers/sifive_spi0.c).

 Writing a byte to TXDATA sends one frame in the mode the FMT, CSMODE and CSID registers hold at
 that moment; the driver then waits for the frame's reply before it goes on. The other end of the
 bus is arbitrary: `reply(i)` is the RXDATA word that answers frame i, or None when RXDATA is still
 empty at the deadline.
 */
module Spi {
  import opened Bits
  import opened Words
  import opened Wrappers

  const PROTO_SINGLE: nat := 0
  const PROTO_DUAL: nat := 1
  const PROTO_QUAD: nat := 2
  const WIRE_ALL: nat := 0
  const WIRE_DATA_ONLY: nat := 1
  const WIRE_ADDR_DATA: nat := 2
  const CSMODE_AUTO: nat := 0
  const CSMODE_HOLD: nat := 2

  datatype Config = Config(
    protocol: nat, polarity: bool, phase: bool, littleEndian: bool, csActiveHigh: bool,
    csid: U32, cmdNum: U32, addrNum: U32, dummyNum: U32, multiWire: nat)

  /** How a frame is sent: wire protocol, bit order, length, chip-select mode and chip. */
  datatype Mode = Mode(proto: nat, lsbFirst: bool, bits: nat, cs: nat, csid: nat)

  datatype Frame = Frame(byte: nat, mode: Mode)

  /** The buffers and the wire when a transfer starts. */
  datatype Start = Start(bytes: Option<seq<Byte>>, rx: seq<Byte>, wire: seq<Frame>)

  type Replies = nat -> Option<nat>

  function Max(a: nat, b: nat): nat {
    if a < b then b else a
  }

  function Flag(b: bool): nat {
    if b then 1 else 0
  }

  // ---- what a transfer is ----

  /** The phase limits are unsigned 32-bit sums, so they wrap. */
  function AddrEnd(c: Config): nat {
    (c.cmdNum + c.addrNum) % 0x1_0000_0000
  }

  function DummyEnd(c: Config): nat {
    (c.cmdNum + c.addrNum + c.dummyNum) % 0x1_0000_0000
  }

  /** The index at which the data phase starts: all loops share one index, so it never goes back. */
  function DataStart(c: Config): nat {
    Max(Max(c.cmdNum, AddrEnd(c)), DummyEnd(c))
  }

  function FrameCount(c: Config, len: nat): nat {
    Max(DataStart(c), len)
  }

  /** The wire protocol frame i must use: the requested one from the first multi-wire phase on. */
  function WireProto(c: Config, i: nat): nat {
    if c.multiWire == WIRE_ALL then c.protocol
    else if c.multiWire == WIRE_ADDR_DATA && i >= c.cmdNum then c.protocol
    else if c.multiWire == WIRE_DATA_ONLY && i >= DataStart(c) then c.protocol
    else PROTO_SINGLE
  }

  /** The protocol `configure_spi` selects: multi-wire from the start only in the all-wires mode. */
  function WireProto0(c: Config): nat {
    if c.multiWire == WIRE_ALL then c.protocol else PROTO_SINGLE
  }

  /** The protocol of the address and dummy frames. */
  function HeaderProto(c: Config): nat {
    if c.multiWire == WIRE_ADDR_DATA then c.protocol else WireProto0(c)
  }

  /** A null transmit buffer sends zeroes. */
  function TxByte(tx: Option<seq<Byte>>, i: nat): nat
    requires tx.Some? ==> i < |tx.value|
  {
    if tx.Some? then tx.value[i] else 0
  }

  /** The mode of a frame of this transfer that uses the given wire protocol. */
  function ModeFor(c: Config, proto: nat): Mode {
    Mode(proto, c.littleEndian, 8, CSMODE_HOLD, c.csid)
  }

  function FrameAt(c: Config, tx: Option<seq<Byte>>, i: nat): Frame
    requires tx.Some? ==> i < |tx.value|
  {
    Frame(TxByte(tx, i), ModeFor(c, WireProto(c, i)))
  }

  /** The first n frames of the transfer, each once and in order. */
  function Frames(c: Config, tx: Option<seq<Byte>>, n: nat): (r: seq<Frame>)
    requires tx.Some? ==> n <= |tx.value|
    ensures |r| == n
    ensures forall i :: 0 <= i < n ==> r[i] == FrameAt(c, tx, i)
  {
    if n == 0 then [] else Frames(c, tx, n - 1) + [FrameAt(c, tx, n - 1)]
  }

  /** How many of the first n frames are answered before the first silence. */
  function Answered(reply: Replies, n: nat): (k: nat)
    ensures k <= n
    ensures forall i :: 0 <= i < k ==> reply(i).Some?
    ensures k < n ==> reply(k).None?
  {
    if n == 0 then 0
    else
      var k := Answered(reply, n - 1);
      if k == n - 1 && reply(k).Some? then n else k
  }

  lemma AnsweredIs(reply: Replies, n: nat, k: nat)
    requires k <= n && (forall i :: 0 <= i < k ==> reply(i).Some?) && (k < n ==> reply(k).None?)
    ensures Answered(reply, n) == k
  {
  }

  /** The receive buffer once k replies are stored. */
  function Stored(rx: seq<Byte>, reply: Replies, k: nat): (r: seq<Byte>)
    ensures |r| == |rx|
    ensures forall i :: k <= i < |rx| ==> r[i] == rx[i]
  {
    if rx == [] then []
    else Stored(rx[..|rx| - 1], reply, k) + [StoredByte(rx, reply, k, |rx| - 1)]
  }

  function StoredByte(rx: seq<Byte>, reply: Replies, k: nat, i: nat): Byte
    requires i < |rx|
  {
    if i < k && reply(i).Some? then ByteOf(reply(i).value) else rx[i]
  }

  lemma StoreNext(rx: seq<Byte>, reply: Replies, i: nat)
    requires i < |rx| && reply(i).Some?
    ensures Stored(rx, reply, i)[i := ByteOf(reply(i).value)] == Stored(rx, reply, i + 1)
  {
    var a, b := Stored(rx, reply, i)[i := ByteOf(reply(i).value)], Stored(rx, reply, i + 1);
    forall j | 0 <= j < |rx| ensures a[j] == b[j] {
      StoredAt(rx, reply, i, j);
      StoredAt(rx, reply, i + 1, j);
    }
  }

  lemma {:induction false} StoredAt(rx: seq<Byte>, reply: Replies, k: nat, j: nat)
    requires j < |rx|
    ensures Stored(rx, reply, k)[j] == StoredByte(rx, reply, k, j)
  {
    if j < |rx| - 1 {
      StoredAt(rx[..|rx| - 1], reply, k, j);
    }
  }

  lemma {:induction false} StoredNone(rx: seq<Byte>, reply: Replies)
    ensures Stored(rx, reply, 0) == rx
  {
  }

  function ByteOf(word: nat): (b: Byte)
    ensures b == Low(word, 8)
  {
    LowFixesIffFits(word, 8);
    assert Pow2(8) == 0x100;
    Low(word, 8)
  }

  // ---- registers ----

  /** `|= mask` and `&= ~mask` write a field of ones or of zeroes. */
  lemma SetIsWrite(w: nat, low: nat, width: nat)
    ensures Or(w, Mask(low, width)) == WriteField(w, low, width, Ones(width))
    ensures AndNot(w, Mask(low, width)) == WriteField(w, low, width, 0)
  {
    var m := Mask(low, width);
    forall i: nat
      ensures Bit(Or(w, m), i) == Bit(WriteField(w, low, width, Ones(width)), i)
      ensures Bit(AndNot(w, m), i) == Bit(WriteField(w, low, width, 0), i)
    {
      BitOfOr(w, m, i);
      BitOfAndNot(w, m, i);
      BitOfMask(low, width, i);
      WriteFieldBit(w, low, width, Ones(width), i);
      WriteFieldBit(w, low, width, 0, i);
      if i >= low {
        BitOfOnes(width, i - low);
        BitOfZero(i - low);
      }
    }
    Extensional(Or(w, m), WriteField(w, low, width, Ones(width)));
    Extensional(AndNot(w, m), WriteField(w, low, width, 0));
  }

  /** `&= ~3` writes zero to the two-bit field at bit 0: the protocol in FMT, the mode in CSMODE. */
  lemma ClearProtocol(w: nat)
    ensures AndNot(w, 3) == WriteField(w, 0, 2, 0)
  {
    MaskConstants();
    SetIsWrite(w, 0, 2);
  }

  lemma TwoBitWrite(w: nat, p: nat)
    requires p < 3
    ensures Or(AndNot(w, 3), p) == WriteField(w, 0, 2, p)
  {
    MaskConstants();
    assert Pow2(2) == 4 && Shl(p, 0) == p;
    ClearThenOr(w, 0, 2, p);
  }

  /** The mode in which the registers make the controller send. */
  function ModeOf(fmt: nat, csmode: nat, csid: nat): Mode {
    Mode(Field(fmt, 0, 2), Field(fmt, 2, 1) == 1, Field(fmt, 16, 4), Field(csmode, 0, 2), csid)
  }

  /** The two-bit field at bit 0 holds the given mode, and the register's other bits are as they were. */
  predicate Selects(before: nat, after: nat, mode: nat) {
    Field(after, 0, 2) == mode && Shr(after, 2) == Shr(before, 2)
  }

  lemma WriteSelects(w: nat, mode: nat)
    requires mode < 3
    ensures Selects(w, Or(AndNot(w, 3), mode), mode)
    ensures Selects(w, AndNot(w, 3), CSMODE_AUTO)
  {
    TwoBitWrite(w, mode);
    ClearProtocol(w);
    WriteSelectsField(w, mode);
    WriteSelectsField(w, 0);
  }

  lemma WriteSelectsField(w: nat, mode: nat)
    requires mode < 3
    ensures Selects(w, WriteField(w, 0, 2, mode), mode)
  {
    var w' := WriteField(w, 0, 2, mode);
    WriteThenRead(w, 0, 2, mode);
    LowConstants(mode, true);
    forall i: nat ensures Bit(Shr(w', 2), i) == Bit(Shr(w, 2), i) {
      BitOfShr(w', 2, i);
      BitOfShr(w, 2, i);
      WriteFieldBit(w, 0, 2, mode, 2 + i);
    }
    Extensional(Shr(w', 2), Shr(w, 2));
  }

  /** A configured FMT, with chip select held, sends in the mode the transfer asks for. */
  lemma FormatMode(fmt: nat, proto: nat, lsb: bool, csmode: nat, csid: nat)
    requires proto < 3 && Field(csmode, 0, 2) == CSMODE_HOLD
    ensures ModeOf(Format(fmt, proto, lsb), csmode, csid) == Mode(proto, lsb, 8, CSMODE_HOLD, csid)
  {
    FormatFields(fmt, proto, lsb);
  }

  /** Switching the protocol field of FMT changes the protocol of the mode and nothing else. */
  lemma SwitchMode(fmt: nat, q: nat, csmode: nat, csid: nat)
    requires q < 3
    ensures ModeOf(WriteField(fmt, 0, 2, q), csmode, csid) == ModeOf(fmt, csmode, csid).(proto := q)
  {
    WriteThenRead(fmt, 0, 2, q);
    LowConstants(q, true);
    WriteKeepsOthers(fmt, 0, 2, q, 2, 1);
    WriteKeepsOthers(fmt, 0, 2, q, 16, 4);
  }

  /** FMT as `configure_spi` leaves it: protocol, bit order, receive enabled, eight-bit frames. */
  function Format(fmt: nat, proto: nat, lsb: bool): nat {
    WriteField(WriteField(WriteField(WriteField(fmt, 0, 2, proto), 2, 1, Flag(lsb)), 3, 1, 0), 16, 4, 8)
  }

  lemma FormatFields(fmt: nat, proto: nat, lsb: bool)
    requires proto < 3
    ensures var f := Format(fmt, proto, lsb);
            Field(f, 0, 2) == proto && Field(f, 2, 1) == Flag(lsb) && Field(f, 3, 1) == 0 && Field(f, 16, 4) == 8
  {
    FormatProto(fmt, proto, lsb);
    FormatFlags(fmt, proto, lsb);
    FormatLength(fmt, proto, lsb);
    LowConstants(proto, lsb);
  }

  lemma FormatProto(fmt: nat, proto: nat, lsb: bool)
    ensures Field(Format(fmt, proto, lsb), 0, 2) == Low(proto, 2)
  {
    var f := Format(fmt, proto, lsb);
    forall i: nat ensures Bit(Field(f, 0, 2), i) == Bit(Low(proto, 2), i) {
      BitOfField(f, 0, 2, i);
      BitOfLow(proto, 2, i);
      FormatBit(fmt, proto, lsb, i);
    }
    Extensional(Field(f, 0, 2), Low(proto, 2));
  }

  lemma FormatFlags(fmt: nat, proto: nat, lsb: bool)
    ensures Field(Format(fmt, proto, lsb), 2, 1) == Low(Flag(lsb), 1)
    ensures Field(Format(fmt, proto, lsb), 3, 1) == 0
  {
    var f := Format(fmt, proto, lsb);
    forall i: nat
      ensures Bit(Field(f, 2, 1), i) == Bit(Low(Flag(lsb), 1), i)
      ensures Bit(Field(f, 3, 1), i) == Bit(0, i)
    {
      BitOfField(f, 2, 1, i);
      BitOfField(f, 3, 1, i);
      BitOfLow(Flag(lsb), 1, i);
      BitOfZero(i);
      FormatBit(fmt, proto, lsb, 2);
      FormatBit(fmt, proto, lsb, 3);
    }
    Extensional(Field(f, 2, 1), Low(Flag(lsb), 1));
    Extensional(Field(f, 3, 1), 0);
  }

  lemma FormatLength(fmt: nat, proto: nat, lsb: bool)
    ensures Field(Format(fmt, proto, lsb), 16, 4) == Low(8, 4)
  {
    var f := Format(fmt, proto, lsb);
    forall i: nat ensures Bit(Field(f, 16, 4), i) == Bit(Low(8, 4), i) {
      BitOfField(f, 16, 4, i);
      BitOfLow(8, 4, i);
      FormatBit(fmt, proto, lsb, 16 + i);
    }
    Extensional(Field(f, 16, 4), Low(8, 4));
  }

  lemma LowConstants(proto: nat, b: bool)
    requires proto < 3
    ensures Low(proto, 2) == proto && Low(Flag(b), 1) == Flag(b) && Low(8, 4) == 8 && Pow2(1) == 2
  {
    assert Pow2(1) == 2 && Pow2(2) == 4 && Pow2(3) == 8 && Pow2(4) == 16;
    LowFixesIffFits(proto, 2);
    LowFixesIffFits(Flag(b), 1);
    LowFixesIffFits(8, 4);
  }

  lemma FormatBit(fmt: nat, p: nat, lsb: bool, i: nat)
    ensures Bit(Format(fmt, p, lsb), i)
         == if 16 <= i < 20 then Bit(8, i - 16)
            else if i == 3 then Bit(0, 0)
            else if i == 2 then Bit(Flag(lsb), 0)
            else if i < 2 then Bit(p, i)
            else Bit(fmt, i)
  {
    var f1 := WriteField(fmt, 0, 2, p);
    var f2 := WriteField(f1, 2, 1, Flag(lsb));
    var f3 := WriteField(f2, 3, 1, 0);
    WriteFieldBit(fmt, 0, 2, p, i);
    WriteFieldBit(f1, 2, 1, Flag(lsb), i);
    WriteFieldBit(f2, 3, 1, 0, i);
    WriteFieldBit(f3, 16, 4, 8, i);
  }

  /** The frame-length test: the masked register equals 8 in place exactly when the field holds 8. */
  lemma LengthTest(w: nat)
    ensures And(w, 0xF0000) == 0x80000 <==> Field(w, 16, 4) == 8
    ensures Field(w, 16, 4) == 8 ==> WriteField(w, 16, 4, 8) == w
  {
    var f := Field(w, 16, 4);
    MaskConstants();
    forall i: nat ensures Bit(And(w, 0xF0000), i) == Bit(Shl(f, 16), i) {
      BitOfAnd(w, 0xF0000, i);
      BitOfMask(16, 4, i);
      BitOfShl(f, 16, i);
      if i >= 16 {
        BitOfField(w, 16, 4, i - 16);
      }
    }
    Extensional(And(w, 0xF0000), Shl(f, 16));
    ShlIsProduct(f, 16);
    Shift16();
    if f == 8 {
      WriteBack(w, 16, 4);
    }
  }

  /** Writing the value a field already holds changes nothing. */
  lemma WriteBack(w: nat, low: nat, width: nat)
    ensures WriteField(w, low, width, Field(w, low, width)) == w
  {
    var v := Field(w, low, width);
    forall i: nat ensures Bit(WriteField(w, low, width, v), i) == Bit(w, i) {
      WriteFieldBit(w, low, width, v, i);
      if i >= low {
        BitOfField(w, low, width, i - low);
      }
    }
    Extensional(WriteField(w, low, width, v), w);
  }

  lemma Shift16()
    ensures Pow2(16) == 0x10000
  {
    assert Pow2(4) == 16 && Pow2(8) == 16 * Pow2(4) && Pow2(12) == 16 * Pow2(8) && Pow2(16) == 16 * Pow2(12);
  }

  lemma MaskConstants()
    ensures Mask(16, 4) == 0xF0000 && Mask(0, 1) == 1 && Mask(1, 1) == 2 && Mask(2, 1) == 4 && Mask(3, 1) == 8
    ensures Mask(0, 2) == 3 && Ones(1) == 1
  {
    assert Ones(1) == 1 && Ones(2) == 3 && Ones(3) == 7 && Ones(4) == 15;
    Shift16();
    ShlIsProduct(15, 16);
  }

  /** Clearing the length field and or-ing 8 in. */
  lemma LengthWrite(w: nat)
    ensures Or(AndNot(w, 0xF0000), 0x80000) == WriteField(w, 16, 4, 8)
  {
    MaskConstants();
    Shift16();
    ShlIsProduct(8, 16);
    assert Pow2(4) == 16;
    ClearThenOr(w, 16, 4, 8);
  }

  /** The read-modify-writes of FMT in `configure_spi` compose to the format of the transfer. */
  lemma FormatSteps(w: nat, p: nat, lsb: bool)
    requires p < 3
    ensures var a := Or(AndNot(w, 3), p);
            var b := if lsb then Or(a, 4) else AndNot(a, 4);
            var d := AndNot(b, 8);
            Format(w, p, lsb) == if And(d, 0xF0000) != 0x80000 then Or(AndNot(d, 0xF0000), 0x80000) else d
  {
    TwoBitWrite(w, p);
    var a := WriteField(w, 0, 2, p);
    MaskConstants();
    SetIsWrite(a, 2, 1);
    var b := WriteField(a, 2, 1, Flag(lsb));
    SetIsWrite(b, 3, 1);
    var d := WriteField(b, 3, 1, 0);
    LengthTest(d);
    LengthWrite(d);
  }

  function ClockMode(w: nat, pol: bool, pha: bool): nat {
    WriteField(WriteField(w, 1, 1, Flag(pol)), 0, 1, Flag(pha))
  }

  lemma ModeSteps(w: nat, pol: bool, pha: bool)
    ensures var a := if pol then Or(w, 2) else AndNot(w, 2);
            ClockMode(w, pol, pha) == if pha then Or(a, 1) else AndNot(a, 1)
  {
    MaskConstants();
    SetIsWrite(w, 1, 1);
    SetIsWrite(WriteField(w, 1, 1, Flag(pol)), 0, 1);
  }

  // ---- the transfer in plain numbers ----

  /** The data phase starts at the largest of the three limits, two of which wrap at 32 bits. */
  lemma DataStartIsLargest(c: Config)
    ensures var limits := [c.cmdNum, (c.cmdNum + c.addrNum) % 0x1_0000_0000,
                           (c.cmdNum + c.addrNum + c.dummyNum) % 0x1_0000_0000];
            DataStart(c) in limits && forall j :: 0 <= j < 3 ==> limits[j] <= DataStart(c)
  {
    var limits := [c.cmdNum, AddrEnd(c), DummyEnd(c)];
    assert DataStart(c) == limits[0] || DataStart(c) == limits[1] || DataStart(c) == limits[2];
  }

  /**
   A frame of the transfer: eight bits in the requested order to the requested chip, with chip select
   held, and multi-wire from the start (0), from the first address byte (2) or from the data on (1).
   */
  predicate SentAs(m: Mode, c: Config, i: nat) {
    && m.bits == 8 && m.lsbFirst == c.littleEndian && m.cs == 2 && m.csid == c.csid
    && m.proto == (if c.multiWire == 0 || (c.multiWire == 1 && i >= DataStart(c)) || (c.multiWire == 2 && i >= c.cmdNum)
                   then c.protocol else 0)
  }

  /** The frames carry the buffer's bytes in order, or zeroes when there is no buffer. */
  predicate Carry(sent: seq<Frame>, tx: Option<seq<Byte>>) {
    match tx
    case None => forall i :: 0 <= i < |sent| ==> sent[i].byte == 0
    case Some(bytes) => |sent| <= |bytes| && forall i :: 0 <= i < |sent| ==> sent[i].byte == bytes[i]
  }

  predicate AllSentAs(sent: seq<Frame>, c: Config) {
    forall i :: 0 <= i < |sent| ==> SentAs(sent[i].mode, c, i)
  }

  lemma FramesSay(c: Config, tx: Option<seq<Byte>>, n: nat)
    requires tx.Some? ==> n <= |tx.value|
    ensures Carry(Frames(c, tx, n), tx) && AllSentAs(Frames(c, tx, n), c)
  {
    var sent := Frames(c, tx, n);
    forall i | 0 <= i < |sent| ensures SentAs(sent[i].mode, c, i) {
      assert sent[i] == FrameAt(c, tx, i);
    }
  }

  /** The wire was extended by these frames. */
  predicate Extends(before: seq<Frame>, after: seq<Frame>, c: Config, tx: Option<seq<Byte>>) {
    |before| <= |after| && after[..|before|] == before
    && Carry(after[|before|..], tx) && AllSentAs(after[|before|..], c)
  }

  lemma FramesExtend(before: seq<Frame>, c: Config, tx: Option<seq<Byte>>, n: nat)
    requires tx.Some? ==> n <= |tx.value|
    ensures Extends(before, before + Frames(c, tx, n), c, tx)
  {
    FramesSay(c, tx, n);
    assert (before + Frames(c, tx, n))[|before|..] == Frames(c, tx, n);
  }

  lemma NothingSent(wire: seq<Frame>, c: Config, tx: Option<seq<Byte>>)
    ensures Extends(wire, wire, c, tx)
  {
  }

  /** The first k bytes of the receive buffer are the low bytes of the replies, and the others are as before. */
  predicate Received(before: seq<Byte>, after: seq<Byte>, reply: Replies, k: nat) {
    && |after| == |before|
    && forall i :: 0 <= i < |after| ==>
         if i < k then reply(i).Some? && after[i] == reply(i).value % 0x100 else after[i] == before[i]
  }

  lemma StoredSays(rx: seq<Byte>, reply: Replies, k: nat)
    requires forall i :: 0 <= i < k ==> reply(i).Some?
    ensures Received(rx, Stored(rx, reply, k), reply, k)
  {
    var after := Stored(rx, reply, k);
    forall i | 0 <= i < |rx|
      ensures if i < k then reply(i).Some? && after[i] == reply(i).value % 0x100 else after[i] == rx[i]
    {
      StoredAt(rx, reply, k, i);
      if i < k {
        ShrIsQuotient(reply(i).value, 8);
        ByteIs256();
      }
    }
  }

  lemma ByteIs256()
    ensures Pow2(8) == 0x100
  {
    assert Pow2(4) == 16 && Pow2(8) == 16 * Pow2(4);
  }

  /** FMT, but for its protocol field: bit order in bit 2, receiving on, eight-bit frames, the rest kept. */
  ghost predicate FormatLeft(before: nat, after: nat, lsb: bool) {
    && Bit(after, 2) == lsb && !Bit(after, 3) && Field(after, 16, 4) == 8
    && forall i: nat :: (4 <= i < 16 || 20 <= i) ==> Bit(after, i) == Bit(before, i)
  }

  lemma FormatSays(fmt: nat, proto: nat, lsb: bool)
    requires proto < 3
    ensures FormatLeft(fmt, Format(fmt, proto, lsb), lsb)
  {
    FormatFields(fmt, proto, lsb);
    forall i: nat ensures Bit(Format(fmt, proto, lsb), i)
                       == if 16 <= i < 20 then Bit(8, i - 16)
                          else if i == 3 then Bit(0, 0)
                          else if i == 2 then Bit(Flag(lsb), 0)
                          else if i < 2 then Bit(proto, i)
                          else Bit(fmt, i)
    {
      FormatBit(fmt, proto, lsb, i);
    }
  }

  /** Only the protocol field may change afterwards. */
  lemma FormatStaysLeft(before: nat, mid: nat, after: nat, lsb: bool)
    requires FormatLeft(before, mid, lsb) && Shr(after, 2) == Shr(mid, 2)
    ensures FormatLeft(before, after, lsb)
  {
    forall i: nat | i >= 2 ensures Bit(after, i) == Bit(mid, i) {
      BitOfShr(after, 2, i - 2);
      BitOfShr(mid, 2, i - 2);
    }
    forall i: nat ensures Bit(Field(after, 16, 4), i) == Bit(Field(mid, 16, 4), i) {
      BitOfField(after, 16, 4, i);
      BitOfField(mid, 16, 4, i);
    }
    Extensional(Field(after, 16, 4), Field(mid, 16, 4));
  }

  /** SCKMODE: phase in bit 0, polarity in bit 1, the rest kept. */
  ghost predicate ClockLeft(before: nat, after: nat, pol: bool, pha: bool) {
    && Bit(after, 0) == pha && Bit(after, 1) == pol
    && forall i: nat :: i >= 2 ==> Bit(after, i) == Bit(before, i)
  }

  lemma ClockSays(before: nat, pol: bool, pha: bool)
    ensures ClockLeft(before, ClockMode(before, pol, pha), pol, pha)
  {
    var w := WriteField(before, 1, 1, Flag(pol));
    forall i: nat ensures Bit(ClockMode(before, pol, pha), i)
                       == if i == 0 then Bit(Flag(pha), 0) else if i == 1 then Bit(Flag(pol), 0) else Bit(before, i) {
      WriteFieldBit(w, 0, 1, Flag(pha), i);
      WriteFieldBit(before, 1, 1, Flag(pol), i);
    }
  }

  class Controller {
    var fmt: nat
    var sckmode: nat
    var csdef: nat
    var csid: nat
    var csmode: nat
    var fctrl: nat
    /** Every frame sent so far. */
    ghost var wire: seq<Frame>

    ghost function ModeNow(): Mode
      reads `fmt, `csmode, `csid
    {
      ModeOf(fmt, csmode, csid)
    }

    /** The FMT part of `configure_spi`. An unsupported protocol clears the field and gives up. */
    method ConfigureFormat(c: Config) returns (ok: bool)
      modifies `fmt
      ensures ok <==> c.protocol < 3
      ensures fmt == if ok then Format(old(fmt), WireProto0(c), c.littleEndian) else WriteField(old(fmt), 0, 2, 0)
    {
      ClearProtocol(fmt);
      FormatSteps(fmt, if c.protocol < 3 then WireProto0(c) else 0, c.littleEndian);
      fmt := AndNot(fmt, 3);
      match c.protocol {
        case 0 => fmt := Or(fmt, PROTO_SINGLE);
        case 1 => fmt := Or(fmt, if c.multiWire == WIRE_ALL then PROTO_DUAL else PROTO_SINGLE);
        case 2 => fmt := Or(fmt, if c.multiWire == WIRE_ALL then PROTO_QUAD else PROTO_SINGLE);
        case _ => return false;
      }
      fmt := if c.littleEndian then Or(fmt, 4) else AndNot(fmt, 4);
      fmt := AndNot(fmt, 8);
      if And(fmt, 0xF0000) != 0x80000 {
        fmt := AndNot(fmt, 0xF0000);
        fmt := Or(fmt, 0x80000);
      }
      ok := true;
    }

    /** `configure_spi` */
    method Configure(c: Config) returns (rc: int)
      modifies `fmt, `sckmode, `csdef, `csid, `fctrl
      ensures rc == if c.protocol < 3 then 0 else -1
      ensures fmt == if rc == 0 then Format(old(fmt), WireProto0(c), c.littleEndian) else WriteField(old(fmt), 0, 2, 0)
      ensures sckmode == if rc == 0 then ClockMode(old(sckmode), c.polarity, c.phase) else old(sckmode)
      ensures csdef == if rc == 0 then Flag(!c.csActiveHigh) else old(csdef)
      ensures csid == (if rc == 0 then c.csid else old(csid)) && fctrl == (if rc == 0 then 0 else old(fctrl))
      ensures rc == 0 ==>
        FormatLeft(old(fmt), fmt, c.littleEndian) && ClockLeft(old(sckmode), sckmode, c.polarity, c.phase)
    {
      var ok := ConfigureFormat(c);
      if !ok {
        return -1;
      }
      FormatSays(old(fmt), WireProto0(c), c.littleEndian);
      ClockSays(sckmode, c.polarity, c.phase);
      ModeSteps(sckmode, c.polarity, c.phase);
      sckmode := if c.polarity then Or(sckmode, 2) else AndNot(sckmode, 2);
      sckmode := if c.phase then Or(sckmode, 1) else AndNot(sckmode, 1);
      csdef := if c.csActiveHigh then 0 else 1;
      csid := c.csid;
      fctrl := 0;
      rc := 0;
    }

    /** Configure, then hold the chip select: the controller is ready to send the first frame. */
    method Begin(c: Config) returns (rc: int)
      modifies `fmt, `sckmode, `csdef, `csid, `fctrl, `csmode
      ensures rc == if c.protocol < 3 then 0 else -1
      ensures if rc == 0 then ModeNow() == ModeFor(c, WireProto0(c)) && Selects(old(csmode), csmode, CSMODE_HOLD)
              else csmode == old(csmode)
      ensures fmt == if rc == 0 then Format(old(fmt), WireProto0(c), c.littleEndian) else WriteField(old(fmt), 0, 2, 0)
      ensures sckmode == if rc == 0 then ClockMode(old(sckmode), c.polarity, c.phase) else old(sckmode)
      ensures csdef == if rc == 0 then Flag(!c.csActiveHigh) else old(csdef)
      ensures csid == (if rc == 0 then c.csid else old(csid)) && fctrl == (if rc == 0 then 0 else old(fctrl))
      ensures rc == 0 ==>
        FormatLeft(old(fmt), fmt, c.littleEndian) && ClockLeft(old(sckmode), sckmode, c.polarity, c.phase)
    {
      rc := Configure(c);
      if rc == 0 {
        WriteSelects(csmode, CSMODE_HOLD);
        csmode := AndNot(csmode, 3);
        csmode := Or(csmode, CSMODE_HOLD);
        FormatMode(old(fmt), WireProto0(c), c.littleEndian, csmode, csid);
      }
    }

    /** `spi_mode_switch` */
    method ModeSwitch(c: Config, stage: nat)
      requires c.protocol < 3
      modifies `fmt
      ensures if c.multiWire == stage then Selects(old(fmt), fmt, c.protocol) else fmt == old(fmt)
      ensures ModeNow() == if c.multiWire == stage then old(ModeNow()).(proto := c.protocol) else old(ModeNow())
    {
      if c.multiWire == stage {
        ClearProtocol(fmt);
        TwoBitWrite(fmt, c.protocol);
        WriteSelects(fmt, c.protocol);
        SwitchMode(fmt, c.protocol, csmode, csid);
        fmt := AndNot(fmt, 3);
        match c.protocol {
          case 1 => fmt := Or(fmt, PROTO_DUAL);
          case 2 => fmt := Or(fmt, PROTO_QUAD);
          case _ => return;
        }
      }
    }

    /** Put chip select back in automatic mode. */
    method Release()
      modifies `csmode
      ensures Selects(old(csmode), csmode, CSMODE_AUTO)
    {
      WriteSelects(csmode, 0);
      csmode := AndNot(csmode, 3);
    }

    /** Write one byte to TXDATA, which sends it in the current mode, and wait for its reply. */
    method Exchange(byte: nat, reply: Option<nat>) returns (timeout: bool)
      modifies `wire, `csmode
      ensures wire == old(wire) + [Frame(byte, old(ModeNow()))]
      ensures timeout == reply.None?
      ensures if timeout then Selects(old(csmode), csmode, CSMODE_AUTO) else csmode == old(csmode)
    {
      wire := wire + [Frame(byte, ModeNow())];
      if reply.None? {
        Release();
        return true;
      }
      timeout := false;
    }

    /**
     The state once frames 0..i-1 are sent and answered: the wire carries them in order, the replies
     are stored, and the transmit buffer from i on is as it was (the two buffers may be one).
     */
    ghost predicate Done(c: Config, tx: array?<Byte>, rx: array?<Byte>, reply: Replies, start: Start, i: nat)
      reads `wire, Cells(tx), Cells(rx)
    {
      && (start.bytes.Some? <==> tx != null)
      && (tx != null ==> i <= tx.Length == |start.bytes.value| && tx[i..] == start.bytes.value[i..])
      && (rx != null ==> i <= rx.Length && rx[..] == Stored(start.rx, reply, i))
      && (forall j :: 0 <= j < i ==> reply(j).Some?)
      && wire == start.wire + Frames(c, start.bytes, i)
    }

    /** The state after frame i went unanswered: it is on the wire, and nothing more is stored. */
    ghost predicate Abandoned(c: Config, rx: array?<Byte>, reply: Replies, start: Start, i: nat)
      reads `wire, Cells(rx)
    {
      && (start.bytes.Some? ==> i < |start.bytes.value|)
      && (rx != null ==> rx[..] == Stored(start.rx, reply, i))
      && (forall j :: 0 <= j < i ==> reply(j).Some?) && reply(i).None?
      && wire == start.wire + Frames(c, start.bytes, i + 1)
    }

    /** The body of the frame loops. */
    method SendFrame(c: Config, i: nat, tx: array?<Byte>, rx: array?<Byte>, reply: Replies, ghost start: Start)
      returns (timeout: bool)
      requires ModeNow() == ModeFor(c, WireProto(c, i)) && Done(c, tx, rx, reply, start, i)
      requires (tx != null ==> i < tx.Length) && (rx != null ==> i < rx.Length)
      modifies `wire, `csmode, Cells(rx)
      ensures if timeout then Abandoned(c, rx, reply, start, i) && Selects(old(csmode), csmode, CSMODE_AUTO)
              else Done(c, tx, rx, reply, start, i + 1) && csmode == old(csmode)
    {
      var byte := if tx != null then tx[i] else 0;
      assert byte == TxByte(start.bytes, i) by {
        assert tx != null ==> tx[i] == tx[i..][0] == start.bytes.value[i..][0];
      }
      timeout := Exchange(byte, reply(i));
      assert wire == start.wire + (Frames(c, start.bytes, i) + [FrameAt(c, start.bytes, i)]);
      if timeout {
        return;
      }
      assert tx != null ==> tx[i + 1..] == tx[i..][1..] == start.bytes.value[i..][1..] == start.bytes.value[i + 1..];
      if rx != null {
        StoreNext(start.rx, reply, i);
        rx[i] := ByteOf(reply(i).value);
        assert rx[..] == Stored(start.rx, reply, i)[i := ByteOf(reply(i).value)];
      }
    }

    /** One of the four frame loops: frames from `first` up to `limit`. */
    method SendPhase(c: Config, ghost proto: nat, first: nat, limit: nat, tx: array?<Byte>, rx: array?<Byte>,
                     reply: Replies, ghost start: Start)
      returns (i: nat, timeout: bool)
      requires ModeNow() == ModeFor(c, proto) && forall j :: first <= j < limit ==> WireProto(c, j) == proto
      requires (tx != null ==> limit <= tx.Length) && (rx != null ==> limit <= rx.Length)
      requires Done(c, tx, rx, reply, start, first)
      modifies `wire, `csmode, Cells(rx)
      ensures if timeout then i < limit && Abandoned(c, rx, reply, start, i)
                              && Selects(old(csmode), csmode, CSMODE_AUTO)
              else i == Max(first, limit) && Done(c, tx, rx, reply, start, i) && csmode == old(csmode)
    {
      i := first;
      while i < limit
        invariant first <= i <= Max(first, limit)
        invariant csmode == old(csmode) && Done(c, tx, rx, reply, start, i)
      {
        timeout := SendFrame(c, i, tx, rx, reply, start);
        if timeout {
          return;
        }
        i := i + 1;
      }
      timeout := false;
    }

    /** The command loop and the mode switch after it. */
    method SendCommand(c: Config, tx: array?<Byte>, rx: array?<Byte>, reply: Replies, ghost start: Start)
      returns (i: nat, timeout: bool)
      requires c.protocol < 3 && ModeNow() == ModeFor(c, WireProto0(c)) && Done(c, tx, rx, reply, start, 0)
      requires (tx != null ==> c.cmdNum <= tx.Length) && (rx != null ==> c.cmdNum <= rx.Length)
      modifies `wire, `csmode, `fmt, Cells(rx)
      ensures if timeout then i < c.cmdNum && Abandoned(c, rx, reply, start, i)
                              && Selects(old(csmode), csmode, CSMODE_AUTO)
              else i == c.cmdNum && Done(c, tx, rx, reply, start, i) && csmode == old(csmode)
                   && ModeNow() == ModeFor(c, HeaderProto(c))
      ensures timeout ==> Field(fmt, 0, 2) == WireProto(c, i)
      ensures Shr(fmt, 2) == Shr(old(fmt), 2)
    {
      i, timeout := SendPhase(c, WireProto0(c), 0, c.cmdNum, tx, rx, reply, start);
      if !timeout {
        ModeSwitch(c, WIRE_ADDR_DATA);
      }
    }

    /** The command, address and dummy loops, with the mode switch after the command. */
    method SendHeader(c: Config, tx: array?<Byte>, rx: array?<Byte>, reply: Replies, ghost start: Start)
      returns (i: nat, timeout: bool)
      requires c.protocol < 3 && ModeNow() == ModeFor(c, WireProto0(c)) && Done(c, tx, rx, reply, start, 0)
      requires (tx != null ==> DataStart(c) <= tx.Length) && (rx != null ==> DataStart(c) <= rx.Length)
      modifies `wire, `csmode, `fmt, Cells(rx)
      ensures if timeout then i < DataStart(c) && Abandoned(c, rx, reply, start, i)
                              && Selects(old(csmode), csmode, CSMODE_AUTO)
              else i == DataStart(c) && Done(c, tx, rx, reply, start, i) && csmode == old(csmode)
                   && ModeNow() == ModeFor(c, HeaderProto(c))
      ensures timeout ==> Field(fmt, 0, 2) == WireProto(c, i)
      ensures Shr(fmt, 2) == Shr(old(fmt), 2)
    {
      i, timeout := SendCommand(c, tx, rx, reply, start);
      if timeout {
        return;
      }
      i, timeout := SendPhase(c, HeaderProto(c), i, AddrEnd(c), tx, rx, reply, start);
      if timeout {
        return;
      }
      i, timeout := SendPhase(c, HeaderProto(c), i, DummyEnd(c), tx, rx, reply, start);
    }

    /** The four loops, which share one index, and the two mode switches between them. */
    method SendAll(c: Config, len: nat, tx: array?<Byte>, rx: array?<Byte>, reply: Replies, ghost start: Start)
      returns (i: nat, timeout: bool)
      requires c.protocol < 3 && ModeNow() == ModeFor(c, WireProto0(c)) && Done(c, tx, rx, reply, start, 0)
      requires (tx != null ==> FrameCount(c, len) <= tx.Length) && (rx != null ==> FrameCount(c, len) <= rx.Length)
      modifies `wire, `csmode, `fmt, Cells(rx)
      ensures if timeout then i < FrameCount(c, len) && Abandoned(c, rx, reply, start, i)
                              && Selects(old(csmode), csmode, CSMODE_AUTO)
              else i == FrameCount(c, len) && Done(c, tx, rx, reply, start, i) && csmode == old(csmode)
      ensures Field(fmt, 0, 2) == WireProto(c, i) && Shr(fmt, 2) == Shr(old(fmt), 2)
    {
      i, timeout := SendHeader(c, tx, rx, reply, start);
      if timeout {
        return;
      }
      ModeSwitch(c, WIRE_DATA_ONLY);
      ghost var proto := if c.multiWire == WIRE_DATA_ONLY then c.protocol else HeaderProto(c);
      i, timeout := SendPhase(c, proto, i, len, tx, rx, reply, start);
    }

    /**
     `transfer`. For any peer: the frames on the wire are the transfer's frames, in order, each in
     the mode its index calls for, up to and including the first unanswered one; the bytes stored
     are exactly the replies before it; and chip select ends in automatic mode either way. The format
     register is left with the protocol of the index reached, the other registers as configured.
     */
    method Transfer(c: Config, len: nat, tx: array?<Byte>, rx: array?<Byte>, reply: Replies) returns (rc: int)
      requires tx != null ==> FrameCount(c, len) <= tx.Length
      requires rx != null ==> FrameCount(c, len) <= rx.Length
      modifies this, Cells(rx)
      ensures c.protocol >= 3 ==> rc == -1 && wire == old(wire) && csmode == old(csmode)
                                  && (rx != null ==> rx[..] == old(rx[..]))
      ensures c.protocol < 3 ==>
        var n := FrameCount(c, len);
        var k := Answered(reply, n);
        && rc == (if k == n then 0 else 1)
        && wire == old(wire) + Frames(c, old(Snapshot(tx)), if k == n then n else k + 1)
        && (rx != null ==> rx[..] == Stored(old(rx[..]), reply, k))
        && Selects(old(csmode), csmode, CSMODE_AUTO)
        && Field(fmt, 0, 2) == WireProto(c, k)
        && FormatLeft(old(fmt), fmt, c.littleEndian) && ClockLeft(old(sckmode), sckmode, c.polarity, c.phase)
        && csdef == (if c.csActiveHigh then 0 else 1) && csid == c.csid && fctrl == 0
      ensures Extends(old(wire), wire, c, old(if tx == null then None else Some(tx[..])))
      ensures c.protocol < 3 && rx != null ==>
        Received(old(rx[..]), rx[..], reply, Answered(reply, FrameCount(c, len)))
    {
      rc := Begin(c);
      if rc == 0 {
        rc := SendAndRelease(c, len, tx, rx, reply, old(fmt));
      } else {
        NothingSent(wire, c, Snapshot(tx));
      }
    }

    /** The frames, then chip select back to automatic. */
    method SendAndRelease(c: Config, len: nat, tx: array?<Byte>, rx: array?<Byte>, reply: Replies, ghost before: nat)
      returns (rc: int)
      requires c.protocol < 3 && ModeNow() == ModeFor(c, WireProto0(c)) && FormatLeft(before, fmt, c.littleEndian)
      requires (tx != null ==> FrameCount(c, len) <= tx.Length) && (rx != null ==> FrameCount(c, len) <= rx.Length)
      modifies `wire, `csmode, `fmt, Cells(rx)
      ensures Selects(old(csmode), csmode, CSMODE_AUTO)
      ensures var n := FrameCount(c, len);
        var k := Answered(reply, n);
        && rc == (if k == n then 0 else 1)
        && wire == old(wire) + Frames(c, old(Snapshot(tx)), if k == n then n else k + 1)
        && (rx != null ==> rx[..] == Stored(old(rx[..]), reply, k))
        && Field(fmt, 0, 2) == WireProto(c, k) && Shr(fmt, 2) == Shr(old(fmt), 2)
      ensures Extends(old(wire), wire, c, old(if tx == null then None else Some(tx[..])))
      ensures rx != null ==> Received(old(rx[..]), rx[..], reply, Answered(reply, FrameCount(c, len)))
      ensures FormatLeft(before, fmt, c.littleEndian)
    {
      ghost var n, k := FrameCount(c, len), Answered(reply, FrameCount(c, len));
      FramesExtend(wire, c, Snapshot(tx), if k == n then n else k + 1);
      if rx != null {
        StoredSays(rx[..], reply, k);
      }
      rc := SendThenRelease(c, len, tx, rx, reply);
      FormatStaysLeft(before, old(fmt), fmt, c.littleEndian);
    }

    /** The four loops, with the chip select put back at either end of them. */
    method SendThenRelease(c: Config, len: nat, tx: array?<Byte>, rx: array?<Byte>, reply: Replies) returns (rc: int)
      requires c.protocol < 3 && ModeNow() == ModeFor(c, WireProto0(c))
      requires (tx != null ==> FrameCount(c, len) <= tx.Length) && (rx != null ==> FrameCount(c, len) <= rx.Length)
      modifies `wire, `csmode, `fmt, Cells(rx)
      ensures Selects(old(csmode), csmode, CSMODE_AUTO)
      ensures var n := FrameCount(c, len);
        var k := Answered(reply, n);
        && rc == (if k == n then 0 else 1)
        && wire == old(wire) + Frames(c, old(Snapshot(tx)), if k == n then n else k + 1)
        && (rx != null ==> rx[..] == Stored(old(rx[..]), reply, k))
        && Field(fmt, 0, 2) == WireProto(c, k) && Shr(fmt, 2) == Shr(old(fmt), 2)
    {
      ghost var start := Start(Snapshot(tx), if rx == null then [] else rx[..], wire);
      StoredNone(start.rx, reply);
      var i, timeout := SendAll(c, len, tx, rx, reply, start);
      AnsweredIs(reply, FrameCount(c, len), i);
      if timeout {
        return 1;
      }
      Release();
      rc := 0;
    }
  }

  ghost function Cells(a: array?<Byte>): set<object> {
    if a == null then {} else {a}
  }

  ghost function Snapshot(a: array?<Byte>): Option<seq<Byte>>
    reads Cells(a)
  {
    if a == null then None else Some(a[..])
  }

  /**
   The phases add up to what their names say exactly when the 32-bit sum does not wrap. The transfer
   is then max(len, cmd + addr + dummy) frames, so it stays within `len` bytes of buffer exactly
   when the three header phases do.
   */
  lemma PhasesAddUpIff(c: Config, len: nat)
    ensures var header := c.cmdNum + c.addrNum + c.dummyNum;
            && (DataStart(c) == header <==> header < 0x1_0000_0000)
            && (header < 0x1_0000_0000 ==> FrameCount(c, len) == Max(len, header))
            && (header < 0x1_0000_0000 ==> (FrameCount(c, len) <= len <==> header <= len))
  {
  }

  /**
   A command and an address of 2^31 bytes each: their sum wraps to nothing, and the data phase starts
   after the command. With a length of 4, one command byte and a five-byte address make six frames.
   */
  lemma PhasesWrap(c: Config)
    requires c.cmdNum == c.addrNum == 0x8000_0000 && c.dummyNum == 0
    ensures AddrEnd(c) == 0 && DataStart(c) == 0x8000_0000
    ensures FrameCount(c.(cmdNum := 1, addrNum := 5), 4) == 6
  {
    assert 0x8000_0000 + 0x8000_0000 == 0x1_0000_0000;
  }
}
