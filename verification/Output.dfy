// beast_output.cc: SocketOutput, which reads a client's commands and writes
// messages to it as the client's settings ask.
module Output {
  import opened BitStrings
  import opened Common
  import opened Message
  import opened Crc
  import opened Settings
  import opened Commands
  import opened Timestamps
  import opened Framing
  import opened OutputBuffer

  // ----- what a client with given settings is sent for a message

  /** A status byte that sets the UTC-bugfix-and-more-bits flag 0x80 and the emulated-timestamp flag 0x20. */
  function Emulating(b: Byte): Byte {
    ByteOf(ByteBits(b)[0 := true][2 := true])
  }

  /** The data of a status message: the client's settings override those of the upstream receiver. */
  function StatusData(s: Settings, data: Bytes): Bytes
    requires |data| == 14
  {
    var upstream := FromStatusByte(data[0]);
    var copy := data[0 := ToStatusByte(Merge(s, upstream))];
    if s.gpsTimestamps.On? && !upstream.gpsTimestamps.On? then copy[2 := Emulating(copy[2])] else copy
  }

  /** Whether write applies error correction. */
  ghost predicate NeedsFec(s: Settings, f: Frame) {
    !f.kind.Status? && !s.Verbatim() && !s.FecDisable() && CrcCorrectable(f)
  }

  /** Correction indexes the data with the corrected bit, which a frame of the wrong length may not have. */
  ghost predicate Writable(s: Settings, f: Frame) {
    s.Verbatim() || s.FecDisable() || !RunsPastEnd(f)
  }

  ghost function SentData(s: Settings, f: Frame): (data: Bytes)
    requires Writable(s, f)
    ensures |data| == |f.data|
  {
    if f.kind.Status? then StatusData(s, f.data)
    else if NeedsFec(s, f) then CorrectionInRangeExactly(f); Corrected(f)
    else f.data
  }

  /** The format of the timestamps that Rescale makes. */
  function SentType(s: Settings, kind: TimestampType): TimestampType {
    if kind.TwelveMeg? && !s.radarcape.Off? && s.gpsTimestamps.On? then Gps
    else if kind.Gps? && (s.radarcape.Off? || s.gpsTimestamps.Off?) then TwelveMeg
    else kind
  }

  /** The message as the client sees it. */
  ghost function Sent(s: Settings, f: Frame): Frame
    requires Writable(s, f)
  {
    f.(timestampType := SentType(s, f.timestampType),
       timestamp := Rescale(s, f.timestampType, f.timestamp),
       data := SentData(s, f))
  }

  // ----- the text formats

  function HexDigit(n: nat): Byte
    requires n < 16
  {
    if n < 10 then 0x30 + n else 0x41 + n - 10
  }

  function HexByte(b: Byte): Bytes {
    [HexDigit(b / 16), HexDigit(b % 16)]
  }

  function Hex(data: Bytes): Bytes {
    if data == [] then [] else Hex(data[..|data| - 1]) + HexByte(data[|data| - 1])
  }

  /** *data; */
  function Avr(f: Frame): Bytes {
    [0x2A] + Hex(f.data) + [0x3B, 0x0A]
  }

  /** @timestamp data; */
  function Avrmlat(f: Frame): Bytes {
    [0x40] + Hex(TimestampBytes(f.timestamp) + f.data) + [0x3B, 0x0A]
  }

  /** The bytes that write_message appends; None when it appends nothing and leaves the buffer alone. */
  function Printed(s: Settings, f: Frame): Option<Bytes> {
    if s.BinaryFormat() then Some(Encode(f))
    else if f.kind.Status? || f.kind.Position? then None
    else if s.Avrmlat() then Some(Avrmlat(f))
    else Some(Avr(f))
  }

  /** The choice of the output format; a client that does not care gets binary, and text with timestamps. */
  lemma PrintedExactly(s: Settings, f: Frame)
    ensures Printed(s, f) ==
      if !s.binaryFormat.Off? then Some(Encode(f))
      else if f.kind.Status? || f.kind.Position? then None
      else if s.avrmlat.Off? then Some(Avr(f))
      else Some(Avrmlat(f))
  {}

  /** The value of a hexadecimal digit, 0 to 9 and A to F. */
  function DigitValue(c: Byte): nat {
    if 0x30 <= c <= 0x39 then c - 0x30 else if 0x41 <= c <= 0x46 then c - 0x37 else 16
  }

  function ReadHex(digits: Bytes): seq<nat>
    requires |digits| % 2 == 0
  {
    if digits == [] then []
    else
      var n := |digits| - 2;
      ReadHex(digits[..n]) + [16 * DigitValue(digits[n]) + DigitValue(digits[n + 1])]
  }

  /** Hexadecimal data reads back as it was, two digits a byte. */
  lemma {:induction false} HexReadsBack(data: Bytes)
    ensures |Hex(data)| == 2 * |data| && ReadHex(Hex(data)) == data
  {
    if data != [] {
      var n := |data| - 1;
      var digits := HexByte(data[n]);
      HexReadsBack(data[..n]);
      assert 16 * DigitValue(digits[0]) + DigitValue(digits[1]) == data[n];
      assert Hex(data)[..2 * n] == Hex(data[..n]);
    }
  }

  /** A text line holds the data, or the timestamp and the data, between its marks. */
  lemma TextReadsBack(f: Frame)
    ensures var line, n := Avr(f), |f.data|;
      |line| == 2 * n + 3 && line[0] == 0x2A && line[2 * n + 1..] == [0x3B, 0x0A] &&
      ReadHex(line[1..2 * n + 1]) == f.data
    ensures var line, n := Avrmlat(f), |f.data| + 6;
      |line| == 2 * n + 3 && line[0] == 0x40 && line[2 * n + 1..] == [0x3B, 0x0A] &&
      ReadHex(line[1..2 * n + 1]) == TimestampBytes(f.timestamp) + f.data
  {
    var timed := TimestampBytes(f.timestamp) + f.data;
    HexReadsBack(f.data);
    HexReadsBack(timed);
    hide Hex, ReadHex, TimestampBytes;
    assert Avr(f)[1..2 * |f.data| + 1] == Hex(f.data);
    assert Avrmlat(f)[1..2 * |timed| + 1] == Hex(timed);
  }

  function Appended(b: Buffer, bytes: Option<Bytes>): Buffer {
    match bytes
    case None => b
    case Some(x) => Append(b, x)
  }

  /** Whether some option was read. */
  ghost predicate GotCommand(r: Reader, data: Bytes) {
    exists i | 0 <= i < |data| :: ReadBytes(r, data[..i]).state.ReadOption?
  }

  lemma EscapeSnoc(data: Bytes, b: Byte)
    ensures Escape(data + [b]) == Escape(data) + Escaped(b)
  {
    EscapeConcat(data, [b]);
    assert [b][1..] == [] && Escape([]) == [];
  }

  lemma EncodeParts(before: Bytes, f: Frame)
    ensures var start := before + [0x1A] + [TypeByte(f.kind)];
      before + Encode(f) ==
        if f.kind.Position? then start + Escape(f.data)
        else start + Escape(TimestampBytes(f.timestamp) + [f.signal]) + Escape(f.data)
  {
    hide TypeByte, TimestampBytes, Escape;
    var meta := TimestampBytes(f.timestamp) + [f.signal];
    EscapeConcat(meta, f.data);
  }

  class SocketOutput {
    var state: CommandState
    var settings: Settings
    var open: bool
    var outbuf: Option<Bytes>
    var flushPending: bool

    // the settings that the settings notifier was called with
    var notified: seq<Settings>
    const initialSettings: Settings

    // the io_service and the socket
    var posted: nat
    var inFlight: seq<Bytes>
    var delivered: Bytes
    var failed: bool
    ghost var written: Bytes

    constructor (settings: Settings)
      ensures Abstract() == EMPTY && Valid()
      ensures Commander() == Reader(Find1A, settings) && notified == []
    {
      this.settings, initialSettings, notified := settings, settings, [];
      state, open, outbuf, flushPending := Find1A, true, None, false;
      posted, inFlight, delivered, failed, written := 0, [], [], false, [];
    }

    ghost function Abstract(): Buffer
      reads this
    {
      Buffer(open, outbuf, flushPending, posted, inFlight, delivered, written, failed)
    }

    function Commander(): Reader
      reads this
    {
      Reader(state, settings)
    }

    /** The listener knows the current settings, and so the filter they stand for. */
    ghost predicate Valid()
      reads this
    {
      settings == if notified == [] then initialSettings else notified[|notified| - 1]
    }

    // ----- commands

    method ProcessCommands(data: Bytes)
      requires Valid()
      modifies this`state, this`settings, this`notified
      ensures Valid()
      ensures Commander() == ReadBytes(old(Commander()), data)
      ensures notified == old(notified) + if GotCommand(old(Commander()), data) then [settings] else []
    {
      ghost var start := Commander();
      var gotACommand := false;
      for i := 0 to |data|
        invariant Commander() == ReadBytes(start, data[..i]) && notified == old(notified)
        invariant gotACommand <==> exists j | 0 <= j < i :: ReadBytes(start, data[..j]).state.ReadOption?
        invariant !gotACommand ==> settings == start.settings
      {
        assert data[..i + 1][..i] == data[..i];
        match state {
          case Find1A =>
            if data[i] == 0x1A {
              state := Read1;
            }
          case Read1 =>
            if data[i] == 0x31 {
              state := ReadOption;
            } else {
              state := Find1A;
            }
          case ReadOption =>
            settings := OptionCommand(settings, data[i]);
            gotACommand := true;
            state := Find1A;
        }
      }
      assert data[..|data|] == data && notified + [] == notified;
      if gotACommand {
        notified := notified + [settings];
      }
    }

    // ----- the buffer

    method PrepareWrite()
      modifies this`outbuf
      ensures outbuf == Some(Pending(old(Abstract())))
    {
      if outbuf.None? {
        outbuf := Some([]);
      }
    }

    method CompleteWrite()
      requires outbuf.Some?
      modifies this`flushPending, this`posted
      ensures var schedule := !old(flushPending) && outbuf.value != [];
        && flushPending == (old(flushPending) || schedule)
        && posted == old(posted) + if schedule then 1 else 0
    {
      if !flushPending && outbuf.value != [] {
        flushPending := true;
        posted := posted + 1;
      }
    }

    /** A posted call of flush_outbuf runs. */
    method FlushOutbuf()
      requires Enabled(Abstract(), Flush)
      modifies this`posted, this`outbuf, this`inFlight
      ensures Abstract() == Next(old(Abstract()), Flush)
    {
      posted := posted - 1;
      if outbuf.None? || outbuf.value == [] {
        return;
      }
      var writebuf := outbuf.value;
      outbuf := None;
      inFlight := inFlight + [writebuf];
    }

    /** The handler of an asynchronous write; the socket has taken n bytes of it. */
    method WriteDone(i: nat, n: nat, error: bool)
      requires Enabled(Abstract(), Complete(i, n, error))
      modifies this`delivered, this`inFlight, this`flushPending, this`outbuf, this`open, this`failed
      ensures Abstract() == Next(old(Abstract()), Complete(i, n, error))
    {
      delivered := delivered + inFlight[i][..n];
      inFlight := inFlight[..i] + inFlight[i + 1..];
      flushPending := false;
      if outbuf.None? {
        outbuf := Some([]);
      }
      if error {
        failed := true;
        CloseSocket();
      }
    }

    method CloseSocket()
      modifies this`open
      ensures Abstract() == Next(old(Abstract()), OutputBuffer.Close)
    {
      open := false;
    }

    // ----- messages

    method WriteBinary(f: Frame)
      modifies this`outbuf, this`flushPending, this`posted, this`written
      ensures Abstract() == Append(old(Abstract()), Encode(f))
    {
      hide Encode, Escape, TypeByte, TimestampBytes, Body;
      PrepareWrite();
      ghost var before := outbuf.value;
      EncodeParts(before, f);
      PushBack(0x1A);
      PushBack(TypeByte(f.kind));
      if !f.kind.Position? {
        PushBackAll(TimestampBytes(f.timestamp) + [f.signal]);
      }
      PushBackAll(f.data);
      written := written + Encode(f);
      CompleteWrite();
    }

    method PushBack(b: Byte)
      requires outbuf.Some?
      modifies this`outbuf
      ensures outbuf == Some(old(outbuf.value) + [b])
    {
      outbuf := Some(outbuf.value + [b]);
    }

    method PushBackBeast(b: Byte)
      requires outbuf.Some?
      modifies this`outbuf
      ensures outbuf == Some(old(outbuf.value) + Escaped(b))
    {
      ghost var before := outbuf.value;
      if b == 0x1A {
        PushBack(0x1A);
      }
      PushBack(b);
      assert before + [0x1A] + [0x1A] == before + [0x1A, 0x1A];
    }

    method PushBackAll(data: Bytes)
      requires outbuf.Some?
      modifies this`outbuf
      ensures outbuf == Some(old(outbuf.value) + Escape(data))
    {
      ghost var before := outbuf.value;
      assert before + Escape([]) == before;
      for i := 0 to |data|
        invariant outbuf == Some(before + Escape(data[..i]))
      {
        EscapeSnoc(data[..i], data[i]);
        assert data[..i + 1] == data[..i] + [data[i]];
        PushBackBeast(data[i]);
        assert before + Escape(data[..i]) + Escaped(data[i]) == before + (Escape(data[..i]) + Escaped(data[i]));
      }
      assert data[..|data|] == data;
    }

    method PushBackHex(data: Bytes)
      requires outbuf.Some?
      modifies this`outbuf
      ensures outbuf == Some(old(outbuf.value) + Hex(data))
    {
      ghost var before := outbuf.value;
      assert before + Hex([]) == before;
      for i := 0 to |data|
        invariant outbuf == Some(before + Hex(data[..i]))
      {
        var digits := HexByte(data[i]);
        assert data[..i + 1][..i] == data[..i];
        PushBack(digits[0]);
        PushBack(digits[1]);
        assert before + Hex(data[..i]) + [digits[0]] + [digits[1]] == before + (Hex(data[..i]) + digits);
      }
      assert data[..|data|] == data;
    }

    method WriteAvr(f: Frame)
      modifies this`outbuf, this`flushPending, this`posted, this`written
      ensures Abstract() == Append(old(Abstract()), Avr(f))
    {
      PrepareWrite();
      ghost var before := outbuf.value;
      PushBack(0x2A);
      PushBackHex(f.data);
      PushBack(0x3B);
      PushBack(0x0A);
      assert outbuf.value == before + Avr(f);
      written := written + Avr(f);
      CompleteWrite();
    }

    method WriteAvrmlat(f: Frame)
      modifies this`outbuf, this`flushPending, this`posted, this`written
      ensures Abstract() == Append(old(Abstract()), Avrmlat(f))
    {
      PrepareWrite();
      ghost var before := outbuf.value;
      PushBack(0x40);
      PushBackHex(TimestampBytes(f.timestamp) + f.data);
      PushBack(0x3B);
      PushBack(0x0A);
      assert outbuf.value == before + Avrmlat(f);
      written := written + Avrmlat(f);
      CompleteWrite();
    }

    method WriteMessage(f: Frame)
      modifies this`outbuf, this`flushPending, this`posted, this`written
      ensures var g := f.(timestamp := Rescale(settings, f.timestampType, f.timestamp));
        Abstract() == Appended(old(Abstract()), Printed(settings, g))
    {
      var timestamp := f.timestamp;
      if f.timestampType.TwelveMeg? && !settings.radarcape.Off? && settings.gpsTimestamps.On? {
        timestamp := ToGps(timestamp);
      } else if f.timestampType.Gps? && (settings.radarcape.Off? || settings.gpsTimestamps.Off?) {
        timestamp := ToTwelveMeg(timestamp);
      }
      var g := f.(timestamp := timestamp);
      if settings.BinaryFormat() {
        WriteBinary(g);
      } else if settings.Avrmlat() {
        if !f.kind.Status? && !f.kind.Position? {
          WriteAvrmlat(g);
        }
      } else {
        if !f.kind.Status? && !f.kind.Position? {
          WriteAvr(g);
        }
      }
    }

    /** The whole of write: what the buffer receives is the message as the client's settings want it. */
    method Write(message: Message, tables: SyndromeTables)
      requires message.Valid() && tables.Valid() && Writable(settings, message.frame)
      modifies this`outbuf, this`flushPending, this`posted, this`written, message, tables
      ensures message.Valid() && tables.Valid()
      ensures Abstract() ==
        if old(open) then Appended(old(Abstract()), Printed(settings, Sent(settings, message.frame)))
        else old(Abstract())
    {
      if !open {
        return;
      }
      hide SentData, Printed, Rescale, StatusData;
      var f := message.frame;
      var data;
      if f.kind.Status? {
        data := StatusForClient(f);
      } else {
        data := CorrectedForClient(message, tables);
      }
      WriteMessage(f.(data := data));
      SameBytes(settings, f);
    }

    method StatusForClient(f: Frame) returns (copy: Bytes)
      requires f.kind.Status?
      ensures Writable(settings, f) && copy == SentData(settings, f)
    {
      var upstream := FromStatusByte(f.data[0]);
      var used := Merge(settings, upstream);
      copy := f.data;
      copy := copy[0 := ToStatusByte(used)];
      if settings.gpsTimestamps.On? && !upstream.gpsTimestamps.On? {
        copy := copy[2 := Emulating(copy[2])];
      }
    }

    method CorrectedForClient(message: Message, tables: SyndromeTables) returns (data: Bytes)
      requires message.Valid() && tables.Valid() && Writable(settings, message.frame)
      requires !message.frame.kind.Status?
      modifies message, tables
      ensures message.Valid() && tables.Valid()
      ensures data == SentData(settings, message.frame)
    {
      hide CorrectableBit, Corrected, CrcBad;
      var needsFec := false;
      if !settings.Verbatim() && !settings.FecDisable() {
        needsFec := message.IsCrcCorrectable(tables);
      }
      data := message.frame.data;
      if needsFec {
        data := message.CorrectedData(tables);
      }
    }
  }

  /** The timestamp type of a message is not printed. */
  lemma SameBytes(s: Settings, f: Frame)
    requires Writable(s, f)
    ensures Printed(s, Sent(s, f)) ==
      Printed(s, f.(data := SentData(s, f), timestamp := Rescale(s, f.timestampType, f.timestamp)))
  {
    hide SentData, Rescale, Escape, Hex, TimestampBytes;
  }
}
