// The Beast binary format in both directions: SocketOutput::write_binary
// prints frames, BeastInput::dispatch_message decodes what the parser cut out.
module Framing {
  import opened BitStrings
  import opened Common
  import opened Message
  import opened Deframer
  import opened Settings

  /** messagetype_to_byte; position messages have no byte of their own. */
  function TypeByte(kind: MessageType): Byte {
    match kind
    case ModeAC => 0x31
    case ModeSShort => 0x32
    case ModeSLong => 0x33
    case Status => 0x34
    case _ => 0
  }

  /** push_back_beast for one byte. */
  function Escaped(b: Byte): Bytes {
    if b == 0x1A then [0x1A, 0x1A] else [b]
  }

  function Escape(body: Bytes): Bytes {
    if body == [] then [] else Escaped(body[0]) + Escape(body[1..])
  }

  function LowByte(n: nat): Byte {
    n % 0x100
  }

  /** The six low bytes of a timestamp, most significant first. */
  function TimestampBytes(t: nat): (r: Bytes)
    ensures |r| == 6
  {
    [LowByte(t / 0x100_0000_0000), LowByte(t / 0x1_0000_0000), LowByte(t / 0x100_0000),
     LowByte(t / 0x1_0000), LowByte(t / 0x100), LowByte(t)]
  }

  function Body(f: Frame): Bytes {
    if f.kind.Position? then f.data else TimestampBytes(f.timestamp) + [f.signal] + f.data
  }

  /** What write_binary appends. */
  function Encode(f: Frame): Bytes {
    [0x1A, TypeByte(f.kind)] + Escape(Body(f))
  }

  function EncodeAll(fs: seq<Frame>): Bytes {
    if fs == [] then [] else Encode(fs[0]) + EncodeAll(fs[1..])
  }

  /** The frames that the format can carry: not positions, and a timestamp of 48 bits. */
  predicate Carried(f: Frame) {
    !f.kind.Position? && !f.kind.Invalid? && f.timestamp < 0x1_0000_0000_0000
  }

  function RawOf(f: Frame): Raw {
    Raw(f.kind, TimestampBytes(f.timestamp) + [f.signal], f.data)
  }

  function Raws(fs: seq<Frame>): (r: seq<Raw>)
    ensures |r| == |fs|
    ensures forall i :: 0 <= i < |fs| ==> r[i] == RawOf(fs[i])
  {
    seq(|fs|, i requires 0 <= i < |fs| => RawOf(fs[i]))
  }

  // ----- decoding

  function DecodeTimestamp(m: Bytes): nat
    requires |m| == 7
  {
    (m[0] as int) * 0x100_0000_0000 + (m[1] as int) * 0x1_0000_0000 + (m[2] as int) * 0x100_0000
    + (m[3] as int) * 0x1_0000 + (m[4] as int) * 0x100 + m[5]
  }

  /**
   * The message that dispatch_message passes on. Position messages have their metadata glued to the data, which makes
   * that longer than the message constructor asserts.
   */
  function Decode(r: Raw, gps: bool): (f: RawFrame)
    requires WellFormed(r)
    ensures |f.data| == MessageSize(f.kind) <==> !r.kind.Position?
  {
    var timestampType := if gps then Gps else TwelveMeg;
    if r.kind.Position? then RawFrame(r.kind, timestampType, 0, 0, r.metadata + r.data)
    else RawFrame(r.kind, timestampType, DecodeTimestamp(r.metadata), r.metadata[6], r.data)
  }

  /** Whether timestamps are GPS ones after a message; status messages say so. */
  function GpsAfter(kind: MessageType, data: Bytes, gps: bool): bool
    requires |data| == MessageSize(kind)
  {
    if kind.Status? then FromStatusByte(data[0]).gpsTimestamps.On? else gps
  }

  predicate Decodable(rs: seq<Raw>) {
    forall i | 0 <= i < |rs| :: WellFormed(rs[i]) && !rs[i].kind.Position?
  }

  function DecodeAll(rs: seq<Raw>, gps: bool): seq<Frame>
    requires Decodable(rs)
  {
    if rs == [] then []
    else
      var now := GpsAfter(rs[0].kind, rs[0].data, gps);
      [Decode(rs[0], now)] + DecodeAll(rs[1..], now)
  }

  /** The same frames, with the timestamp types that the status messages among them announce. */
  function Announced(fs: seq<Frame>, gps: bool): seq<Frame> {
    if fs == [] then []
    else
      var now := GpsAfter(fs[0].kind, fs[0].data, gps);
      [fs[0].(timestampType := if now then Gps else TwelveMeg)] + Announced(fs[1..], now)
  }

  lemma TimestampRoundTrip(t: nat, signal: Byte)
    requires t < 0x1_0000_0000_0000
    ensures DecodeTimestamp(TimestampBytes(t) + [signal]) == t
  {
    var a, b, c, d, e := t / 0x100, t / 0x1_0000, t / 0x100_0000, t / 0x1_0000_0000, t / 0x100_0000_0000;
    assert b == a / 0x100 && c == b / 0x100 && d == c / 0x100 && e == d / 0x100;
    hide LowByte;
    LastByteOf(t);
    LastByteOf(a);
    LastByteOf(b);
    LastByteOf(c);
    LastByteOf(d);
    LastByteOf(e);
  }

  lemma LastByteOf(n: nat)
    ensures n == n / 0x100 * 0x100 + LowByte(n)
  {}

  lemma DecodeRaw(f: Frame, gps: bool)
    requires Carried(f)
    ensures WellFormed(RawOf(f)) && !RawOf(f).kind.Position?
    ensures Decode(RawOf(f), gps) == f.(timestampType := if gps then Gps else TwelveMeg)
  {
    hide DecodeTimestamp, TimestampBytes;
    TimestampRoundTrip(f.timestamp, f.signal);
  }

  lemma {:induction false} DecodeRaws(fs: seq<Frame>, gps: bool)
    requires forall f :: f in fs ==> Carried(f)
    ensures Decodable(Raws(fs))
    ensures DecodeAll(Raws(fs), gps) == Announced(fs, gps)
    decreases |fs|
  {
    if fs != [] {
      hide Decode, GpsAfter, TimestampBytes;
      var f, now := fs[0], GpsAfter(fs[0].kind, fs[0].data, gps);
      DecodeRaw(f, now);
      DecodeRaws(fs[1..], now);
      assert Raws(fs) == [RawOf(f)] + Raws(fs[1..]);
      DecodeCons(RawOf(f), Raws(fs[1..]), gps);
    }
  }

  lemma DecodeCons(r: Raw, rest: seq<Raw>, gps: bool)
    requires WellFormed(r) && !r.kind.Position? && Decodable(rest)
    ensures Decodable([r] + rest)
    ensures var now := GpsAfter(r.kind, r.data, gps);
      DecodeAll([r] + rest, gps) == [Decode(r, now)] + DecodeAll(rest, now)
  {
    assert ([r] + rest)[1..] == rest;
  }

  lemma {:induction false} ScaleIsProduct(n: nat, k: nat)
    ensures Scale(n, k) == n * Pow2(k)
  {
    if k > 0 { ScaleIsProduct(n, k - 1); }
  }

  /** One more byte at the end of a big-endian number. */
  lemma AppendedValue(m: Bytes, b: Byte)
    ensures FromBits(MessageBits(m + [b])) == 256 * FromBits(MessageBits(m)) + b
  {
    assert (m + [b])[..|m|] == m;
    FromBitsConcat(MessageBits(m), ByteBits(b));
    assert Pow2(8) == 256;
    FromTo(b, 8);
    hide FromBits, MessageBits, ToBits;
    ScaleIsProduct(FromBits(MessageBits(m)), 8);
  }

  /** A timestamp is the number written by the first 48 bits of the metadata, most significant bit first. */
  lemma TimestampIsBigEndian(m: Bytes)
    requires |m| == 7
    ensures DecodeTimestamp(m) == FromBits(MessageBits(m[..6]))
  {
    hide FromBits, MessageBits;
    EmptyValue(m[..0]);
    NextByte(m, 0);
    NextByte(m, 1);
    NextByte(m, 2);
    NextByte(m, 3);
    NextByte(m, 4);
    NextByte(m, 5);
  }

  lemma EmptyValue(m: Bytes)
    requires m == []
    ensures FromBits(MessageBits(m)) == 0
  {}

  lemma NextByte(m: Bytes, i: nat)
    requires i < |m|
    ensures FromBits(MessageBits(m[..i + 1])) == 256 * FromBits(MessageBits(m[..i])) + m[i]
  {
    assert m[..i + 1] == m[..i] + [m[i]];
    AppendedValue(m[..i], m[i]);
  }

  /** Position messages: printed without metadata and under no type, and dispatched with the metadata as data. */
  lemma PositionsAreSpecial(f: Frame, r: Raw, gps: bool)
    ensures f.kind.Position? ==> Encode(f) == [0x1A, 0] + Escape(f.data)
    ensures WellFormed(r) && r.kind.Position? ==>
      var g := Decode(r, gps);
      && |g.data| == 21 && g.data[..7] == r.metadata && g.data[7..] == r.data
      && g.timestamp == 0 && g.signal == 0
  {
    hide Escape;
  }

  // ----- passing messages on

  /** Whether the receiver type is known, whether it sends GPS timestamps, and what the notifier was called with. */
  datatype Dispatch = Dispatch(known: bool, gps: bool, notified: seq<RawFrame>)

  function DispatchOne(d: Dispatch, r: Raw): Dispatch
    requires WellFormed(r)
  {
    var known, gps := d.known || r.kind.Status?, GpsAfter(r.kind, r.data, d.gps);
    Dispatch(known, gps, d.notified + if known then [Decode(r, gps)] else [])
  }

  function DispatchAll(d: Dispatch, rs: seq<Raw>): Dispatch
    requires forall i | 0 <= i < |rs| :: WellFormed(rs[i])
    decreases |rs|
  {
    if rs == [] then d else DispatchAll(DispatchOne(d, rs[0]), rs[1..])
  }

  /** The part of BeastInput that passes complete messages on. */
  class Dispatcher {
    // the receiver type is known; whether a serial input has found its rate is not looked at here
    var receiverKnown: bool
    var receivingGps: bool
    // what the message notifier was called with
    var notified: seq<RawFrame>

    function Abstract(): Dispatch
      reads this
    {
      Dispatch(receiverKnown, receivingGps, notified)
    }

    constructor (receiverKnown: bool)
      ensures Abstract() == Dispatch(receiverKnown, false, [])
    {
      this.receiverKnown, receivingGps, notified := receiverKnown, false, [];
    }

    method DispatchMessage(r: Raw)
      requires WellFormed(r)
      modifies this
      ensures Abstract() == DispatchOne(old(Abstract()), r)
    {
      if r.kind.Status? {
        receivingGps := FromStatusByte(r.data[0]).gpsTimestamps.On?;
        receiverKnown := true;
      }
      if !receiverKnown {
        return;
      }
      var timestamp, signal, data := 0, 0, r.data;
      if r.kind.Position? {
        data := r.metadata + data;
      } else {
        timestamp := DecodeTimestamp(r.metadata);
        signal := r.metadata[6];
      }
      notified := notified + [RawFrame(r.kind, if receivingGps then Gps else TwelveMeg, timestamp, signal, data)];
    }
  }

  /** Once the receiver type is known, everything is passed on. */
  lemma {:induction false} DispatchKnown(d: Dispatch, rs: seq<Raw>)
    requires d.known && Decodable(rs)
    ensures DispatchAll(d, rs).known && DispatchAll(d, rs).notified == d.notified + DecodeAll(rs, d.gps)
    decreases |rs|
  {
    if rs != [] {
      hide Decode, GpsAfter;
      var now := GpsAfter(rs[0].kind, rs[0].data, d.gps);
      DispatchKnown(DispatchOne(d, rs[0]), rs[1..]);
      assert d.notified + [Decode(rs[0], now)] + DecodeAll(rs[1..], now)
          == d.notified + ([Decode(rs[0], now)] + DecodeAll(rs[1..], now));
    } else {
      assert d.notified + [] == d.notified;
    }
  }

  function FromFirstStatus(fs: seq<Frame>): seq<Frame> {
    if fs == [] || fs[0].kind.Status? then fs else FromFirstStatus(fs[1..])
  }

  /**
   * While the receiver type is unknown, nothing is passed on until the first status message, and everything from it
   * on, with the right timestamp types whatever was believed before.
   */
  lemma {:induction false} DispatchUnknown(d: Dispatch, fs: seq<Frame>, gps: bool)
    requires !d.known && Announced(fs, gps) == fs && forall f :: f in fs ==> Carried(f)
    ensures Decodable(Raws(fs))
    ensures DispatchAll(d, Raws(fs)).notified == d.notified + FromFirstStatus(fs)
    decreases |fs|
  {
    DecodeRaws(fs, d.gps);
    if fs == [] {
      assert d.notified + [] == d.notified;
    } else {
      hide Decode, FromStatusByte, Carried, RawOf, TimestampBytes, DecodeAll;
      var f, rest, now := fs[0], fs[1..], GpsAfter(fs[0].kind, fs[0].data, gps);
      assert Announced(fs, gps)[0] == f && Announced(fs, gps)[1..] == Announced(rest, now);
      RawsFirst(fs);
      if f.kind.Status? {
        AnnouncedByFirst(fs, gps, d.gps);
        FirstMakesKnown(d, Raws(fs));
      } else {
        var e := DispatchOne(d, Raws(fs)[0]);
        assert e.notified == d.notified + [] == d.notified;
        DispatchUnknown(e, rest, now);
      }
    }
  }

  lemma RawsFirst(fs: seq<Frame>)
    requires fs != []
    ensures Raws(fs)[0].kind == fs[0].kind && Raws(fs)[0].data == fs[0].data && Raws(fs)[1..] == Raws(fs[1..])
  {}

  /** A status message announces the same whatever was believed before. */
  lemma AnnouncedByFirst(fs: seq<Frame>, gps: bool, believed: bool)
    requires fs != [] && fs[0].kind.Status?
    ensures Announced(fs, gps) == Announced(fs, believed)
  {}

  lemma FirstMakesKnown(d: Dispatch, rs: seq<Raw>)
    requires Decodable(rs) && rs != [] && rs[0].kind.Status?
    ensures DispatchAll(d, rs).notified == d.notified + DecodeAll(rs, d.gps)
  {
    hide Decode, FromStatusByte;
    var k := d.(known := true);
    DispatchKnown(k, rs);
    assert DispatchOne(d, rs[0]) == DispatchOne(k, rs[0]);
  }

  // ----- feeding printed frames to the parser

  /** The parser after a complete message. */
  function Completed(kind: MessageType, content: Bytes, goodMessages: nat): Output
    requires |content| >= 7
  {
    Output(Parser(Read1A, kind, content[..7], content[7..], true, goodMessages + 1),
           [Raw(kind, content[..7], content[7..])])
  }

  lemma FeedTwo(p: Parser, a: Byte, b: Byte, rest: Bytes)
    ensures var o := Step(p, a);
      var o' := Step(o.parser, b);
      var last := Feed(o'.parser, rest);
      Feed(p, [a, b] + rest) == Output(last.parser, o.frames + o'.frames + last.frames)
  {
    assert ([a, b] + rest)[1..] == [b] + rest && ([b] + rest)[1..] == rest;
    assert [a, b] + rest != [] && [b] + rest != [];
  }

  lemma FeedOne(p: Parser, b: Byte, rest: Bytes)
    ensures var o := Step(p, b);
      var last := Feed(o.parser, rest);
      Feed(p, [b] + rest) == Output(last.parser, o.frames + last.frames)
  {
    assert ([b] + rest)[1..] == rest && [b] + rest != [];
  }

  /** In the middle of a message, an escaped byte stores the byte. */
  lemma FeedEscaped(p: Parser, b: Byte, rest: Bytes)
    requires p.state.ReadData?
    ensures var o := Store(p, b);
      var last := Feed(o.parser, rest);
      Feed(p, Escaped(b) + rest) == Output(last.parser, o.frames + last.frames)
  {
    hide Feed;
    if b == 0x1A {
      FeedTwo(p, b, b, rest);
    } else {
      FeedOne(p, b, rest);
    }
  }

  lemma {:induction false} FeedBody(p: Parser, body: Bytes)
    requires ValidParser(p) && p.state.ReadData?
    requires |p.metadata + p.data + body| == 7 + MessageSize(p.kind)
    ensures Feed(p, Escape(body)) == Completed(p.kind, p.metadata + p.data + body, p.goodMessages)
    decreases |body|
  {
    hide Feed;
    var q := Stored(p, body[0]);
    var rest := body[1..];
    FeedEscaped(p, body[0], Escape(rest));
    assert q.metadata + q.data + rest == p.metadata + p.data + body;
    if rest != [] {
      FeedBody(q, rest);
      assert [] + Feed(q, Escape(rest)).frames == Feed(q, Escape(rest)).frames;
    } else {
      FeedNothing(Store(p, body[0]).parser);
      var content := p.metadata + p.data + body;
      assert content[..7] == q.metadata && content[7..] == q.data;
    }
  }

  lemma FeedNothing(p: Parser)
    ensures Feed(p, []) == Output(p, [])
  {}

  lemma BodyParts(f: Frame)
    requires Carried(f)
    ensures var m := TimestampBytes(f.timestamp) + [f.signal];
      Body(f) == m + f.data && |m| == 7 && Body(f)[..7] == m && Body(f)[7..] == f.data
  {
    hide TimestampBytes;
  }

  /** A parser in READ_1A about to read the content of a message of the given type. */
  function Opened(p: Parser, kind: MessageType): Parser {
    Parser(ReadData, kind, [], [], p.goodSync, p.goodMessages)
  }

  lemma FeedOpening(p: Parser, b: Byte, rest: Bytes)
    requires p.state.Read1A? && !KindFromByte(b).Invalid?
    ensures Feed(p, [0x1A, b] + rest) == Feed(Opened(p, KindFromByte(b)), rest)
  {
    hide Feed, KindFromByte;
    FeedTwo(p, 0x1A, b, rest);
    var last := Feed(Opened(p, KindFromByte(b)), rest);
    assert [] + [] + last.frames == last.frames;
  }

  lemma FeedFrame(p: Parser, f: Frame)
    requires p.state.Read1A? && Carried(f)
    ensures Feed(p, Encode(f)) == Completed(f.kind, Body(f), p.goodMessages)
    ensures Completed(f.kind, Body(f), p.goodMessages).frames == [RawOf(f)]
  {
    BodyParts(f);
    assert KindFromByte(TypeByte(f.kind)) == f.kind;
    hide Feed, Body, TimestampBytes, Escape, KindFromByte, TypeByte;
    FeedOpening(p, TypeByte(f.kind), Escape(Body(f)));
    assert [] + [] + Body(f) == Body(f);
    FeedBody(Opened(p, f.kind), Body(f));
  }

  /** From READ_1A, whatever the parser did before, printed frames come out as they went in. */
  lemma {:induction false} FeedAll(p: Parser, fs: seq<Frame>)
    requires p.state.Read1A? && forall f :: f in fs ==> Carried(f)
    ensures var o := Feed(p, EncodeAll(fs));
      && o.frames == Raws(fs)
      && o.parser.state.Read1A?
      && o.parser.goodSync == (p.goodSync || fs != [])
      && o.parser.goodMessages == p.goodMessages + |fs|
    decreases |fs|
  {
    hide Feed, Encode, Body;
    if fs == [] {
      FeedNothing(p);
    } else {
      FeedFrame(p, fs[0]);
      FeedConcat(p, Encode(fs[0]), EncodeAll(fs[1..]));
      FeedAll(Feed(p, Encode(fs[0])).parser, fs[1..]);
      assert Raws(fs) == [RawOf(fs[0])] + Raws(fs[1..]);
    }
  }

  /** Printing any frames and deframing the bytes, cut into reads in any way, gives back those frames. */
  lemma FramingRoundTrip(p: Parser, fs: seq<Frame>, chunks: seq<Bytes>, gps: bool)
    requires p.state.Read1A? && forall f :: f in fs ==> Carried(f)
    requires Flatten(chunks) == EncodeAll(fs)
    ensures var o := FeedChunks(p, chunks);
      && Decodable(o.frames)
      && DecodeAll(o.frames, gps) == Announced(fs, gps)
      && o.parser.state.Read1A?
      && o.parser.goodSync == (p.goodSync || fs != [])
      && o.parser.goodMessages == p.goodMessages + |fs|
  {
    hide Feed, DecodeAll, Announced;
    ChunksDoNotMatter(p, chunks);
    FeedAll(p, fs);
    DecodeRaws(fs, gps);
  }

  // ----- resynchronisation

  /** Not in a message, and not in sync. */
  predicate Hunting(p: Parser) {
    (p.state.Resync? || p.state.Read1A?) && !p.goodSync && p.goodMessages == 0
  }

  /** A hunt that has found nothing: ready for a frame exactly if the last byte was not 0x1A. */
  predicate HuntedTo(o: Output, last: Byte) {
    o.frames == [] && Hunting(o.parser) && (o.parser.state.Read1A? <==> last != 0x1A)
  }

  lemma HuntEscaped(p: Parser, b: Byte, rest: Bytes) returns (q: Parser)
    requires Hunting(p) || p.state.Read1A?
    ensures HuntedTo(Output(q, []), b)
    ensures Feed(p, Escaped(b) + rest) == Feed(q, rest)
  {
    hide Feed;
    if b == 0x1A {
      FeedTwo(p, b, b, rest);
      q := Step(Step(p, b).parser, b).parser;
    } else {
      FeedOne(p, b, rest);
      q := Step(p, b).parser;
    }
    var last := Feed(q, rest);
    assert [] + [] + last.frames == last.frames && [] + last.frames == last.frames;
  }

  /** A hunt never takes anything inside a message body for the start of a frame. */
  lemma {:induction false} HuntBody(p: Parser, body: Bytes)
    requires (Hunting(p) || p.state.Read1A?) && body != []
    ensures HuntedTo(Feed(p, Escape(body)), body[|body| - 1])
    decreases |body|
  {
    var q := HuntEscaped(p, body[0], Escape(body[1..]));
    if |body| > 1 {
      HuntBody(q, body[1..]);
    }
  }

  /** Nor when it starts anywhere in the body, even between the halves of an escape. */
  lemma {:induction false} HuntFromWithin(p: Parser, body: Bytes, k: nat)
    requires p.state.Resync? && Hunting(p) && k < |Escape(body)|
    ensures HuntedTo(Feed(p, Escape(body)[k..]), body[|body| - 1])
    decreases |body|
  {
    var first, rest := Escaped(body[0]), Escape(body[1..]);
    if k == 0 {
      assert Escape(body)[k..] == Escape(body);
      HuntBody(p, body);
    } else if k < |first| {
      assert Escape(body)[k..] == [0x1A] + rest;
      FeedOne(p, 0x1A, rest);
      if |body| > 1 {
        HuntBody(p, body[1..]);
      }
    } else {
      assert Escape(body)[k..] == rest[k - |first|..];
      HuntFromWithin(p, body[1..], k - |first|);
    }
  }

  /** The last byte of a printed frame. */
  function LastByte(f: Frame): Byte
    requires Carried(f)
  {
    f.data[|f.data| - 1]
  }

  lemma {:induction false} EscapeLast(body: Bytes)
    requires body != []
    ensures var e := Escape(body); |e| >= |body| && e[|e| - 1] == body[|body| - 1]
    decreases |body|
  {
    if |body| > 1 { EscapeLast(body[1..]); }
  }

  /** In RESYNC, the rest of a printed frame is skipped, wherever in the frame it starts. */
  lemma HuntFrame(p: Parser, f: Frame, k: nat)
    requires p.state.Resync? && Hunting(p) && Carried(f) && k < |Encode(f)|
    ensures HuntedTo(Feed(p, Encode(f)[k..]), LastByte(f))
  {
    hide Feed, TimestampBytes;
    var body := Body(f);
    var e := Escape(body);
    assert body[|body| - 1] == LastByte(f);
    if k >= 2 {
      assert Encode(f)[k..] == e[k - 2..];
      HuntFromWithin(p, body, k - 2);
    } else {
      var q := p.(state := Read1A);
      HuntBody(q, body);
      var last := Feed(q, e);
      assert [] + [] + last.frames == last.frames && [] + last.frames == last.frames;
      if k == 1 {
        assert Encode(f)[k..] == [TypeByte(f.kind)] + e;
        FeedOne(p, TypeByte(f.kind), e);
      } else {
        assert Encode(f)[k..] == Encode(f);
        FeedTwo(p, 0x1A, TypeByte(f.kind), e);
      }
    }
  }

  /** What can be said of a stream of frames from which the first j are lost. */
  predicate Recovered(o: Output, fs: seq<Frame>, j: nat)
    requires j <= |fs|
  {
    && o.frames == Raws(fs[j..])
    && o.parser.goodMessages == |fs| - j
    && o.parser.goodSync == (j < |fs|)
    && (j < |fs| ==> o.parser.state.Read1A?)
  }

  /** Whether a hunt with parser p is ready when frame i of fs starts, if it has not locked on before. */
  predicate Ready(p: Parser, fs: seq<Frame>, i: nat)
    requires i < |fs| && forall f :: f in fs ==> Carried(f)
  {
    if i == 0 then p.state.Read1A? else LastByte(fs[i - 1]) != 0x1A
  }

  lemma {:induction false} HuntAll(p: Parser, fs: seq<Frame>, j: nat)
    requires Hunting(p) && j <= |fs| && forall f :: f in fs ==> Carried(f)
    requires forall i :: 0 <= i < j ==> !Ready(p, fs, i)
    requires j < |fs| ==> Ready(p, fs, j)
    ensures Recovered(Feed(p, EncodeAll(fs)), fs, j)
    decreases |fs|
  {
    hide Feed, Encode;
    if fs == [] {
      FeedNothing(p);
    } else if j == 0 {
      assert fs[0..] == fs;
      FeedAll(p, fs);
    } else {
      assert !Ready(p, fs, 0);
      EncodeNonempty(fs[0]);
      assert Encode(fs[0])[0..] == Encode(fs[0]);
      HuntFrame(p, fs[0], 0);
      var q := Feed(p, Encode(fs[0])).parser;
      FeedConcat(p, Encode(fs[0]), EncodeAll(fs[1..]));
      assert forall i :: 0 <= i < |fs| - 1 ==> Ready(q, fs[1..], i) == Ready(p, fs, i + 1);
      HuntAll(q, fs[1..], j - 1);
      assert fs[1..][j - 1..] == fs[j..];
    }
  }

  lemma EncodeNonempty(f: Frame)
    ensures |Encode(f)| >= 2
  {}

  /** Where frame i starts in the printed stream. */
  function Start(fs: seq<Frame>, i: nat): nat
    requires i <= |fs|
  {
    |EncodeAll(fs[..i])|
  }

  /** Frame i starts after position k, and the byte before it is not 0x1A. */
  predicate Lockable(fs: seq<Frame>, k: nat, i: nat)
    requires i < |fs|
  {
    k < Start(fs, i) <= |EncodeAll(fs)| && EncodeAll(fs)[Start(fs, i) - 1] != 0x1A
  }

  lemma StartShift(fs: seq<Frame>, i: nat)
    requires 0 < i <= |fs|
    ensures Start(fs, i) == |Encode(fs[0])| + Start(fs[1..], i - 1)
  {
    assert fs[..i][1..] == fs[1..][..i - 1];
  }

  lemma {:induction false} StartInStream(fs: seq<Frame>, i: nat)
    requires i <= |fs|
    ensures Start(fs, i) <= |EncodeAll(fs)|
    decreases |fs|
  {
    if i > 0 {
      StartShift(fs, i);
      StartInStream(fs[1..], i - 1);
    }
  }

  lemma {:induction false} ByteBeforeStart(fs: seq<Frame>, i: nat)
    requires 0 < i <= |fs| && forall f :: f in fs ==> Carried(f)
    ensures 0 < Start(fs, i) <= |EncodeAll(fs)|
    ensures EncodeAll(fs)[Start(fs, i) - 1] == LastByte(fs[i - 1])
    decreases |fs|
  {
    hide TimestampBytes;
    StartShift(fs, i);
    if i == 1 {
      var f := fs[0];
      assert fs[1..][..0] == [];
      EscapeLast(Body(f));
      assert Body(f)[|Body(f)| - 1] == LastByte(f);
    } else {
      ByteBeforeStart(fs[1..], i - 1);
    }
  }

  lemma LockableShift(fs: seq<Frame>, k: nat, i: nat)
    requires fs != [] && |Encode(fs[0])| <= k && i < |fs| - 1
    ensures Lockable(fs, k, i + 1) == Lockable(fs[1..], k - |Encode(fs[0])|, i)
  {
    hide Encode;
    StartShift(fs, i + 1);
    StartInStream(fs[1..], i);
    var n, s, e := |Encode(fs[0])|, Start(fs[1..], i), EncodeAll(fs[1..]);
    assert EncodeAll(fs) == Encode(fs[0]) + e;
    assert Start(fs, i + 1) == n + s;
    hide EncodeAll, Start;
  }

  /** From RESYNC at any byte of a printed stream: no false frame, and everything from the first lockable frame on. */
  lemma {:induction false} ResyncIsExact(p: Parser, fs: seq<Frame>, k: nat, j: nat)
    requires ValidParser(p) && p.state.Resync?
    requires k <= |EncodeAll(fs)| && j <= |fs| && forall f :: f in fs ==> Carried(f)
    requires forall i | 0 <= i < j :: !Lockable(fs, k, i)
    requires j < |fs| ==> Lockable(fs, k, j)
    ensures Recovered(Feed(p, EncodeAll(fs)[k..]), fs, j)
    decreases |fs|
  {
    hide Feed, Encode, Lockable;
    if fs == [] {
      FeedNothing(p);
    } else {
      NotTheFirst(fs, k, j);
      var n, rest := |Encode(fs[0])|, fs[1..];
      assert fs[j..] == rest[j - 1..];
      if k < n {
        ResyncInFirst(p, fs, k, j);
      } else {
        var d := k - n;
        assert EncodeAll(fs)[k..] == EncodeAll(rest)[d..];
        forall i | 0 <= i < |rest| ensures Lockable(fs, k, i + 1) == Lockable(rest, d, i) {
          LockableShift(fs, k, i);
        }
        ResyncIsExact(p, rest, d, j - 1);
      }
    }
  }

  /** A hunt that starts in a frame cannot recover that frame. */
  lemma NotTheFirst(fs: seq<Frame>, k: nat, j: nat)
    requires fs != [] && j <= |fs|
    requires j < |fs| ==> Lockable(fs, k, j)
    ensures j > 0
  {
    assert Start(fs, 0) == 0;
  }

  lemma ResyncInFirst(p: Parser, fs: seq<Frame>, k: nat, j: nat)
    requires ValidParser(p) && p.state.Resync? && fs != []
    requires k < |Encode(fs[0])| && 0 < j <= |fs| && forall f :: f in fs ==> Carried(f)
    requires forall i | 0 <= i < j :: !Lockable(fs, k, i)
    requires j < |fs| ==> Lockable(fs, k, j)
    ensures k <= |EncodeAll(fs)| && Recovered(Feed(p, EncodeAll(fs)[k..]), fs, j)
  {
    hide Feed, Encode, Lockable, Ready;
    var first, rest := Encode(fs[0]), fs[1..];
    assert EncodeAll(fs)[k..] == first[k..] + EncodeAll(rest);
    hide EncodeAll, Carried, LastByte;
    HuntFrame(p, fs[0], k);
    FeedConcat(p, first[k..], EncodeAll(rest));
    var q := Feed(p, first[k..]).parser;
    forall i | 0 <= i < |rest| ensures Ready(q, rest, i) == Lockable(fs, k, i + 1) {
      ReadyIsLockable(q, fs, k, i);
    }
    HuntAll(q, rest, j - 1);
    assert rest[j - 1..] == fs[j..];
  }

  lemma ReadyIsLockable(q: Parser, fs: seq<Frame>, k: nat, i: nat)
    requires i + 1 < |fs| && k < |Encode(fs[0])| && forall f :: f in fs ==> Carried(f)
    requires q.state.Read1A? <==> LastByte(fs[0]) != 0x1A
    ensures Ready(q, fs[1..], i) == Lockable(fs, k, i + 1)
  {
    hide Encode;
    ByteBeforeStart(fs, i + 1);
    StartShift(fs, i + 1);
  }

  /** The same for any way of cutting the stream into reads. */
  lemma ResyncIsExactInChunks(p: Parser, fs: seq<Frame>, k: nat, j: nat, chunks: seq<Bytes>)
    requires ValidParser(p) && p.state.Resync?
    requires k <= |EncodeAll(fs)| && j <= |fs| && forall f :: f in fs ==> Carried(f)
    requires forall i | 0 <= i < j :: !Lockable(fs, k, i)
    requires j < |fs| ==> Lockable(fs, k, j)
    requires Flatten(chunks) == EncodeAll(fs)[k..]
    ensures Recovered(FeedChunks(p, chunks), fs, j)
  {
    ResyncIsExact(p, fs, k, j);
    ChunksDoNotMatter(p, chunks);
  }

  lemma {:induction false} EscapeConcat(a: Bytes, b: Bytes)
    ensures Escape(a + b) == Escape(a) + Escape(b)
    decreases |a|
  {
    if a == [] {
      assert a + b == b;
    } else {
      assert (a + b)[1..] == a[1..] + b;
      EscapeConcat(a[1..], b);
    }
  }
}
