// One client connection as a whole: messages from the distributor, commands
// from the client, flushes and completed writes, in any order.
module Session {
  import opened BitStrings
  import opened Message
  import opened Filters
  import opened Settings
  import opened Commands
  import opened Deframer
  import opened Framing
  import opened OutputBuffer
  import opened Output
  import opened EndToEnd

  datatype Event =
    | Received(message: Frame)
    | Commanded(data: Bytes)
    | Buffered(event: OutputBuffer.Event)

  /** sent lists the messages that were printed, as the client sees them. */
  datatype Connection = Connection(reader: Reader, buffer: Buffer, sent: seq<Frame>)

  function Connect(s: Settings): Connection {
    Connection(Reader(Find1A, s), EMPTY, [])
  }

  /** A message gets to a client whose settings, at that moment, stand for a filter that accepts it. */
  ghost predicate Takes(c: Connection, m: Frame) {
    Accepts(ToFilter(c.reader.settings), m) && c.buffer.open
  }

  ghost predicate Enabled(c: Connection, e: Event) {
    match e
    case Received(m) => Carried(m) && (Takes(c, m) ==> Writable(c.reader.settings, m))
    case Commanded(_) => true
    case Buffered(b) => !b.Write? && OutputBuffer.Enabled(c.buffer, b)
  }

  ghost function Next(c: Connection, e: Event): Connection
    requires Enabled(c, e)
  {
    match e
    case Received(m) =>
      if !Takes(c, m) then c
      else
        var g := Sent(c.reader.settings, m);
        c.(buffer := Appended(c.buffer, Printed(c.reader.settings, g)), sent := c.sent + [g])
    case Commanded(data) => c.(reader := ReadBytes(c.reader, data))
    case Buffered(b) => c.(buffer := OutputBuffer.Next(c.buffer, b))
  }

  ghost predicate Possible(s: Settings, events: seq<Event>)
    decreases |events|, 0
  {
    events != [] ==>
      var n := |events| - 1;
      Possible(s, events[..n]) && Enabled(Run(s, events[..n]), events[n])
  }

  ghost function Run(s: Settings, events: seq<Event>): Connection
    requires Possible(s, events)
    decreases |events|, 1
  {
    if events == [] then Connect(s)
    else Next(Run(s, events[..|events| - 1]), events[|events| - 1])
  }

  /** Every message was printed in binary format, whatever the settings were in between. */
  ghost predicate AllBinary(s: Settings, events: seq<Event>)
    requires Possible(s, events)
  {
    events != [] ==>
      var n := |events| - 1;
      var c := Run(s, events[..n]);
      && AllBinary(s, events[..n])
      && (events[n].Received? && Takes(c, events[n].message) ==> c.reader.settings.BinaryFormat())
  }

  ghost predicate Inv(c: Connection) {
    && OutputBuffer.Inv(c.buffer)
    && (forall f :: f in c.sent ==> Carried(f))
    && c.buffer.written == EncodeAll(c.sent)
  }

  lemma {:induction false} EncodeAllSnoc(fs: seq<Frame>, f: Frame)
    ensures EncodeAll(fs + [f]) == EncodeAll(fs) + Encode(f)
    decreases |fs|
  {
    hide Encode;
    if fs == [] {
      assert [f][1..] == [];
      assert Encode(f) + EncodeAll([]) == Encode(f);
      assert [] + [f] == [f];
    } else {
      assert (fs + [f])[1..] == fs[1..] + [f];
      EncodeAllSnoc(fs[1..], f);
    }
  }

  lemma ReceivedKeepsInv(c: Connection, m: Frame)
    requires Inv(c) && Enabled(c, Received(m))
    requires Takes(c, m) ==> c.reader.settings.BinaryFormat()
    ensures Inv(Next(c, Received(m)))
  {
    hide OutputBuffer.Inv, Carried, Encode, EncodeAll, Accepts, Writable, Sent;
    if Takes(c, m) {
      var g := Sent(c.reader.settings, m);
      SentFits(c.reader.settings, m);
      AppendKeepsInv(c.buffer, Encode(g));
      EncodeAllSnoc(c.sent, g);
    }
  }

  lemma {:induction false} RunKeepsInv(s: Settings, events: seq<Event>)
    requires Possible(s, events) && AllBinary(s, events)
    ensures Inv(Run(s, events))
  {
    if events == [] {
      OutputBuffer.RunKeepsInv([]);
      OutputBuffer.RunEmpty();
    } else {
      var n := |events| - 1;
      var c := Run(s, events[..n]);
      RunKeepsInv(s, events[..n]);
      match events[n] {
        case Received(m) => ReceivedKeepsInv(c, m);
        case Commanded(_) =>
        case Buffered(b) => NextKeepsInv(c.buffer, b);
      }
    }
  }

  /**
   * Over every run of a connection - messages, commands that change its settings, flushes, completions with or
   * without errors, closing - in which messages are printed in binary: whatever has been delivered, the messages in
   * it are the first ones sent, each as the settings at its own time asked for.
   */
  lemma DeliveredIsSent(s: Settings, events: seq<Event>, p: Parser)
    requires Possible(s, events) && AllBinary(s, events) && p.state.Read1A?
    ensures Feed(p, Run(s, events).buffer.delivered).frames <= Raws(Run(s, events).sent)
  {
    var c := Run(s, events);
    RunKeepsInv(s, events);
    hide Run, Possible, AllBinary, Feed, EncodeAll, Carried;
    DeliveredPrefix(p, c.sent, c.buffer.delivered);
  }

  // ----- without commands

  function Messages(events: seq<Event>): seq<Frame> {
    if events == [] then []
    else
      var e := events[|events| - 1];
      Messages(events[..|events| - 1]) + if e.Received? then [e.message] else []
  }

  predicate NoCommands(events: seq<Event>) {
    forall i | 0 <= i < |events| :: !events[i].Commanded?
  }

  lemma {:induction false} StreamSnoc(s: Settings, fs: seq<Frame>, f: Frame)
    requires forall g :: g in fs + [f] ==> Carried(g) && Writable(s, g)
    requires forall g :: g in fs ==> Carried(g) && Writable(s, g)
    requires Carried(f) && Writable(s, f)
    ensures Stream(s, fs + [f]) == Stream(s, fs) + if Accepts(ToFilter(s), f) then [Sent(s, f)] else []
    decreases |fs|
  {
    hide Carried, Writable, Accepts, Sent;
    if fs == [] {
      assert [] + [f] == [f] && [f][1..] == [];
    } else {
      assert (fs + [f])[1..] == fs[1..] + [f];
      StreamSnoc(s, fs[1..], f);
    }
  }

  /** As long as the connection is open and no commands come, what is sent is the stream for its settings. */
  lemma {:induction false} SentIsStream(s: Settings, events: seq<Event>)
    requires Possible(s, events) && NoCommands(events) && Run(s, events).buffer.open
    requires forall f :: f in Messages(events) ==> Carried(f) && Writable(s, f)
    ensures Run(s, events).sent == Stream(s, Messages(events)) && Run(s, events).reader.settings == s
  {
    if events != [] {
      var n := |events| - 1;
      var c, fs := Run(s, events[..n]), Messages(events[..n]);
      OpenBefore(c, events[n]);
      hide Stream, Carried, Writable, Accepts, Sent, ToFilter, Printed;
      SentIsStream(s, events[..n]);
      if events[n].Received? {
        var f := events[n].message;
        assert f in Messages(events);
        StreamSnoc(s, fs, f);
      } else {
        assert fs + [] == fs;
      }
    }
  }

  /** A closed connection stays closed. */
  lemma OpenBefore(c: Connection, e: Event)
    requires Enabled(c, e) && Next(c, e).buffer.open
    ensures c.buffer.open
  {
    hide Sent, Printed, Accepts, Writable;
  }
}
