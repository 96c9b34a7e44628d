// beast_output.cc: the buffer and the flush_pending flag between the writers
// of a SocketOutput, the flushes it posts and its asynchronous writes.
module OutputBuffer {
  import opened BitStrings
  import opened Common

  datatype Buffer = Buffer(
    open: bool,
    outbuf: Option<Bytes>,
    flushPending: bool,
    // calls of flush_outbuf that were posted and have not run
    posted: nat,
    // asynchronous writes that have not completed
    inFlight: seq<Bytes>,
    // what the peer was sent, and what the writers have appended, since the beginning
    delivered: Bytes,
    written: Bytes,
    // an asynchronous write has failed
    failed: bool)

  const EMPTY: Buffer := Buffer(true, None, false, 0, [], [], [], false)

  datatype Event =
    | Write(bytes: Bytes)
    | Flush
    // the i-th outstanding write ends after n bytes
    | Complete(i: nat, n: nat, error: bool)
    | Close

  function Pending(b: Buffer): Bytes {
    if b.outbuf.None? then [] else b.outbuf.value
  }

  /** prepare_write, some appended bytes, and complete_write. */
  function Append(b: Buffer, bytes: Bytes): Buffer {
    var c := b.(outbuf := Some(Pending(b) + bytes), written := b.written + bytes);
    if !c.flushPending && c.outbuf.value != [] then c.(flushPending := true, posted := c.posted + 1) else c
  }

  predicate Enabled(b: Buffer, e: Event) {
    match e
    case Flush => b.posted > 0
    case Complete(i, n, error) => i < |b.inFlight| && n <= |b.inFlight[i]| && (!error ==> n == |b.inFlight[i]|)
    case _ => true
  }

  function Next(b: Buffer, e: Event): Buffer
    requires Enabled(b, e)
  {
    match e
    case Write(bytes) => if b.open then Append(b, bytes) else b
    case Flush =>
      var c := b.(posted := b.posted - 1);
      if Pending(b) == [] then c else c.(outbuf := None, inFlight := b.inFlight + [b.outbuf.value])
    case Complete(i, n, error) =>
      b.(flushPending := false,
         outbuf := Some(Pending(b)),
         inFlight := b.inFlight[..i] + b.inFlight[i + 1..],
         delivered := b.delivered + b.inFlight[i][..n],
         open := b.open && !error,
         failed := b.failed || error)
    case Close => b.(open := false)
  }

  ghost predicate Inv(b: Buffer) {
    && b.posted + |b.inFlight| == (if b.flushPending then 1 else 0)
    && (b.posted > 0 ==> Pending(b) != [])
    && b.delivered <= b.written
    && if b.failed then !b.open && !b.flushPending
       else b.delivered + Flatten(b.inFlight) + Pending(b) == b.written
  }

  lemma FlattenOne(x: Bytes)
    ensures Flatten([x]) == x && Flatten([]) == []
  {
    assert [x][..0] == [];
  }

  lemma AppendKeepsInv(b: Buffer, bytes: Bytes)
    requires Inv(b) && b.open
    ensures Inv(Append(b, bytes))
  {
    hide Flatten;
    assert b.delivered + Flatten(b.inFlight) + Pending(b) + bytes
        == b.delivered + Flatten(b.inFlight) + (Pending(b) + bytes);
  }

  lemma NextKeepsInv(b: Buffer, e: Event)
    requires Inv(b) && Enabled(b, e)
    ensures Inv(Next(b, e))
  {
    hide Flatten, Append;
    match e {
      case Write(bytes) => if b.open { AppendKeepsInv(b, bytes); }
      case Flush =>
        FlattenOne(Pending(b));
        assert b.inFlight == [] && b.inFlight + [Pending(b)] == [Pending(b)];
        assert b.delivered + [] + Pending(b) == b.delivered + Pending(b) + [];
      case Complete(i, n, error) =>
        var x := b.inFlight[0];
        assert b.inFlight == [x];
        FlattenOne(x);
        assert b.delivered + x + Pending(b) == b.delivered + (x + Pending(b));
        assert b.delivered + x[..n] <= b.delivered + x + Pending(b);
        assert b.delivered + x + [] + Pending(b) == b.delivered + x + Pending(b);
      case Close =>
    }
  }

  // ----- whole runs

  predicate Possible(events: seq<Event>)
    decreases |events|, 0
  {
    events != [] ==>
      var n := |events| - 1;
      Possible(events[..n]) && Enabled(Run(events[..n]), events[n])
  }

  function Run(events: seq<Event>): Buffer
    requires Possible(events)
    decreases |events|, 1
  {
    if events == [] then EMPTY
    else Next(Run(events[..|events| - 1]), events[|events| - 1])
  }

  /**
   * Over every interleaving of writes, flushes, completions and closing: at most one asynchronous write is
   * outstanding, what was delivered is a prefix of what was written, and until a write fails nothing is lost,
   * repeated or reordered between the writers, the buffer and the socket.
   */
  lemma {:induction false} RunKeepsInv(events: seq<Event>)
    requires Possible(events)
    ensures Inv(Run(events))
  {
    if events != [] {
      RunKeepsInv(events[..|events| - 1]);
      NextKeepsInv(Run(events[..|events| - 1]), events[|events| - 1]);
    } else {
      assert Flatten([]) == [];
    }
  }

  /** A posted flush always finds something to write. */
  lemma PostedFlushWrites(events: seq<Event>)
    requires Possible(events) && Enabled(Run(events), Flush)
    ensures Next(Run(events), Flush).inFlight == [Pending(Run(events))] && Pending(Run(events)) != []
  {
    hide Run, Possible;
    RunKeepsInv(events);
  }

  /** The first write after a completion sends everything that has accumulated. */
  lemma NextWriteFlushes(events: seq<Event>, bytes: Bytes)
    requires Possible(events) && Run(events).open && !Run(events).flushPending && bytes != []
    ensures var b := Run(events);
      var c := Next(b, Write(bytes));
      && Enabled(c, Flush)
      && Next(c, Flush).outbuf == None
      && |Next(c, Flush).inFlight| == 1
      && b.delivered + Next(c, Flush).inFlight[0] == b.written + bytes
  {
    hide Run, Possible;
    RunKeepsInv(events);
    assert Flatten([]) == [];
    var b := Run(events);
    assert b.delivered + [] + Pending(b) + bytes == b.delivered + (Pending(b) + bytes);
  }

  lemma ClosedWritesNothing(b: Buffer, e: Event)
    requires Enabled(b, e) && !b.open
    ensures !Next(b, e).open && Next(b, e).written == b.written
  {}

  /** After closing, or a failed write, nothing is written any more. */
  lemma {:induction false} NothingAfterClose(events: seq<Event>, later: seq<Event>)
    requires Possible(events) && Possible(events + later) && !Run(events).open
    ensures !Run(events + later).open && Run(events + later).written == Run(events).written
  {
    if later == [] {
      assert events + later == events;
    } else {
      var n := |later| - 1;
      assert (events + later)[..|events + later| - 1] == events + later[..n];
      NothingAfterClose(events, later[..n]);
      var b, e := Run(events + later[..n]), later[n];
      assert (events + later)[|events + later| - 1] == e;
      hide Run, Possible;
      ClosedWritesNothing(b, e);
    }
  }

  // ----- what a completion leaves behind

  /** The bytes accepted since the last flush. */
  function SinceFlush(events: seq<Event>): Bytes
    requires Possible(events)
  {
    if events == [] then []
    else
      var before := events[..|events| - 1];
      match events[|events| - 1]
      case Flush => []
      case Write(bytes) => if Run(before).open then SinceFlush(before) + bytes else SinceFlush(before)
      case _ => SinceFlush(before)
  }

  lemma {:induction false} PendingIsSinceFlush(events: seq<Event>)
    requires Possible(events)
    ensures Pending(Run(events)) == SinceFlush(events)
  {
    if events != [] {
      PendingIsSinceFlush(events[..|events| - 1]);
    }
  }

  /**
   * A completion does not flush what accumulated meanwhile. So when nothing is posted or outstanding, everything
   * written has been delivered if and only if nothing was written between the last flush and its completion.
   */
  lemma IdleDelivery(events: seq<Event>)
    requires Possible(events) && !Run(events).failed && !Run(events).flushPending
    ensures Run(events).delivered == Run(events).written <==> SinceFlush(events) == []
  {
    RunKeepsInv(events);
    PendingIsSinceFlush(events);
    assert Flatten([]) == [];
    hide Run, Possible, SinceFlush;
    var b := Run(events);
    assert b.delivered + [] + Pending(b) == b.delivered + Pending(b);
  }

  /** And such a write does get stuck. */
  lemma LateWriteWaits(x: Bytes, y: Bytes)
    requires x != [] && y != []
    ensures var events := [Write(x), Flush, Write(y), Complete(0, |x|, false)];
      Possible(events) && Run(events) == Buffer(true, Some(y), false, 0, [], x, x + y, false)
  {
    WriteDuringWrite(x, y);
    hide Run, Possible, Next, Enabled;
    RunEmpty();
    var e1, e2, e3 := [Write(x)], [Write(x), Flush], [Write(x), Flush, Write(y)];
    assert [] + [Write(x)] == e1 && e1 + [Flush] == e2 && e2 + [Write(y)] == e3;
    RunSnoc([], Write(x));
    RunSnoc(e1, Flush);
    RunSnoc(e2, Write(y));
    RunSnoc(e3, Complete(0, |x|, false));
    assert e3 + [Complete(0, |x|, false)] == [Write(x), Flush, Write(y), Complete(0, |x|, false)];
  }

  lemma WriteDuringWrite(x: Bytes, y: Bytes)
    requires x != [] && y != []
    ensures Enabled(EMPTY, Write(x))
    ensures var b := Next(EMPTY, Write(x));
      && Enabled(b, Flush)
      && var c := Next(b, Flush);
      && Enabled(c, Write(y))
      && var d := Next(c, Write(y));
      && Enabled(d, Complete(0, |x|, false))
      && Next(d, Complete(0, |x|, false)) == Buffer(true, Some(y), false, 0, [], x, x + y, false)
  {
    assert [] + x == x && [] + y == y && [] + [x] == [x] && x[..|x|] == x;
  }

  lemma RunEmpty()
    ensures Possible([]) && Run([]) == EMPTY
  {}

  lemma RunSnoc(events: seq<Event>, e: Event)
    requires Possible(events) && Enabled(Run(events), e)
    ensures Possible(events + [e]) && Run(events + [e]) == Next(Run(events), e)
  {
    assert (events + [e])[..|events|] == events;
  }
}
