// beast_input.cc: BeastInput::parse_input, which cuts a Beast byte stream that
// arrives in arbitrary chunks into messages and resynchronises after errors.
module Deframer {
  import opened BitStrings
  import opened Common
  import opened Message

  datatype ParserState = Resync | Read1A | ReadType | ReadData | ReadEscaped1A

  function KindFromByte(b: Byte): MessageType {
    match b
    case 0x31 => ModeAC
    case 0x32 => ModeSShort
    case 0x33 => ModeSLong
    case 0x34 => Status
    case 0x35 => Position
    case _ => Invalid
  }

  /** The type bytes, the types they announce, and the data bytes that follow seven of metadata. */
  lemma TypeTable(b: Byte)
    ensures KindFromByte(b).ModeAC? <==> b == 0x31
    ensures KindFromByte(b).ModeSShort? <==> b == 0x32
    ensures KindFromByte(b).ModeSLong? <==> b == 0x33
    ensures KindFromByte(b).Status? <==> b == 0x34
    ensures KindFromByte(b).Position? <==> b == 0x35
    ensures KindFromByte(b).Invalid? <==> b < 0x31 || b > 0x35
    ensures MessageSize(KindFromByte(b)) ==
      if b == 0x31 then 2 else if b == 0x32 then 7 else if 0x33 <= b <= 0x35 then 14 else 0
  {}

  /** A deframed message: seven bytes of timestamp and signal, then the data. */
  datatype Raw = Raw(kind: MessageType, metadata: Bytes, data: Bytes)

  datatype Parser = Parser(
    state: ParserState,
    kind: MessageType,
    metadata: Bytes,
    data: Bytes,
    goodSync: bool,
    goodMessages: nat)

  predicate ValidParser(p: Parser) {
    && (p.state.Resync? ==> !p.goodSync && p.goodMessages == 0)
    && (p.state.ReadData? || p.state.ReadEscaped1A? ==>
          && !p.kind.Invalid?
          && |p.data| < MessageSize(p.kind)
          && |p.metadata| <= 7
          && (|p.metadata| < 7 ==> p.data == []))
  }

  // ----- an automaton that takes one byte per step

  datatype Output = Output(parser: Parser, frames: seq<Raw>)

  function LostSync(p: Parser): Parser {
    p.(goodMessages := 0, goodSync := false, state := Resync)
  }

  /** Looking for a byte other than 0x1A that a frame may follow. */
  function Hunt(p: Parser, b: Byte): Output {
    Output(if b == 0x1A then p else p.(state := Read1A), [])
  }

  function Stored(p: Parser, b: Byte): Parser {
    if |p.metadata| < 7 then p.(metadata := p.metadata + [b]) else p.(data := p.data + [b])
  }

  /** A message completes as soon as it has all its data. */
  function Settle(q: Parser): Output {
    if |q.data| >= MessageSize(q.kind) then
      Output(q.(state := Read1A, goodSync := true, goodMessages := q.goodMessages + 1),
             [Raw(q.kind, q.metadata, q.data)])
    else
      Output(q.(state := ReadData), [])
  }

  /** One unescaped byte of a message. */
  function Store(p: Parser, b: Byte): Output {
    Settle(Stored(p, b))
  }

  function Step(p: Parser, b: Byte): Output {
    match p.state
    case Resync => Hunt(p, b)
    case Read1A => if b == 0x1A then Output(p.(state := ReadType), []) else Hunt(LostSync(p), b)
    case ReadType =>
      var q := p.(kind := KindFromByte(b));
      if q.kind.Invalid? then Hunt(LostSync(q), b)
      else Output(q.(metadata := [], data := [], state := ReadData), [])
    case ReadData => if b == 0x1A then Output(p.(state := ReadEscaped1A), []) else Store(p, b)
    case ReadEscaped1A => if b == 0x1A then Store(p, b) else Hunt(LostSync(p), b)
  }

  function Feed(p: Parser, input: Bytes): Output
    decreases |input|
  {
    if input == [] then Output(p, [])
    else
      var first := Step(p, input[0]);
      var rest := Feed(first.parser, input[1..]);
      Output(rest.parser, first.frames + rest.frames)
  }

  /** The number of bytes since the last completed message, given that number before the input. */
  function SinceGood(p: Parser, input: Bytes, before: nat): nat
    decreases |input|
  {
    if input == [] then before
    else
      var first := Step(p, input[0]);
      SinceGood(first.parser, input[1..], if first.frames != [] then 0 else before + 1)
  }

  lemma StepKeepsValid(p: Parser, b: Byte)
    requires ValidParser(p)
    ensures ValidParser(Step(p, b).parser)
    ensures forall r :: r in Step(p, b).frames ==> WellFormed(r)
  {}

  predicate WellFormed(r: Raw) {
    !r.kind.Invalid? && |r.metadata| == 7 && |r.data| == MessageSize(r.kind)
  }

  /** Whatever the input, every deframed message has its full metadata and exactly the data of its type. */
  lemma {:induction false} FeedKeepsValid(p: Parser, input: Bytes)
    requires ValidParser(p)
    ensures ValidParser(Feed(p, input).parser)
    ensures forall r :: r in Feed(p, input).frames ==> WellFormed(r)
    decreases |input|
  {
    if input != [] {
      StepKeepsValid(p, input[0]);
      FeedKeepsValid(Step(p, input[0]).parser, input[1..]);
    }
  }

  lemma {:induction false} FeedConcat(p: Parser, a: Bytes, b: Bytes)
    ensures Feed(p, a + b).parser == Feed(Feed(p, a).parser, b).parser
    ensures Feed(p, a + b).frames == Feed(p, a).frames + Feed(Feed(p, a).parser, b).frames
    decreases |a|
  {
    hide Step;
    if a == [] {
      assert a + b == b;
    } else {
      assert (a + b)[1..] == a[1..] + b;
      FeedConcat(Step(p, a[0]).parser, a[1..], b);
    }
  }

  function FeedChunks(p: Parser, chunks: seq<Bytes>): Output
    decreases |chunks|
  {
    if chunks == [] then Output(p, [])
    else
      var first := Feed(p, chunks[0]);
      var rest := FeedChunks(first.parser, chunks[1..]);
      Output(rest.parser, first.frames + rest.frames)
  }

  /** How a stream is cut into reads makes no difference. */
  lemma {:induction false} ChunksDoNotMatter(p: Parser, chunks: seq<Bytes>)
    ensures FeedChunks(p, chunks) == Feed(p, Flatten(chunks))
    decreases |chunks|
  {
    if chunks != [] {
      FlattenFirst(chunks);
      FeedConcat(p, chunks[0], Flatten(chunks[1..]));
      ChunksDoNotMatter(Feed(p, chunks[0]).parser, chunks[1..]);
    }
  }

  /** Everything that is determined by a parser, what it has done, and the input left over. */
  datatype Future = Future(parser: Parser, frames: seq<Raw>, sinceGood: nat)

  function FutureOf(p: Parser, frames: seq<Raw>, since: nat, input: Bytes): Future {
    Future(Feed(p, input).parser, frames + Feed(p, input).frames, SinceGood(p, input, since))
  }

  lemma ConsumeOne(p: Parser, frames: seq<Raw>, since: nat, input: Bytes, i: nat)
    requires i < |input|
    ensures var o := Step(p, input[i]);
      FutureOf(p, frames, since, input[i..]) ==
      FutureOf(o.parser, frames + o.frames, if o.frames != [] then 0 else since + 1, input[i + 1..])
  {
    assert input[i..][1..] == input[i + 1..];
  }

  /** A parser that will lose sync on the next byte may as well lose it before. */
  lemma SameNextStep(p: Parser, q: Parser, frames: seq<Raw>, since: nat, input: Bytes, i: nat)
    requires i < |input| && Step(p, input[i]) == Step(q, input[i])
    ensures FutureOf(p, frames, since, input[i..]) == FutureOf(q, frames, since, input[i..])
  {}

  /** One turn of the scan in RESYNC, which looks one byte ahead. */
  lemma HuntAhead(p: Parser, frames: seq<Raw>, since: nat, input: Bytes, i: nat)
    requires i < |input| && p.state.Resync? && ValidParser(p)
    ensures FutureOf(p, frames, since, input[i..]) ==
      if input[i] == 0x1A || (i + 1 < |input| && input[i + 1] != 0x1A) then
        FutureOf(p, frames, since + 1, input[i + 1..])
      else if i + 1 == |input| then
        FutureOf(p.(state := Read1A), frames, since + 1, input[i + 1..])
      else
        FutureOf(p.(state := ReadType), frames, since + 2, input[i + 2..])
  {
    hide Feed, SinceGood, FutureOf;
    ConsumeOne(p, frames, since, input, i);
    assert frames + [] == frames;
    if input[i] != 0x1A && i + 1 < |input| {
      var next := p.(state := Read1A);
      if input[i + 1] == 0x1A {
        ConsumeOne(next, frames, since + 1, input, i + 1);
      } else {
        assert LostSync(next) == p;
        SameNextStep(next, p, frames, since + 1, input, i + 1);
      }
    }
  }

  // ----- the parser as it is written

  class BeastInput {
    var state: ParserState
    var kind: MessageType
    var metadata: Bytes
    var messagedata: Bytes
    var goodSync: bool
    var goodMessages: nat
    var badBytes: nat
    // the messages for which dispatch_message was called
    var dispatched: seq<Raw>
    // bytes read since the last good message or the start of the connection
    ghost var sinceGood: nat

    function Abstract(): Parser
      reads this
    {
      Parser(state, kind, metadata, messagedata, goodSync, goodMessages)
    }

    ghost predicate Valid()
      reads this
    {
      && ValidParser(Abstract())
      && (goodSync ==> badBytes == 0)
      && badBytes <= sinceGood
    }

    constructor ()
      ensures Valid()
      ensures Abstract() == Parser(Resync, Invalid, [], [], false, 0) && dispatched == []
    {
      state, kind, metadata, messagedata := Resync, Invalid, [], [];
      goodSync, goodMessages, badBytes, dispatched, sinceGood := false, 0, 0, [], 0;
    }

    /** The parser's part of connection_established. */
    method ConnectionEstablished()
      modifies this
      ensures Valid() && Abstract() == Parser(Read1A, old(kind), old(metadata), old(messagedata), false, 0)
      ensures badBytes == 0 && dispatched == old(dispatched)
    {
      goodSync, goodMessages, badBytes, sinceGood := false, 0, 0, 0;
      state := Read1A;
    }

    /** What remains to be done with buf from position p on. */
    ghost function Ahead(buf: Bytes, p: nat): Future
      requires p <= |buf|
      reads this
    {
      FutureOf(Abstract(), dispatched, sinceGood, buf[p..])
    }

    /** Either no message was completed and every byte read was counted, or one was. */
    twostate predicate Progressed(start: nat, p: nat)
      reads this
    {
      && ValidParser(Abstract())
      && if |dispatched| == |old(dispatched)| then
           && dispatched == old(dispatched)
           && sinceGood == old(sinceGood) + p - start
           && badBytes == old(badBytes)
           && (goodSync ==> old(goodSync))
         else
           && |dispatched| == |old(dispatched)| + 1
           && badBytes == 0
           && sinceGood == 0
    }

    /** The loop invariant of parse_input on the counters. */
    ghost predicate Counting(p: nat, lastGoodEnd: nat)
      reads this
    {
      && ValidParser(Abstract())
      && lastGoodEnd <= p
      && (goodSync ==> badBytes == 0)
      && badBytes + (p - lastGoodEnd) <= sinceGood
    }

    method SawGoodMessage()
      modifies this`goodSync, this`goodMessages, this`badBytes
      ensures goodSync && goodMessages == old(goodMessages) + 1 && badBytes == 0
    {
      goodSync := true;
      goodMessages := goodMessages + 1;
      badBytes := 0;
    }

    method LoseSync()
      modifies this`goodSync, this`goodMessages, this`state
      ensures Abstract() == LostSync(old(Abstract()))
    {
      goodMessages := 0;
      goodSync := false;
      state := Resync;
    }

    /** RESYNC: scan for a byte other than 0x1A followed by 0x1A. */
    method ScanForFrame(buf: Bytes, start: nat) returns (p: nat)
      requires start < |buf| && state.Resync? && ValidParser(Abstract())
      modifies this`state, this`sinceGood
      ensures start < p <= |buf| && Progressed(start, p)
      ensures Ahead(buf, p) == old(Ahead(buf, start))
    {
      hide Feed, SinceGood, FutureOf;
      p := start;
      while p < |buf|
        invariant start <= p <= |buf| && state.Resync? && ValidParser(Abstract())
        invariant sinceGood == old(sinceGood) + (p - start)
        invariant Ahead(buf, p) == old(Ahead(buf, start))
      {
        HuntAhead(Abstract(), dispatched, sinceGood, buf, p);
        if buf[p] != 0x1A {
          var q := p + 1;
          if q == |buf| {
            state := Read1A;
            sinceGood := sinceGood + 1;
            return q;
          }
          if buf[q] == 0x1A {
            state := ReadType;
            sinceGood := sinceGood + 2;
            return q + 1;
          }
        }
        sinceGood := sinceGood + 1;
        p := p + 1;
      }
    }

    method PushByte(b: Byte)
      modifies this`metadata, this`messagedata
      ensures Abstract() == Stored(old(Abstract()), b)
    {
      if |metadata| < 7 {
        metadata := metadata + [b];
      } else {
        messagedata := messagedata + [b];
      }
    }

    method MessageComplete()
      modifies this
      ensures Abstract() == old(Abstract()).(state := Read1A, goodSync := true, goodMessages := old(goodMessages) + 1)
      ensures dispatched == old(dispatched) + [Raw(old(kind), old(metadata), old(messagedata))]
      ensures badBytes == 0 && sinceGood == 0
    {
      SawGoodMessage();
      sinceGood := 0;
      dispatched := dispatched + [Raw(kind, metadata, messagedata)];
      state := Read1A;
    }

    /** In the middle of READ_DATA: the message may just have become complete. */
    ghost predicate Reading() reads this {
      && state.ReadData? && !kind.Invalid? && |metadata| <= 7 && |messagedata| <= MessageSize(kind)
      && (|metadata| < 7 ==> messagedata == [])
    }

    ghost function AheadReading(buf: Bytes, p: nat): Future
      requires p <= |buf|
      reads this
    {
      var o := Settle(Abstract());
      FutureOf(o.parser, dispatched + o.frames, if o.frames != [] then 0 else sinceGood, buf[p..])
    }

    /** One byte of a message with its escape; go is false when the input ends inside an escape or sync is lost. */
    method TakeByte(buf: Bytes, start: nat) returns (p: nat, go: bool)
      requires start < |buf| && Reading() && |messagedata| < MessageSize(kind)
      modifies this`state, this`metadata, this`messagedata, this`goodSync, this`goodMessages, this`sinceGood
      ensures start < p <= |buf| && sinceGood == old(sinceGood) + (p - start)
      ensures goodSync ==> old(goodSync)
      ensures go ==> Reading() && AheadReading(buf, p) == old(Ahead(buf, start))
      ensures !go ==> ValidParser(Abstract()) && Ahead(buf, p) == old(Ahead(buf, start))
    {
      hide Feed, SinceGood;
      p, go := start, true;
      var b := buf[p];
      ConsumeOne(Abstract(), dispatched, sinceGood, buf, p);
      p := p + 1;
      sinceGood := sinceGood + 1;
      if b == 0x1A {
        ghost var escaped := Abstract().(state := ReadEscaped1A);
        if p == |buf| {
          state := ReadEscaped1A;
          return p, false;
        }
        if buf[p] != 0x1A {
          SameNextStep(escaped, LostSync(Abstract()), dispatched, sinceGood, buf, p);
          LoseSync();
          return p, false;
        }
        ConsumeOne(escaped, dispatched, sinceGood, buf, p);
        p := p + 1;
        sinceGood := sinceGood + 1;
      }
      PushByte(b);
    }

    /** READ_DATA: store unescaped bytes until the message is complete, sync is lost or the input ends. */
    method ReadMessage(buf: Bytes, start: nat) returns (p: nat)
      requires start < |buf| && state.ReadData? && ValidParser(Abstract())
      modifies this
      ensures start < p <= |buf| && Progressed(start, p)
      ensures Ahead(buf, p) == old(Ahead(buf, start))
    {
      hide Feed, SinceGood;
      p := start;
      var go := true;
      while go && p < |buf| && |messagedata| < MessageSize(kind)
        invariant start <= p <= |buf| && (p == start ==> go && |messagedata| < MessageSize(kind))
        invariant go ==> Reading() && AheadReading(buf, p) == old(Ahead(buf, start))
        invariant !go ==> ValidParser(Abstract()) && Ahead(buf, p) == old(Ahead(buf, start))
        invariant sinceGood == old(sinceGood) + (p - start)
        invariant badBytes == old(badBytes) && dispatched == old(dispatched) && (goodSync ==> old(goodSync))
        decreases |buf| - p
      {
        p, go := TakeByte(buf, p);
      }
      if go && |messagedata| >= MessageSize(kind) {
        MessageComplete();
      }
    }

    /** READ_1A: the byte that starts a frame, or lost sync with nothing consumed. */
    method ExpectFrame(buf: Bytes, start: nat) returns (p: nat)
      requires start < |buf| && state.Read1A? && ValidParser(Abstract())
      modifies this
      ensures start <= p <= |buf| && (p == start ==> state.Resync?) && Progressed(start, p)
      ensures Ahead(buf, p) == old(Ahead(buf, start))
    {
      hide Feed, SinceGood;
      p := start;
      if buf[p] == 0x1A {
        ConsumeOne(Abstract(), dispatched, sinceGood, buf, p);
        state := ReadType;
        sinceGood := sinceGood + 1;
        p := p + 1;
      } else {
        SameNextStep(Abstract(), LostSync(Abstract()), dispatched, sinceGood, buf, p);
        LoseSync();
      }
    }

    /** READ_TYPE: a known type byte, or lost sync with nothing consumed. */
    method ExpectType(buf: Bytes, start: nat) returns (p: nat)
      requires start < |buf| && state.ReadType? && ValidParser(Abstract())
      modifies this
      ensures start <= p <= |buf| && (p == start ==> state.Resync?) && Progressed(start, p)
      ensures Ahead(buf, p) == old(Ahead(buf, start))
    {
      hide Feed, SinceGood;
      p := start;
      ghost var before := Abstract();
      kind := KindFromByte(buf[p]);
      if kind.Invalid? {
        SameNextStep(before, LostSync(Abstract()), dispatched, sinceGood, buf, p);
        LoseSync();
      } else {
        ConsumeOne(before, dispatched, sinceGood, buf, p);
        metadata, messagedata := [], [];
        state := ReadData;
        sinceGood := sinceGood + 1;
        p := p + 1;
      }
    }

    /** READ_ESCAPED_1A: the second half of an escape whose first half ended the previous read. */
    method ExpectEscape(buf: Bytes, start: nat) returns (p: nat)
      requires start < |buf| && state.ReadEscaped1A? && ValidParser(Abstract())
      modifies this
      ensures start <= p <= |buf| && (p == start ==> state.Resync?) && Progressed(start, p)
      ensures Ahead(buf, p) == old(Ahead(buf, start))
    {
      hide Feed, SinceGood;
      p := start;
      if buf[p] != 0x1A {
        SameNextStep(Abstract(), LostSync(Abstract()), dispatched, sinceGood, buf, p);
        LoseSync();
        return;
      }
      ConsumeOne(Abstract(), dispatched, sinceGood, buf, p);
      PushByte(buf[p]);
      sinceGood := sinceGood + 1;
      p := p + 1;
      if |messagedata| >= MessageSize(kind) {
        MessageComplete();
      } else {
        state := ReadData;
      }
    }

    method ParseInput(buf: Bytes)
      requires Valid()
      modifies this
      ensures Valid()
      ensures Abstract() == Feed(old(Abstract()), buf).parser
      ensures dispatched == old(dispatched) + Feed(old(Abstract()), buf).frames
      ensures sinceGood == SinceGood(old(Abstract()), buf, old(sinceGood))
      ensures badBytes ==
        if goodSync then 0
        else if Feed(old(Abstract()), buf).frames == [] then old(badBytes) + |buf|
        else sinceGood
    {
      var p, lastGoodEnd := 0, 0;
      ghost var goal := Ahead(buf, 0);
      while p < |buf|
        invariant p <= |buf| && Counting(p, lastGoodEnd)
        invariant Ahead(buf, p) == goal
        invariant |old(dispatched)| <= |dispatched|
        invariant |dispatched| == |old(dispatched)| ==> badBytes == old(badBytes) && lastGoodEnd == 0
        invariant |dispatched| > |old(dispatched)| ==> badBytes == 0 && sinceGood == p - lastGoodEnd
        decreases |buf| - p, if state.Resync? then 0 else 1
      {
        var before := |dispatched|;
        match state {
          case Resync => p := ScanForFrame(buf, p);
          case Read1A => p := ExpectFrame(buf, p);
          case ReadType => p := ExpectType(buf, p);
          case ReadData => p := ReadMessage(buf, p);
          case ReadEscaped1A => p := ExpectEscape(buf, p);
        }
        if |dispatched| != before {
          lastGoodEnd := p;
        }
      }
      if !goodSync {
        badBytes := badBytes + (|buf| - lastGoodEnd);
      }
    }
  }
}
