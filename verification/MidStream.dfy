// A new connection starts in READ_1A, and may start anywhere in a stream. What
// the parser makes of the stream from there on.
module MidStream {
  import opened BitStrings
  import opened Message
  import opened Deframer
  import opened Framing

  /** At position k, the bytes look like the start of a frame. */
  predicate Opens(stream: Bytes, k: nat) {
    k + 1 < |stream| && stream[k] == 0x1A && !KindFromByte(stream[k + 1]).Invalid?
  }

  // ----- where nothing opens

  /** Where nothing opens, READ_1A does as RESYNC would. */
  lemma SkipsLikeResync(p: Parser, stream: Bytes, k: nat) returns (q: Parser)
    requires p.state.Read1A? && k + 1 < |stream| && !Opens(stream, k)
    ensures q.state.Resync? && ValidParser(q) && Feed(p, stream[k..]) == Feed(q, stream[k..])
  {
    hide Feed;
    var a, b := stream[k], stream[k + 1];
    if a == 0x1A {
      q := LostSync(p).(kind := Invalid);
      var rest := stream[k + 2..];
      assert stream[k..] == [a, b] + rest;
      FeedTwo(p, a, b, rest);
      FeedTwo(q, a, b, rest);
    } else {
      q := LostSync(p);
      var rest := stream[k + 1..];
      assert stream[k..] == [a] + rest;
      FeedOne(p, a, rest);
      FeedOne(q, a, rest);
    }
  }

  /** A single byte, or none, never makes a message. */
  lemma OneByteIsNothing(p: Parser, s: Bytes)
    requires |s| <= 1 && (p.state.Read1A? || p.state.Resync?)
    ensures Feed(p, s).frames == []
    ensures Hunting(p) || (p.state.Read1A? && s != [] && s[0] != 0x1A) ==>
      !Feed(p, s).parser.goodSync && Feed(p, s).parser.goodMessages == 0
  {
    if s != [] {
      assert s[1..] == [];
    }
  }

  /**
   * From READ_1A at byte k of a printed stream, if the bytes there do not look like the start of a frame, exactly
   * the frames come out that RESYNC would have recovered.
   */
  lemma ConnectIsExact(p: Parser, fs: seq<Frame>, k: nat, j: nat)
    requires p.state.Read1A? && k <= |EncodeAll(fs)| && !Opens(EncodeAll(fs), k)
    requires Hunting(p) || k + 1 < |EncodeAll(fs)| || (k < |EncodeAll(fs)| && EncodeAll(fs)[k] != 0x1A)
    requires j <= |fs| && forall f :: f in fs ==> Carried(f)
    requires forall i | 0 <= i < j :: !Lockable(fs, k, i)
    requires j < |fs| ==> Lockable(fs, k, j)
    ensures Recovered(Feed(p, EncodeAll(fs)[k..]), fs, j)
  {
    hide Feed, EncodeAll, Lockable, Carried;
    if k + 1 < |EncodeAll(fs)| {
      var q := SkipsLikeResync(p, EncodeAll(fs), k);
      ResyncIsExact(q, fs, k, j);
    } else {
      var q := LostSync(p);
      ResyncIsExact(q, fs, k, j);
      OneByteIsNothing(q, EncodeAll(fs)[k..]);
      OneByteIsNothing(p, EncodeAll(fs)[k..]);
      assert |Raws(fs[j..])| == 0;
    }
  }

  // ----- what opens in the middle of a frame

  /** Offset k of a printed frame is the second half of the escape of body byte b. */
  predicate SecondHalf(f: Frame, b: nat, k: nat) {
    b < |Body(f)| && Body(f)[b] == 0x1A && k == 3 + |Escape(Body(f)[..b])|
  }

  /** Body byte b is followed by one that is a type byte. */
  predicate TypeFollows(f: Frame, b: nat) {
    b + 1 < |Body(f)| && !KindFromByte(Body(f)[b + 1]).Invalid?
  }

  lemma EscapeFrom(body: Bytes, b: nat)
    requires b < |body| && body[b] == 0x1A
    ensures |Escape(body[..b])| + 2 <= |Escape(body)|
    ensures Escape(body)[|Escape(body[..b])| + 1..] == [0x1A] + Escape(body[b + 1..])
  {
    assert body == body[..b] + body[b..] && body[b..][1..] == body[b + 1..];
    EscapeConcat(body[..b], body[b..]);
    assert Escape(body[b..]) == [0x1A, 0x1A] + Escape(body[b + 1..]);
    hide Escape;
  }

  /** The bytes from the second half of an escape on. */
  lemma FromSecondHalf(f: Frame, b: nat, k: nat)
    requires SecondHalf(f, b, k)
    ensures 0 < k < |Encode(f)| && Encode(f)[k..] == [0x1A] + Escape(Body(f)[b + 1..])
  {
    hide Escape, Body;
    EscapeFrom(Body(f), b);
  }

  lemma {:induction false} OpensInEscape(body: Bytes, i: nat) returns (b: nat)
    requires Opens(Escape(body), i)
    ensures b + 1 < |body| && body[b] == 0x1A && !KindFromByte(body[b + 1]).Invalid?
    ensures i == 1 + |Escape(body[..b])|
    decreases |body|
  {
    hide KindFromByte;
    ByteKinds();
    var first, rest := Escaped(body[0]), Escape(body[1..]);
    assert Escape(body) == first + rest;
    if i >= |first| {
      b := OpensInEscape(body[1..], i - |first|);
      b := b + 1;
      assert body[..b][1..] == body[1..][..b - 1];
    } else {
      assert i == 1;
      b := 0;
      assert rest == Escaped(body[1]) + Escape(body[2..]) by { assert body[1..][1..] == body[2..]; }
    }
  }

  lemma ByteKinds()
    ensures KindFromByte(0x1A).Invalid?
  {}

  /** Inside a printed frame, exactly the second halves of escapes before type bytes look like the start of a frame. */
  lemma OpensExactly(f: Frame, k: nat)
    requires Carried(f) && 0 < k < |Encode(f)|
    ensures Opens(Encode(f), k) <==> exists b :: SecondHalf(f, b, k) && TypeFollows(f, b)
  {
    ByteKinds();
    if Opens(Encode(f), k) {
      assert k >= 2;
      hide KindFromByte, TypeByte, Body;
      assert Escape(Body(f)) == Encode(f)[2..];
      var b := OpensInEscape(Body(f), k - 2);
      assert SecondHalf(f, b, k) && TypeFollows(f, b);
    }
    if b: nat :| SecondHalf(f, b, k) && TypeFollows(f, b) {
      TypeIsPrinted(f, b, k);
    }
  }

  /** A type byte after an escape is printed as it is. */
  lemma TypeIsPrinted(f: Frame, b: nat, k: nat)
    requires SecondHalf(f, b, k) && TypeFollows(f, b)
    ensures k + 1 < |Encode(f)|
    ensures Encode(f)[k..] == [0x1A, Body(f)[b + 1]] + Escape(Body(f)[b + 2..])
    ensures Encode(f)[k] == 0x1A && Encode(f)[k + 1] == Body(f)[b + 1]
  {
    FromSecondHalf(f, b, k);
    ByteKinds();
    var rest := Body(f)[b + 1..];
    assert rest[1..] == Body(f)[b + 2..];
    assert Escape(rest) == [rest[0]] + Escape(rest[1..]);
    hide Encode, Body, Escape;
    var tail := Encode(f)[k..];
    assert tail[0] == Encode(f)[k] && tail[1] == Encode(f)[k + 1];
  }

  // ----- and what becomes of it

  /** The number of body bytes after the type byte, and the number that the message it announces needs. */
  function Left(f: Frame, b: nat): int {
    |Body(f)| - (b + 2)
  }

  function Needed(f: Frame, b: nat): nat
    requires TypeFollows(f, b)
  {
    7 + MessageSize(KindFromByte(Body(f)[b + 1]))
  }

  /** The message that was never sent: cut out of the body of another, if that is long enough. */
  function FalseFrames(f: Frame, b: nat): seq<Raw>
    requires TypeFollows(f, b)
  {
    var rest := Body(f)[b + 2..];
    if Left(f, b) < Needed(f, b) then []
    else [Raw(KindFromByte(Body(f)[b + 1]), rest[..7], rest[7..Needed(f, b)])]
  }

  /** Too few bytes for the message: the parser waits for more. */
  lemma {:induction false} FeedPart(p: Parser, body: Bytes)
    requires ValidParser(p) && p.state.ReadData?
    requires |p.metadata + p.data + body| < 7 + MessageSize(p.kind)
    ensures var o := Feed(p, Escape(body));
      && o.frames == [] && o.parser.state.ReadData? && ValidParser(o.parser)
    decreases |body|
  {
    hide Feed;
    if body == [] {
      FeedNothing(p);
    } else {
      var rest := body[1..];
      FeedEscaped(p, body[0], Escape(rest));
      FeedPart(Stored(p, body[0]), rest);
      var last := Feed(Stored(p, body[0]), Escape(rest));
      assert [] + last.frames == last.frames;
    }
  }

  /** Enough bytes: the message completes, and what is left of the body is skipped. */
  lemma FeedWhole(p: Parser, body: Bytes)
    requires ValidParser(p) && p.state.ReadData? && p.metadata == [] && p.data == []
    requires |body| >= 7 + MessageSize(p.kind)
    ensures var n, o := 7 + MessageSize(p.kind), Feed(p, Escape(body));
      && o.frames == [Raw(p.kind, body[..7], body[7..n])]
      && (if |body| == n then o.parser.state.Read1A? else HuntedTo(Output(o.parser, []), body[|body| - 1]))
  {
    hide Feed, Escape;
    var n := 7 + MessageSize(p.kind);
    var content, rest := body[..n], body[n..];
    assert body == content + rest && p.metadata + p.data + content == content;
    EscapeConcat(content, rest);
    FeedBody(p, content);
    var q := Feed(p, Escape(content)).parser;
    FeedConcat(p, Escape(content), Escape(rest));
    assert content[..7] == body[..7] && content[7..] == body[7..n];
    if rest == [] {
      EscapeNothing();
      FeedNothing(q);
    } else {
      HuntBody(q, rest);
    }
  }

  lemma EscapeNothing()
    ensures Escape([]) == []
  {}

  lemma AfterOpening(p: Parser, f: Frame, b: nat, k: nat)
    requires p.state.Read1A? && Carried(f) && SecondHalf(f, b, k) && TypeFollows(f, b)
    ensures k < |Encode(f)|
    ensures var o := Feed(p, Encode(f)[k..]);
      && o.frames == FalseFrames(f, b)
      && (if Left(f, b) < Needed(f, b) then o.parser.state.ReadData? && ValidParser(o.parser)
          else if Left(f, b) == Needed(f, b) then o.parser.state.Read1A?
          else HuntedTo(Output(o.parser, []), LastByte(f)))
  {
    hide Feed, Encode, Escape, Body, KindFromByte, Completed, HuntedTo, SecondHalf, LastByte;
    TypeIsPrinted(f, b, k);
    var t, rest := Body(f)[b + 1], Body(f)[b + 2..];
    FeedOpening(p, t, Escape(rest));
    var q := Opened(p, KindFromByte(t));
    if Left(f, b) < Needed(f, b) {
      FeedPart(q, rest);
    } else {
      FeedWhole(q, rest);
      LastOfBody(f, b + 2);
    }
  }

  lemma LastOfBody(f: Frame, i: nat)
    requires Carried(f) && i < |Body(f)|
    ensures var rest := Body(f)[i..]; rest[|rest| - 1] == LastByte(f)
  {
    BodyParts(f);
    hide Body, TimestampBytes;
  }

  /**
   * A new connection inside a printed frame gets a message out of that frame - one that was never sent - if and only
   * if it starts on the second half of an escape, a type byte follows, and enough of the body for its message.
   */
  lemma FalseFrameExactly(p: Parser, f: Frame, k: nat)
    requires p.state.Read1A? && Carried(f) && 0 < k < |Encode(f)|
    ensures Feed(p, Encode(f)[k..]).frames != [] <==>
      exists b :: SecondHalf(f, b, k) && TypeFollows(f, b) && Left(f, b) >= Needed(f, b)
  {
    hide Feed, Encode, SecondHalf, TypeFollows, Left, Needed;
    OpensExactly(f, k);
    if b: nat :| SecondHalf(f, b, k) && TypeFollows(f, b) {
      AfterOpening(p, f, b, k);
      forall c: nat | SecondHalf(f, c, k) && TypeFollows(f, c) && Left(f, c) >= Needed(f, c)
        ensures Feed(p, Encode(f)[k..]).frames != []
      {
        AfterOpening(p, f, c, k);
      }
    } else if k + 1 < |Encode(f)| {
      var q := SkipsLikeResync(p, Encode(f), k);
      HuntFrame(q, f, k);
    } else {
      OneByteIsNothing(p, Encode(f)[k..]);
    }
  }

  /** For one, the data of a long frame that starts with 0x1A and the type byte of a Mode A/C message. */
  lemma FalseLock(p: Parser, f: Frame) returns (k: nat)
    requires p.state.Read1A? && Carried(f) && f.kind.ModeSLong? && f.data[..2] == [0x1A, 0x31]
    ensures k < |Encode(f)|
    ensures Feed(p, Encode(f)[k..]).frames == [Raw(ModeAC, f.data[2..9], f.data[9..11])]
  {
    hide Feed, Encode, Escape;
    BodyParts(f);
    hide TimestampBytes;
    var data, body := f.data, Body(f);
    assert body[7] == data[..2][0] && body[8] == data[..2][1];
    assert body[9..][..7] == data[2..9] && body[9..][7..9] == data[9..11];
    k := 3 + |Escape(body[..7])|;
    AfterOpening(p, f, 7, k);
  }

  // ----- the rest of the stream

  /** Whether the parser is ready for frame i, after it has opened at body byte b of frame m. */
  predicate Regains(fs: seq<Frame>, m: nat, b: nat, i: nat)
    requires m < i < |fs| && TypeFollows(fs[m], b) && forall f :: f in fs ==> Carried(f)
  {
    if i > m + 1 then LastByte(fs[i - 1]) != 0x1A
    else Left(fs[m], b) == Needed(fs[m], b) || (Left(fs[m], b) > Needed(fs[m], b) && LastByte(fs[m]) != 0x1A)
  }

  lemma {:induction false} SuffixAt(fs: seq<Frame>, m: nat, k: nat)
    requires m < |fs| && k <= |Encode(fs[m])|
    ensures Start(fs, m) + k <= |EncodeAll(fs)|
    ensures EncodeAll(fs)[Start(fs, m) + k..] == Encode(fs[m])[k..] + EncodeAll(fs[m + 1..])
    decreases m
  {
    hide Encode;
    if m == 0 {
      assert Start(fs, 0) == 0;
    } else {
      StartShift(fs, m);
      SuffixAt(fs[1..], m - 1, k);
      assert fs[1..][m..] == fs[m + 1..];
      hide EncodeAll, Start;
      assert EncodeAll(fs) == Encode(fs[0]) + EncodeAll(fs[1..]) by { EncodeAllFirst(fs); }
    }
  }

  lemma EncodeAllFirst(fs: seq<Frame>)
    requires fs != []
    ensures EncodeAll(fs) == Encode(fs[0]) + EncodeAll(fs[1..])
  {}

  lemma EncodeAllNothing()
    ensures EncodeAll([]) == []
  {}

  /** A message that was waited for in vain costs the next frame as well. */
  lemma NextFrameLost(p: Parser, f: Frame)
    requires p.state.ReadData? && ValidParser(p) && Carried(f)
    ensures HuntedTo(Feed(p, Encode(f)), LastByte(f))
  {
    hide Feed, TimestampBytes, Escape;
    var q := LostSync(p).(state := Read1A);
    FeedTwo(p, 0x1A, TypeByte(f.kind), Escape(Body(f)));
    HuntBody(q, Body(f));
    var last := Feed(q, Escape(Body(f)));
    assert [] + [] + last.frames == last.frames;
    assert Body(f)[|Body(f)| - 1] == LastByte(f);
  }

  /**
   * On the second half of an escape before a type byte, a new connection gets at most one message that was never
   * sent, and then exactly the frames from the first one on that it is ready for.
   */
  lemma ConnectOnEscape(p: Parser, fs: seq<Frame>, m: nat, b: nat, k: nat, j: nat)
    requires p.state.Read1A? && forall f :: f in fs ==> Carried(f)
    requires m < j <= |fs| && SecondHalf(fs[m], b, k) && TypeFollows(fs[m], b)
    requires forall i | m < i < j :: !Regains(fs, m, b, i)
    requires j < |fs| ==> Regains(fs, m, b, j)
    ensures Start(fs, m) + k <= |EncodeAll(fs)|
    ensures Feed(p, EncodeAll(fs)[Start(fs, m) + k..]).frames == FalseFrames(fs[m], b) + Raws(fs[j..])
  {
    var f, rest := fs[m], fs[m + 1..];
    AfterOpening(p, f, b, k);
    SuffixAt(fs, m, k);
    hide Feed, Encode, EncodeAll, Body, SecondHalf, TypeFollows, FalseFrames, Left, Needed;
    FeedConcat(p, Encode(f)[k..], EncodeAll(rest));
    var q := Feed(p, Encode(f)[k..]).parser;
    assert fs[j..] == rest[j - m - 1..];
    AfterFrame(q, fs, m, b, j);
  }

  lemma AfterFrame(q: Parser, fs: seq<Frame>, m: nat, b: nat, j: nat)
    requires m < j <= |fs| && TypeFollows(fs[m], b) && forall f :: f in fs ==> Carried(f)
    requires forall i | m < i < j :: !Regains(fs, m, b, i)
    requires j < |fs| ==> Regains(fs, m, b, j)
    requires if Left(fs[m], b) < Needed(fs[m], b) then q.state.ReadData? && ValidParser(q)
             else if Left(fs[m], b) == Needed(fs[m], b) then q.state.Read1A?
             else HuntedTo(Output(q, []), LastByte(fs[m]))
    ensures Feed(q, EncodeAll(fs[m + 1..])).frames == Raws(fs[m + 1..][j - m - 1..])
  {
    hide Feed, Encode, EncodeAll, TypeFollows, Left, Needed, Carried, LastByte;
    var rest := fs[m + 1..];
    if rest == [] {
      EncodeAllNothing();
      FeedNothing(q);
    } else if Left(fs[m], b) == Needed(fs[m], b) {
      assert Regains(fs, m, b, m + 1);
      FeedAll(q, rest);
      assert rest[j - m - 1..] == rest;
    } else if Left(fs[m], b) > Needed(fs[m], b) {
      forall i | 0 <= i < |rest| ensures Ready(q, rest, i) == Regains(fs, m, b, m + 1 + i) {}
      HuntAll(q, rest, j - m - 1);
    } else {
      assert !Regains(fs, m, b, m + 1);
      forall i | 0 <= i < |rest| - 1 ensures LastByte(rest[i]) != 0x1A <==> Regains(fs, m, b, m + 2 + i) {}
      hide Regains;
      AfterLoss(q, rest, j - m - 1);
    }
  }

  lemma AfterLoss(q: Parser, fs: seq<Frame>, j: nat)
    requires q.state.ReadData? && ValidParser(q) && 0 < j <= |fs| && forall f :: f in fs ==> Carried(f)
    requires forall i | 0 <= i < j - 1 :: LastByte(fs[i]) == 0x1A
    requires j < |fs| ==> LastByte(fs[j - 1]) != 0x1A
    ensures Feed(q, EncodeAll(fs)).frames == Raws(fs[j..])
  {
    hide Feed, Encode, Carried, LastByte;
    NextFrameLost(q, fs[0]);
    var r, gs := Feed(q, Encode(fs[0])).parser, fs[1..];
    EncodeAllFirst(fs);
    hide EncodeAll;
    FeedConcat(q, Encode(fs[0]), EncodeAll(gs));
    HuntAll(r, gs, j - 1);
    assert gs[j - 1..] == fs[j..];
    var last := Feed(r, EncodeAll(gs));
    assert [] + last.frames == last.frames;
  }

  /** Nothing else looks like the start of a frame: what opens in a stream does so in one of its frames. */
  lemma {:induction false} OpensInFrame(fs: seq<Frame>, k: nat) returns (m: nat)
    requires Opens(EncodeAll(fs), k)
    ensures m < |fs| && Start(fs, m) <= k < Start(fs, m) + |Encode(fs[m])|
    ensures Opens(Encode(fs[m]), k - Start(fs, m))
    decreases |fs|
  {
    hide Encode, KindFromByte;
    ByteKinds();
    var first, rest := Encode(fs[0]), EncodeAll(fs[1..]);
    assert EncodeAll(fs) == first + rest;
    if k >= |first| {
      m := OpensInFrame(fs[1..], k - |first|);
      m := m + 1;
      StartShift(fs, m);
    } else {
      m := 0;
      assert Start(fs, 0) == 0;
      if k + 1 == |first| {
        StartsWithEscape(fs[1..]);
        assert false;
      }
    }
  }

  lemma StartsWithEscape(fs: seq<Frame>)
    ensures EncodeAll(fs) != [] ==> EncodeAll(fs)[0] == 0x1A
  {}
}
