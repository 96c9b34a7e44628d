// From the messages of a receiver, through a client's filter and settings, to
// what a downstream splitter reads from the client's connection.
module EndToEnd {
  import opened BitStrings
  import opened Common
  import opened Crc
  import opened Message
  import opened Correction
  import opened Filters
  import opened Settings
  import opened Timestamps
  import opened Deframer
  import opened Framing
  import opened Output
  import opened Relay

  // ----- what settings select

  /** The Mode S formats that settings select. */
  predicate SelectsFormat(s: Settings, df: int) {
    if s.filter111718.On? then df in {11, 17, 18}
    else s.filter045.On? ==> df !in {0, 4, 5}
  }

  /** Exactly the messages that a client with given settings is sent; what it does not care about has its default. */
  lemma SelectedExactly(s: Settings, m: Frame)
    ensures Accepts(ToFilter(s), m) <==>
      match m.kind
      case ModeAC => s.modeacEnable.On?
      case Status => !s.radarcape.Off?
      case Position => s.positionEnable.On?
      case Invalid => false
      case _ =>
        && SelectsFormat(s, Df(m))
        && (s.crcDisable.On? || s.verbatim.On? || !CrcBad(m) || (!s.fecDisable.On? && CrcCorrectable(m)))
  {
    hide CrcBad, CrcCorrectable;
  }

  /** The status writer's client is sent status messages and nothing else. */
  lemma StatusWriterSelects(m: Frame)
    ensures Accepts(StatusOnly(), m) <==> m.kind.Status?
  {}

  /** Only DF11, DF17 and DF18 are checked: other formats pass whatever their parity, and as they are. */
  lemma OtherFormatsUnchecked(g: Filter, s: Settings, f: Frame)
    requires ModeS(f) && Df(f) !in {11, 17, 18}
    ensures Accepts(g, f) <==> g.receiveDf[Df(f)]
    ensures !CrcCorrectable(f)
    ensures Writable(s, f) && SentData(s, f) == f.data
  {
    hide Residual;
  }

  /**
   * The data that a client is sent of any message but status ones: with the located bit flipped, if the check fails,
   * the bit can be located, and the client has not asked otherwise; as received in all other cases.
   */
  lemma SentDataExactly(s: Settings, f: Frame)
    requires !f.kind.Status? && Writable(s, f)
    ensures SentData(s, f) ==
      if CrcBad(f) && CrcCorrectable(f) && CorrectionInRange(f) && !s.verbatim.On? && !s.fecDisable.On?
      then FlipBit(f.data, CorrectableBit(f)) else f.data
  {
    CorrectionInRangeExactly(f);
    hide CrcBad, RunsPastEnd, FlipBit;
  }

  /** So a single damaged bit never reaches a client that leaves correction on, whether it wants checks or not. */
  lemma DamagedBitRepaired(s: Settings, f: Frame, i: nat)
    requires Residual(f.data) == Zeros(24) && !s.verbatim.On? && !s.fecDisable.On?
    requires (f.kind.ModeSLong? && Df(f) in {17, 18}) || (f.kind.ModeSShort? && Df(f) == 11)
    requires 5 <= i < 8 * |f.data|
    ensures Writable(s, Flipped(f, i))
    ensures SentData(s, Flipped(f, i)) == f.data <==> f.kind.ModeSLong? || i <= 48
  {
    var g := Flipped(f, i);
    if f.kind.ModeSLong? {
      SingleBitRepairedLong(f, i);
    } else {
      SingleBitRepairedShort(f, i);
    }
    hide Residual, FlipBit;
    CorrectionInRangeExactly(g);
    FlipChanges(f.data, i);
    SentDataExactly(s, g);
  }

  // ----- clean data

  /** data differs from the received data in no bit, or in one bit after the DF field. */
  ghost predicate AlmostReceived(f: Frame, data: Bytes) {
    || data == f.data
    || exists i: nat | 5 <= i < 8 * |f.data| :: data == FlipBit(f.data, i)
  }

  /**
   * A client with neither crc_disable nor verbatim on is only sent data with at most one bit changed, and never in
   * the DF field. It passes the CRC test exactly if it did as received or its length is the one its DF stands for:
   * correction looks at the DF alone, and repairs a frame of the wrong length to another bad one.
   */
  lemma CleanData(s: Settings, f: Frame)
    requires !s.CrcDisable() && !s.Verbatim()
    requires ModeS(f) && Accepts(ToFilter(s), f) && Writable(s, f)
    ensures !CrcBad(f.(data := SentData(s, f))) <==> !CrcBad(f) || LengthSuitsDf(f)
    ensures AlmostReceived(f, SentData(s, f)) && Df(f.(data := SentData(s, f))) == Df(f)
  {
    CorrectionInRangeExactly(f);
    if CrcBad(f) {
      assert NeedsFec(s, f);
      RepairIsValid(f);
    } else if NeedsFec(s, f) {
      assert Corrected(f) == f.data;
    }
  }

  // ----- timestamps and the status messages that announce their format

  function TypeOf(gps: bool): TimestampType {
    if gps then Gps else TwelveMeg
  }

  /** Whether a client is sent GPS timestamps, when the receiver does or does not send them. */
  predicate SentGps(s: Settings, gps: bool) {
    SentType(s, TypeOf(gps)).Gps?
  }

  /** Timestamps are left as they are unless they are translated into the other format; so are those of no known format. */
  lemma TranslatedIfNeeded(s: Settings, kind: TimestampType, t: nat)
    ensures SentType(s, kind) == kind ==> Rescale(s, kind, t) == t
    ensures kind.Unknown? ==> SentType(s, kind) == kind
    ensures SentType(s, kind) != kind ==> Rescale(s, kind, t) == if kind.Gps? then ToTwelveMeg(t) else ToGps(t)
  {}

  /**
   * Whatever the client's settings and whatever the 48 bits of the timestamp, the timestamp that it is sent stands
   * for the time of the original, or up to 83 ns less, but for whole days.
   */
  lemma SentKeepsTime(s: Settings, gps: bool, t: nat)
    requires t < TWO_48
    ensures var before, after := Nanos(gps, t), Nanos(SentGps(s, gps), Rescale(s, TypeOf(gps), t));
      after <= before && (before - after) % DAY_NS <= 83
  {
    var n, n' := Nanos(gps, t), Nanos(SentGps(s, gps), Rescale(s, TypeOf(gps), t));
    RescaledNanos(s, gps, t);
    hide Nanos, SentGps, Rescale;
    if gps || n' == n {
      QuotRem(n - n', DAY_NS, 0, n - n');
    } else {
      QuotRem(n, DAY_NS, n / DAY_NS, n');
      QuotRem(n - n', DAY_NS, n / DAY_NS, 0);
    }
  }

  lemma RescaledNanos(s: Settings, gps: bool, t: nat)
    requires t < TWO_48
    ensures var n, n' := Nanos(gps, t), Nanos(SentGps(s, gps), Rescale(s, TypeOf(gps), t));
      n' == n || (gps && n - 83 <= n' <= n) || (!gps && n' == n % DAY_NS)
  {
    hide ToGps, ToTwelveMeg, GpsNs, ValidGps;
    if gps {
      GpsToTicks(t);
    } else {
      ToGpsExact(t);
    }
  }

  /**
   * A client's own settings override what the receiver reported of itself; a client that is not a Radarcape gets
   * an empty report. Two flags in the third byte are set for a client that wants GPS timestamps from a receiver
   * without them; for settings that are self-consistent, that is exactly when timestamps are translated to GPS.
   */
  lemma StatusOverridden(s: Settings, data: Bytes)
    requires |data| == 14
    ensures var before, after := FromStatusByte(data[0]), StatusData(s, data);
      && |after| == 14
      && (s.radarcape.Off? ==> after[0] == 0)
      && (!s.radarcape.Off? ==>
            FromStatusByte(after[0]) == Merge(s, before).(radarcape := On, filter045 := DontCare,
                                                     positionEnable := DontCare, verbatim := DontCare))
      && ByteBits(after[2]) == (if s.gpsTimestamps.On? && !before.gpsTimestamps.On?
                              then ByteBits(data[2])[0 := true][2 := true] else ByteBits(data[2]))
      && (SelfConsistent(s) && !before.gpsTimestamps.On? ==> (s.gpsTimestamps.On? <==> SentGps(s, false)))
      && forall i | 0 <= i < 14 && i != 0 && i != 2 :: after[i] == data[i]
  {
    hide ToBits;
    var u := Merge(s, FromStatusByte(data[0]));
    StatusByteReads(u);
    hide FromStatusByte, ToStatusByte, ByteBits;
    MergedIsExplicit(s, data[0]);
    hide Merge;
  }

  /** What a status byte says of the settings it reports. */
  function Reported(u: Settings): Settings {
    UNSET.(radarcape := On,
           binaryFormat := Explicit(u.BinaryFormat()),
           filter111718 := Explicit(u.Filter111718()),
           avrmlat := Explicit(u.Avrmlat()),
           crcDisable := Explicit(u.CrcDisable()),
           gpsTimestamps := Explicit(u.GpsTimestamps()),
           rtsHandshake := Explicit(u.RtsHandshake()),
           fecDisable := Explicit(u.FecDisable()),
           modeacEnable := Explicit(u.ModeacEnable()))
  }

  lemma StatusByteReads(u: Settings)
    ensures u.Radarcape() ==> FromStatusByte(ToStatusByte(u)) == Reported(u)
    ensures !u.Radarcape() ==> ToStatusByte(u) == 0
  {
    hide ToBits;
  }

  /** Every setting that a status byte reports is explicit. */
  lemma MergedIsExplicit(s: Settings, b: Byte)
    ensures Reported(Merge(s, FromStatusByte(b))) ==
      Merge(s, FromStatusByte(b)).(radarcape := On, filter045 := DontCare, positionEnable := DontCare, verbatim := DontCare)
    ensures Merge(s, FromStatusByte(b)).Radarcape() == !s.radarcape.Off?
  {
    hide ByteBits;
  }

  /** The status byte that a client is sent announces the timestamps that it is sent. */
  lemma StatusAnnounces(s: Settings, data: Bytes)
    requires |data| == 14
    ensures FromStatusByte(StatusData(s, data)[0]).gpsTimestamps.On? ==
      SentGps(s, FromStatusByte(data[0]).gpsTimestamps.On?)
  {
    var upstream := FromStatusByte(data[0]);
    StatusByteGps(Merge(s, upstream));
    hide ToStatusByte, FromStatusByte;
  }

  lemma StatusByteGps(u: Settings)
    ensures FromStatusByte(ToStatusByte(u)).gpsTimestamps == Explicit(u.Radarcape() && u.GpsTimestamps())
  {
    if !u.Radarcape() {
      ToBitsZero(8);
    }
  }

  lemma SentFits(s: Settings, f: Frame)
    requires Carried(f) && Writable(s, f)
    ensures Carried(Sent(s, f))
  {
    hide ToGps, ToTwelveMeg, SentData;
    ToGpsExact(f.timestamp);
    ToTwelveMegExact(f.timestamp);
  }

  /** What a client is sent of a stream of messages. */
  ghost function Stream(s: Settings, fs: seq<Frame>): seq<Frame>
    requires forall f :: f in fs ==> Carried(f) && Writable(s, f)
  {
    if fs == [] then []
    else
      if Accepts(ToFilter(s), fs[0]) then [Sent(s, fs[0])] + Stream(s, fs[1..]) else Stream(s, fs[1..])
  }

  lemma {:induction false} StreamCarried(s: Settings, fs: seq<Frame>)
    requires forall f :: f in fs ==> Carried(f) && Writable(s, f)
    ensures forall f :: f in Stream(s, fs) ==> Carried(f)
    decreases |fs|
  {
    if fs != [] {
      hide Carried, Accepts, Sent, Writable;
      StreamCarried(s, fs[1..]);
      SentFits(s, fs[0]);
    }
  }

  lemma SentIsClean(s: Settings, f: Frame)
    requires !s.CrcDisable() && !s.Verbatim()
    requires Accepts(ToFilter(s), f) && Writable(s, f)
    ensures !CrcBad(Sent(s, f)) <==> !CrcBad(f) || LengthSuitsDf(f)
  {
    if ModeS(f) {
      CleanData(s, f);
    }
    hide ToFilter, Accepts, Residual, Corrected, Rescale, StatusData, RunsPastEnd;
  }

  /** Nothing in such a client's stream fails the CRC test, exactly if no frame it accepts does so at the wrong length. */
  lemma {:induction false} CleanStream(s: Settings, fs: seq<Frame>)
    requires !s.CrcDisable() && !s.Verbatim()
    requires forall f :: f in fs ==> Carried(f) && Writable(s, f)
    ensures (forall g :: g in Stream(s, fs) ==> !CrcBad(g)) <==>
      (forall f :: f in fs && Accepts(ToFilter(s), f) ==> !CrcBad(f) || LengthSuitsDf(f))
    decreases |fs|
  {
    if fs != [] {
      hide Carried, LengthSuitsDf, Accepts, Sent, Writable, CrcBad;
      var f, rest := fs[0], fs[1..];
      assert fs == [f] + rest;
      CleanStream(s, rest);
      if Accepts(ToFilter(s), f) {
        SentIsClean(s, f);
        var g, tail := Sent(s, f), Stream(s, rest);
        assert Stream(s, fs) == [g] + tail;
        assert (forall h :: h in [g] + tail ==> !CrcBad(h)) <==> !CrcBad(g) && forall h :: h in tail ==> !CrcBad(h);
      }
    }
  }

  /** The flag that a downstream receiver keeps after one message of the stream is the one after the original. */
  lemma SentAnnounces(s: Settings, f: Frame, gps: bool)
    requires Writable(s, f)
    requires f.timestampType == TypeOf(GpsAfter(f.kind, f.data, gps))
    ensures var g := Sent(s, f);
      var now := SentGps(s, GpsAfter(f.kind, f.data, gps));
      && GpsAfter(g.kind, g.data, SentGps(s, gps)) == now
      && g.timestampType == TypeOf(now)
  {
    hide FromStatusByte, StatusData;
    if f.kind.Status? {
      StatusAnnounces(s, f.data);
    }
  }

  /** A client that is not sent status messages is never sent GPS timestamps. */
  lemma UnannouncedIsTwelveMeg(s: Settings, f: Frame)
    requires f.kind.Status? && !Accepts(ToFilter(s), f)
    ensures forall gps :: !SentGps(s, gps)
  {}

  /** If the receiver's stream announces its timestamp types, so does every client's. */
  lemma {:induction false} StreamAnnounced(s: Settings, fs: seq<Frame>, gps: bool)
    requires forall f :: f in fs ==> Carried(f) && Writable(s, f)
    requires Announced(fs, gps) == fs
    ensures Announced(Stream(s, fs), SentGps(s, gps)) == Stream(s, fs)
    decreases |fs|
  {
    if fs != [] {
      hide Carried, Accepts, Sent, GpsAfter, Writable, SentGps;
      var f, rest := fs[0], fs[1..];
      var now := GpsAfter(f.kind, f.data, gps);
      assert Announced(fs, gps)[0] == f && Announced(fs, gps)[1..] == Announced(rest, now);
      StreamAnnounced(s, rest, now);
      if Accepts(ToFilter(s), f) {
        SentAnnounces(s, f, gps);
        AnnouncedCons(Sent(s, f), Stream(s, rest), SentGps(s, gps));
      } else {
        SkippedKeepsFlag(s, f, gps);
      }
    }
  }

  lemma AnnouncedCons(f: Frame, rest: seq<Frame>, gps: bool)
    ensures var now := GpsAfter(f.kind, f.data, gps);
      Announced([f] + rest, gps) == [f.(timestampType := TypeOf(now))] + Announced(rest, now)
  {
    assert ([f] + rest)[1..] == rest;
  }

  lemma SkippedKeepsFlag(s: Settings, f: Frame, gps: bool)
    requires !Accepts(ToFilter(s), f)
    ensures SentGps(s, GpsAfter(f.kind, f.data, gps)) == SentGps(s, gps)
  {
    hide FromStatusByte, SentGps;
    if f.kind.Status? {
      UnannouncedIsTwelveMeg(s, f);
    }
  }

  /**
   * A downstream splitter on a client's binary connection decodes the very messages that the client was sent,
   * timestamp types included, exactly if it starts with the right idea of the timestamps or a status message
   * comes first.
   */
  lemma ChainedStream(s: Settings, fs: seq<Frame>, gps: bool, p: Parser, chunks: seq<Bytes>, believed: bool)
    requires forall f :: f in fs ==> Carried(f) && Writable(s, f)
    requires Announced(fs, gps) == fs && p.state.Read1A?
    requires Flatten(chunks) == EncodeAll(Stream(s, fs))
    ensures var sent, o := Stream(s, fs), FeedChunks(p, chunks);
      && Decodable(o.frames)
      && (DecodeAll(o.frames, believed) == sent <==>
            sent == [] || sent[0].kind.Status? || believed == SentGps(s, gps))
  {
    hide Stream, SentGps, Carried, Writable, FeedChunks;
    StreamCarried(s, fs);
    StreamAnnounced(s, fs, gps);
    FramingRoundTrip(p, Stream(s, fs), chunks, believed);
    AnnouncedOnce(Stream(s, fs), SentGps(s, gps), believed);
  }

  lemma AnnouncedOnce(fs: seq<Frame>, gps: bool, believed: bool)
    requires Announced(fs, gps) == fs
    ensures Announced(fs, believed) == fs <==> fs == [] || fs[0].kind.Status? || believed == gps
  {
    hide FromStatusByte;
    if fs != [] && !fs[0].kind.Status? {
      assert Announced(fs, gps)[0].timestampType == TypeOf(gps);
      assert Announced(fs, believed)[0].timestampType == TypeOf(believed);
    }
  }

  /**
   * A new connection believes in 12MHz timestamps. That is right, from the first message on, for a stream that is
   * empty or starts with a status message, and otherwise for exactly these settings: a Beast's, 12MHz timestamps
   * asked for, or none asked for while the receiver sends 12MHz ones.
   */
  lemma NewConnectionBelief(s: Settings, fs: seq<Frame>, gps: bool, p: Parser, chunks: seq<Bytes>)
    requires forall f :: f in fs ==> Carried(f) && Writable(s, f)
    requires Announced(fs, gps) == fs && p.state.Read1A?
    requires Flatten(chunks) == EncodeAll(Stream(s, fs))
    ensures var sent, o := Stream(s, fs), FeedChunks(p, chunks);
      && Decodable(o.frames)
      && (DecodeAll(o.frames, false) == sent <==>
            || sent == [] || sent[0].kind.Status?
            || s.radarcape.Off? || s.gpsTimestamps.Off? || (s.gpsTimestamps.DontCare? && !gps))
  {
    hide Stream, Carried, Writable, FeedChunks, EncodeAll, Announced, DecodeAll, SentGps, Decodable;
    ChainedStream(s, fs, gps, p, chunks, false);
    SentGpsExactly(s, gps);
  }

  lemma SentGpsExactly(s: Settings, gps: bool)
    ensures SentGps(s, gps) <==> !s.radarcape.Off? && (s.gpsTimestamps.On? || (s.gpsTimestamps.DontCare? && gps))
  {}

  /**
   * And what the downstream splitter passes on to its own clients: with the receiver type known, that very stream
   * under the same condition; with the receiver type still unknown, the stream from its first status message on,
   * whatever was believed about timestamps.
   */
  lemma ChainedNotified(s: Settings, fs: seq<Frame>, gps: bool, p: Parser, chunks: seq<Bytes>, believed: bool)
    requires forall f :: f in fs ==> Carried(f) && Writable(s, f)
    requires Announced(fs, gps) == fs && p.state.Read1A?
    requires Flatten(chunks) == EncodeAll(Stream(s, fs))
    ensures Decodable(FeedChunks(p, chunks).frames)
    ensures DispatchAll(Dispatch(false, believed, []), FeedChunks(p, chunks).frames).notified ==
      FromFirstStatus(Stream(s, fs))
    ensures DispatchAll(Dispatch(true, believed, []), FeedChunks(p, chunks).frames).notified == Stream(s, fs) <==>
      Stream(s, fs) == [] || Stream(s, fs)[0].kind.Status? || believed == SentGps(s, gps)
  {
    hide Stream, SentGps, Carried, Writable, FeedChunks, Feed, Announced, DecodeAll, DispatchAll, FromFirstStatus;
    var sent, rs := Stream(s, fs), FeedChunks(p, chunks).frames;
    StreamCarried(s, fs);
    StreamAnnounced(s, fs, gps);
    ChainedStream(s, fs, gps, p, chunks, believed);
    ChunksDoNotMatter(p, chunks);
    FeedAll(p, sent);
    DispatchUnknown(Dispatch(false, believed, []), sent, SentGps(s, gps));
    DispatchKnown(Dispatch(true, believed, []), rs);
    assert [] + FromFirstStatus(sent) == FromFirstStatus(sent) && [] + DecodeAll(rs, believed) == DecodeAll(rs, believed);
  }

  /** Whatever part of the printed bytes has been delivered, the messages in it are the first ones sent. */
  lemma DeliveredPrefix(p: Parser, fs: seq<Frame>, delivered: Bytes)
    requires p.state.Read1A? && forall f :: f in fs ==> Carried(f)
    requires delivered <= EncodeAll(fs)
    ensures Feed(p, delivered).frames <= Raws(fs)
  {
    hide Feed, EncodeAll;
    var rest := EncodeAll(fs)[|delivered|..];
    assert EncodeAll(fs) == delivered + rest;
    FeedConcat(p, delivered, rest);
    FeedAll(p, fs);
  }
}
