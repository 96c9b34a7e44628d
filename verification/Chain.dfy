// Splitters in a chain: a downstream splitter configures its connection to an
// upstream one for the join of its own clients' filters, by settings commands.
module Chain {
  import opened BitStrings
  import opened Common
  import opened Message
  import opened Filters
  import opened Settings
  import opened Commands
  import opened Correction
  import opened Output
  import opened Relay
  import Distributor
  import Link

  /** Commands never make settings inconsistent, whatever bytes arrive. */
  lemma {:induction false} CommandsKeepConsistent(r: Reader, data: Bytes)
    requires SelfConsistent(r.settings)
    ensures SelfConsistent(ReadBytes(r, data).settings)
    ensures ReadBytes(r, data).settings.radarcape == r.settings.radarcape
  {
    if data != [] {
      CommandsKeepConsistent(r, data[..|data| - 1]);
    }
  }

  // ----- the filters that clients register are settings filters or the status writer's

  predicate ClientAction(a: Distributor.Action) {
    match a
    case Add(f) => Aggregate(f)
    case Update(_, f) => Aggregate(f)
    case Remove(_) => true
  }

  predicate ClientActions(actions: seq<Distributor.Action>) {
    forall i :: 0 <= i < |actions| ==> ClientAction(actions[i])
  }

  predicate ClientEvent(e: Distributor.Event) {
    match e
    case Call(a) => ClientAction(a)
    case Received(_, script) => forall i :: 0 <= i < |script| ==> ClientActions(script[i])
  }

  ghost predicate AllAggregates(s: Distributor.State) {
    forall h :: h in s.clients ==> Aggregate(s.clients[h].filter)
  }

  lemma {:induction false} ActAllKeepsAggregates(s: Distributor.State, actions: seq<Distributor.Action>)
    requires AllAggregates(s) && ClientActions(actions)
    ensures AllAggregates(Distributor.ActAll(s, actions))
  {
    hide Aggregate;
    if actions != [] {
      var n := |actions| - 1;
      assert ClientActions(actions[..n]);
      ActAllKeepsAggregates(s, actions[..n]);
      assert ClientAction(actions[n]);
    }
  }

  lemma {:induction false} TurnsKeepAggregates(s: Distributor.State, n: nat, m: Frame, script: Distributor.Script)
    requires AllAggregates(s) && forall i :: 0 <= i < |script| ==> ClientActions(script[i])
    ensures AllAggregates(Distributor.Turns(s, n, m, script))
  {
    hide Aggregate, Accepts;
    if n > 0 {
      TurnsKeepAggregates(s, n - 1, m, script);
      ActAllKeepsAggregates(Distributor.Turns(s, n - 1, m, script), Distributor.ScriptOf(script, n - 1));
    }
  }

  lemma {:induction false} RunKeepsAggregates(events: seq<Distributor.Event>)
    requires forall i :: 0 <= i < |events| ==> ClientEvent(events[i])
    ensures AllAggregates(Distributor.Run(events))
  {
    if events != [] {
      var n := |events| - 1;
      var s := Distributor.Run(events[..n]);
      RunKeepsAggregates(events[..n]);
      assert ClientEvent(events[n]);
      match events[n] {
        case Call(a) => ActAllKeepsAggregates(s, [a]); assert [a][..0] == [];
        case Received(m, script) => TurnsKeepAggregates(s, Distributor.LastTurn(s, script), m, script);
      }
    }
  }

  lemma {:induction false} JoinOfAggregates(clients: map<nat, Distributor.Client>, n: nat)
    requires forall h :: h in clients ==> Aggregate(clients[h].filter)
    ensures Aggregate(Distributor.JoinBelow(clients, n))
  {
    if n > 0 {
      JoinOfAggregates(clients, n - 1);
    }
  }

  lemma PublishedIsAggregate(events: seq<Distributor.Event>)
    requires forall i :: 0 <= i < |events| ==> ClientEvent(events[i])
    ensures Aggregate(Distributor.Run(events).published)
  {
    var s := Distributor.Run(events);
    RunKeepsAggregates(events);
    Distributor.RunKeepsInv(events);
    JoinOfAggregates(s.clients, s.nextHandle);
  }

  // ----- the upstream client filter after the commands

  /** No setting that selects messages is forced; output formats, flow control and the receiver type may be. */
  predicate FiltersUnforced(fixed: Settings) {
    && fixed.filter111718.DontCare? && fixed.crcDisable.DontCare? && fixed.gpsTimestamps.DontCare?
    && fixed.fecDisable.DontCare? && fixed.modeacEnable.DontCare? && fixed.filter045.DontCare?
    && fixed.verbatim.DontCare?
  }

  /** The settings ask for what the filter wants. */
  predicate Asks(s: Settings, f: Filter) {
    var w := FromFilter(f);
    && s.filter111718 == w.filter111718 && s.crcDisable == w.crcDisable && s.gpsTimestamps == w.gpsTimestamps
    && s.fecDisable == w.fecDisable && s.modeacEnable == w.modeacEnable && s.filter045 == w.filter045
    && s.verbatim == w.verbatim
  }

  /**
   * What is lost on a connection: status messages for a Beast's client; and DF0, DF4 and DF5, when GPS timestamps are
   * asked for with a G that the client, which is not a Radarcape's, takes for the filter of these messages.
   */
  predicate LostUpstream(radarcape: bool, client: Tristate, f: Filter, m: Frame) {
    || (m.kind.Status? && client.Off?)
    || (radarcape && !client.On? && f.receiveGpsTimestamps && Df(m) in {0, 4, 5})
  }

  /** The fields of a filter that Accepts looks at, except for downlink formats. */
  lemma TransmittedSuffices(f: Filter, s: Settings, t: Settings)
    requires Aggregate(f) && Asks(s, f)
    ensures var g := ToFilter(Transmitted(s, t));
      && (f.receiveModeac ==> g.receiveModeac)
      && (f.receiveBadCrc ==> g.receiveBadCrc)
      && (f.receiveFec ==> g.receiveFec)
      && (f.receiveVerbatim ==> g.receiveVerbatim)
      && g.receiveStatus == !t.radarcape.Off?
  {}

  lemma TransmittedFormats(f: Filter, s: Settings, t: Settings, df: nat)
    requires Aggregate(f) && SelfConsistent(t) && Asks(s, f) && !s.radarcape.DontCare?
    requires df < 32 && f.receiveDf[df]
    ensures ToFilter(Transmitted(s, t)).receiveDf[df] <==>
      !(s.Radarcape() && !t.radarcape.On? && f.receiveGpsTimestamps && df in {0, 4, 5})
  {}

  /** Whatever the receiver types on the two sides, the upstream filter accepts all that f accepts but what is lost. */
  lemma TransmittedAccepts(f: Filter, s: Settings, t: Settings, m: Frame)
    requires Aggregate(f) && SelfConsistent(t) && Asks(s, f) && !s.radarcape.DontCare?
    requires Accepts(f, m)
    ensures Accepts(ToFilter(Transmitted(s, t)), m) <==> !LostUpstream(s.Radarcape(), t.radarcape, f, m)
  {
    TransmittedSuffices(f, s, t);
    if Df(m) >= 0 {
      TransmittedFormats(f, s, t, Df(m));
    }
    hide ToFilter, FromFilter, Transmitted, SelfConsistent, CrcBad, CrcCorrectable;
  }

  /**
   * The documented chain loses messages: a listener without B or R forwards status messages, so that the splitter
   * behind it takes it for a Radarcape and asks for GPS timestamps - and gets no DF0, DF4 or DF5.
   */
  lemma OpenReceiverLoses(m: Frame)
    requires m.kind.ModeSShort? && Df(m) in {0, 4, 5}
    ensures var f := ToFilter(UNSET);
      var s := FromFilter(f).(radarcape := On, binaryFormat := On);
      && f.receiveStatus
      && Accepts(f, m)
      && ToMessage(s).Some?
      && !Accepts(ToFilter(ReadBytes(Reader(Find1A, UNSET), ToMessage(s).value).settings), m)
  {
    var f := ToFilter(UNSET);
    var s := FromFilter(f).(radarcape := On, binaryFormat := On);
    AlwaysExplicit(s);
    MessageRoundTrip(s, UNSET);
    assert Aggregate(f) && f.receiveGpsTimestamps;
    hide ToMessage, ReadBytes, ToFilter, FromFilter, Transmitted;
    TransmittedAccepts(f, s, UNSET, m);
  }

  // ----- what a live client behind the connection gets

  /** Some live client of the downstream splitter accepts the message, after any events from clients. */
  ghost predicate Wanted(events: seq<Distributor.Event>, h: nat, m: Frame) {
    && (forall i :: 0 <= i < |events| ==> ClientEvent(events[i]))
    && Distributor.Live(Distributor.Run(events), h)
    && Accepts(Distributor.Run(events).clients[h].filter, m)
  }

  /** A frame of the wrong length that upstream correction turned into one that a filter for good data rejects. */
  ghost predicate LostInRepair(u: Settings, g: Filter, m: Frame) {
    ModeS(m) && Repaired(u, m) && !LengthSuitsDf(m) && !g.receiveBadCrc && !g.receiveVerbatim
  }

  /** The message passes the upstream client's filter, and what is then sent passes the downstream client's. */
  ghost predicate Reaches(u: Settings, g: Filter, m: Frame)
    requires Writable(u, m)
  {
    Accepts(ToFilter(u), m) && Accepts(g, Sent(u, m))
  }

  /**
   * When an upstream client with receiver type t has read commands for the filter f: its own filter passes exactly
   * what is not lost there, and a downstream client with filter g is reached by exactly what is not lost at all.
   */
  ghost predicate Serves(r: Reader, radarcape: bool, t: Tristate, f: Filter, g: Filter, m: Frame) {
    && r.state == Find1A
    && r.settings.radarcape == t
    && (Accepts(ToFilter(r.settings), m) <==> !LostUpstream(radarcape, t, f, m))
    && (Writable(r.settings, m) ==>
          (Reaches(r.settings, g, m) <==> !LostUpstream(radarcape, t, f, m) && !LostInRepair(r.settings, g, m)))
  }

  lemma TransmittedServes(f: Filter, g: Filter, s: Settings, t: Settings, m: Frame)
    requires Aggregate(f) && SelfConsistent(t) && Asks(s, f) && !s.radarcape.DontCare?
    requires Accepts(f, m) && Accepts(g, m)
    ensures Serves(Reader(Find1A, Transmitted(s, t)), s.Radarcape(), t.radarcape, f, g, m)
  {
    var u := Transmitted(s, t);
    TransmittedAccepts(f, s, t, m);
    assert u.radarcape == t.radarcape;
    hide Transmitted, ToFilter, FromFilter, Accepts, Sent, Writable, LostUpstream;
    if Writable(u, m) {
      StillAccepted(g, u, m);
    }
  }

  /**
   * The downstream splitter has seen any events from clients with settings filters; its input, without forced
   * message selection, has sent what it wants for the published filter; the upstream splitter reads those bytes in
   * any chunks on a client with any self-consistent settings. Then of the messages that a live downstream client
   * accepts, exactly those reach it that are not lost on the connection or in upstream error correction.
   */
  lemma ChainLosesExactly(events: seq<Distributor.Event>, h: nat, m: Frame, link: Link.Link,
                          t: Settings, chunks: seq<Bytes>)
    requires Wanted(events, h, m)
    requires link.kind.NetInput? && FiltersUnforced(link.fixed)
    requires link.filter == Distributor.Run(events).published && link.current == Link.Desired(link)
    requires SelfConsistent(t)
    requires ToMessage(link.current) == Some(Flatten(chunks))
    ensures Serves(ReadChunks(Reader(Find1A, t), chunks), link.receiver.RadarcapeReceiver?, t.radarcape,
                   Distributor.Run(events).published, Distributor.Run(events).clients[h].filter, m)
  {
    var f := Distributor.Run(events).published;
    PublishedIsAggregate(events);
    Distributor.UpstreamServesClients(events, h, m);
    DesiredAsks(link);
    CommandsRoundTrip(link.current, t, chunks);
    hide Distributor.Run, Serves, Transmitted, Asks, Aggregate, SelfConsistent, ReadChunks, ToMessage;
    TransmittedServes(f, Distributor.Run(events).clients[h].filter, link.current, t, m);
  }

  // ----- the same over whole runs of the link

  predicate Printable(sent: seq<Settings>) {
    forall i | 0 <= i < |sent| :: ToMessage(sent[i]).Some?
  }

  /** What a link has written on its connection; settings that cannot be printed are never sent. */
  function Wire(sent: seq<Settings>): Bytes {
    if sent == [] then []
    else
      Wire(sent[..|sent| - 1]) +
      match ToMessage(sent[|sent| - 1])
      case None => []
      case Some(bytes) => bytes
  }

  lemma {:induction false} WireEnds(sent: seq<Settings>, t: Settings) returns (u: Settings)
    requires Printable(sent)
    ensures ReadBytes(Reader(Find1A, t), Wire(sent)) == Reader(Find1A, u)
  {
    if sent == [] {
      u := t;
    } else {
      hide ToMessage;
      var n := |sent| - 1;
      var before := WireEnds(sent[..n], t);
      u := Transmitted(sent[n], before);
      MessageRoundTrip(sent[n], before);
      ReadBytesConcat(Reader(Find1A, t), Wire(sent[..n]), ToMessage(sent[n]).value);
    }
  }

  /** The last message decides, whatever receiver types the ones before it were printed for. */
  lemma WireDecides(sent: seq<Settings>, t: Settings) returns (before: Settings)
    requires Printable(sent) && sent != [] && SelfConsistent(t)
    ensures SelfConsistent(before) && before.radarcape == t.radarcape
    ensures ReadBytes(Reader(Find1A, t), Wire(sent)) == Reader(Find1A, Transmitted(sent[|sent| - 1], before))
  {
    var n, r := |sent| - 1, Reader(Find1A, t);
    before := WireEnds(sent[..n], t);
    assert ToMessage(sent[n]).Some?;
    CommandsKeepConsistent(r, Wire(sent[..n]));
    AlwaysExplicit(sent[n]);
    hide ToMessage, Transmitted, SelfConsistent;
    MessageRoundTrip(sent[n], before);
    ReadBytesConcat(r, Wire(sent[..n]), ToMessage(sent[n]).value);
  }

  lemma AlwaysExplicit(s: Settings)
    ensures ToMessage(s).Some? <==> !s.radarcape.DontCare?
  {}

  /** A network link without forced message selection, before its first connection. */
  predicate Fresh(l: Link.Link) {
    l.kind.NetInput? && FiltersUnforced(l.fixed) && l.current == UNSET && l.sent == []
  }

  /** A run from a connect on, in which all writes succeed. */
  predicate Connected(happened: seq<(Link.Event, bool)>) {
    |happened| > 0 && happened[0].0.Connected? && forall i :: 0 <= i < |happened| ==> happened[i].1
  }

  /**
   * The same over any run of the downstream link from a connect on, with writes succeeding, when the upstream splitter
   * has read all that was written, in any chunks.
   */
  lemma ChainedRunLosesExactly(events: seq<Distributor.Event>, h: nat, m: Frame,
                               start: Link.Link, happened: seq<(Link.Event, bool)>, t: Settings, chunks: seq<Bytes>)
    requires Wanted(events, h, m) && Fresh(start) && Connected(happened)
    requires Link.Run(start, happened).filter == Distributor.Run(events).published
    requires SelfConsistent(t)
    requires Flatten(chunks) == Wire(Link.Run(start, happened).sent)
    ensures Serves(ReadChunks(Reader(Find1A, t), chunks), Link.Run(start, happened).receiver.RadarcapeReceiver?,
                   t.radarcape, Distributor.Run(events).published, Distributor.Run(events).clients[h].filter, m)
  {
    var link, f := Link.Run(start, happened), Distributor.Run(events).published;
    PublishedIsAggregate(events);
    Distributor.UpstreamServesClients(events, h, m);
    Link.RunKeepsInv(start, happened);
    Link.StaysCurrent(start, happened);
    Link.RunKeepsFixed(start, happened);
    DesiredAsks(link);
    SentExplicit(link);
    hide Link.Run, Distributor.Run, Serves, Accepts, Transmitted, ToMessage, SelfConsistent, Aggregate, Asks, Link.Desired;
    ReadChunksIsReadBytes(Reader(Find1A, t), chunks);
    var before := WireDecides(link.sent, t);
    TransmittedServes(f, Distributor.Run(events).clients[h].filter, link.current, before, m);
  }

  lemma SentExplicit(link: Link.Link)
    requires Link.Inv(link)
    ensures Printable(link.sent)
  {}

  lemma DesiredAsks(link: Link.Link)
    requires link.kind.NetInput? && FiltersUnforced(link.fixed)
    ensures Asks(Link.Desired(link), link.filter)
    ensures Link.Desired(link).radarcape == Explicit(link.receiver.RadarcapeReceiver?)
  {
    hide FromFilter;
  }
}
