// beast_input.cc: how an input keeps the receiver (or the next splitter)
// configured for the current filter, across reconnects and autodetection.
module Link {
  import opened BitStrings
  import opened Common
  import opened Filters
  import opened Settings
  import opened Commands

  datatype Receiver = UnknownReceiver | BeastReceiver | RadarcapeReceiver

  /** The input subclasses differ in apply_connection_settings. */
  datatype InputKind = NetInput | SerialInput

  /** sent lists the settings written on the current connection. */
  datatype Link = Link(kind: InputKind, fixed: Settings, filter: Filter, receiver: Receiver,
                       current: Settings, sent: seq<Settings>)

  /** The settings that send_settings_message wants the other side to have. */
  function Desired(l: Link): Settings {
    var s := Merge(l.fixed, FromFilter(l.filter)).(
      radarcape := Explicit(l.receiver.RadarcapeReceiver?),
      binaryFormat := On);
    ApplyConnectionSettings(l.kind, s)
  }

  /** Serial inputs always ask for RTS/CTS and never send v or V. */
  function ApplyConnectionSettings(kind: InputKind, s: Settings): Settings {
    match kind
    case NetInput => s
    case SerialInput => s.(rtsHandshake := On, verbatim := DontCare)
  }

  /** send_settings_message; writable says whether the low-level write is possible. */
  function Send(l: Link, writable: bool): Link {
    var s := Desired(l);
    if s == l.current || !writable then l
    else l.(current := s, sent := l.sent + [s])
  }

  datatype Event =
    | Connected
    | FilterChanged(filter: Filter)
    | AutodetectExpired
    | StatusReceived

  function ReceiverAtConnect(fixed: Settings): Receiver {
    match fixed.radarcape
    case On => RadarcapeReceiver
    case Off => BeastReceiver
    case DontCare => UnknownReceiver
  }

  function Step(l: Link, e: Event, writable: bool): Link {
    match e
    case Connected => Send(l.(receiver := ReceiverAtConnect(l.fixed), current := UNSET, sent := []), writable)
    case FilterChanged(f) => if f == l.filter then l else Send(l.(filter := f), writable)
    case AutodetectExpired => Send(l.(receiver := BeastReceiver), writable)
    case StatusReceived =>
      if l.receiver.RadarcapeReceiver? then l else Send(l.(receiver := RadarcapeReceiver), writable)
  }

  function Run(l: Link, events: seq<(Event, bool)>): Link {
    if events == [] then l
    else
      var (e, writable) := events[|events| - 1];
      Step(Run(l, events[..|events| - 1]), e, writable)
  }

  /** current is what was last written on this connection, and no write repeats the one before it. */
  ghost predicate Inv(l: Link) {
    && l.current == (if l.sent == [] then UNSET else l.sent[|l.sent| - 1])
    && (forall i :: 0 <= i < |l.sent| - 1 ==> l.sent[i] != l.sent[i + 1])
    && (forall i :: 0 <= i < |l.sent| ==> !l.sent[i].radarcape.DontCare? && l.sent[i] != UNSET)
  }

  lemma StepKeepsInv(l: Link, e: Event, writable: bool)
    requires Inv(l)
    ensures Inv(Step(l, e, writable))
  {
    hide FromFilter, Merge;
  }

  /** Over every run from a fresh input, whichever writes succeed. */
  lemma {:induction false} RunKeepsInv(l: Link, events: seq<(Event, bool)>)
    requires l.current == UNSET && l.sent == []
    ensures Inv(Run(l, events))
  {
    if events != [] {
      var (e, writable) := events[|events| - 1];
      RunKeepsInv(l, events[..|events| - 1]);
      StepKeepsInv(Run(l, events[..|events| - 1]), e, writable);
    }
  }

  /** Once connected, and while writes succeed, the link always has the settings wanted for the latest inputs. */
  lemma {:induction false} StaysCurrent(l: Link, events: seq<(Event, bool)>)
    requires |events| > 0 && events[0].0.Connected?
    requires forall i :: 0 <= i < |events| ==> events[i].1
    ensures Run(l, events).current == Desired(Run(l, events))
  {
    var init := events[..|events| - 1];
    if init != [] {
      StaysCurrent(l, init);
    }
    hide Desired, Step;
    StepStaysCurrent(Run(l, init), events[|events| - 1].0);
  }

  lemma StepStaysCurrent(l: Link, e: Event)
    requires e.Connected? || l.current == Desired(l)
    ensures Step(l, e, true).current == Desired(Step(l, e, true))
  {
    hide FromFilter, Merge;
  }

  lemma {:induction false} RunKeepsFixed(l: Link, events: seq<(Event, bool)>)
    ensures Run(l, events).kind == l.kind && Run(l, events).fixed == l.fixed
  {
    if events != [] { RunKeepsFixed(l, events[..|events| - 1]); }
  }

  /** What a single event sends: what is wanted then, if that is new and can be written; some events change nothing. */
  lemma SendsExactly(l: Link, e: Event, writable: bool)
    ensures var l' := Step(l, e, writable);
      var nothing := (e.FilterChanged? && e.filter == l.filter) || (e.StatusReceived? && l.receiver.RadarcapeReceiver?);
      var before := if e.Connected? then [] else l.sent;
      var known := if e.Connected? then UNSET else l.current;
      && (nothing ==> l' == l)
      && (!nothing ==>
            if writable && Desired(l') != known then l'.sent == before + [Desired(l')] && l'.current == Desired(l')
            else l'.sent == before && l'.current == known)
  {
    hide FromFilter, Merge;
  }

  /** Later events than the i-th leave the receiver type alone. */
  predicate LastAboutReceiver(events: seq<(Event, bool)>, i: nat) {
    && i < |events|
    && !events[i].0.FilterChanged?
    && forall k | i < k < |events| :: events[k].0.FilterChanged?
  }

  /** What the last event about the receiver type leaves: what is forced, a Beast, or a Radarcape. */
  predicate ReceiverFollows(e: Event, fixed: Settings, receiver: Receiver) {
    match e
    case Connected => (receiver.RadarcapeReceiver? <==> fixed.radarcape.On?) && (receiver.BeastReceiver? <==> fixed.radarcape.Off?)
    case AutodetectExpired => receiver.BeastReceiver?
    case StatusReceived => receiver.RadarcapeReceiver?
    case FilterChanged(_) => true
  }

  lemma AfterEvent(l: Link, e: Event, writable: bool)
    ensures var l' := Step(l, e, writable);
      && ReceiverFollows(e, l.fixed, l'.receiver)
      && (e.FilterChanged? ==> l'.receiver == l.receiver)
      && l'.filter == (if e.FilterChanged? then e.filter else l.filter)
  {
    hide Desired;
  }

  /** The same for the last event of a run. */
  lemma AfterLast(l: Link, events: seq<(Event, bool)>)
    requires events != []
    ensures var n := |events| - 1;
      var (before, after, e) := (Run(l, events[..n]), Run(l, events), events[n].0);
      && ReceiverFollows(e, l.fixed, after.receiver)
      && (e.FilterChanged? ==> after.receiver == before.receiver)
      && after.filter == (if e.FilterChanged? then e.filter else before.filter)
  {
    var n := |events| - 1;
    RunKeepsFixed(l, events[..n]);
    hide Step, ReceiverFollows;
    AfterEvent(Run(l, events[..n]), events[n].0, events[n].1);
  }

  /** The receiver type, from the events alone. */
  lemma {:induction false} ReceiverFromEvents(l: Link, events: seq<(Event, bool)>, i: nat)
    requires LastAboutReceiver(events, i)
    ensures ReceiverFollows(events[i].0, l.fixed, Run(l, events).receiver)
    decreases |events|
  {
    hide Run, ReceiverFollows;
    AfterLast(l, events);
    if i < |events| - 1 {
      ReceiverFromEvents(l, events[..|events| - 1], i);
    }
  }

  /** The filter is the one that was set last. */
  lemma {:induction false} FilterFromEvents(l: Link, events: seq<(Event, bool)>, i: nat)
    requires i < |events| && events[i].0.FilterChanged?
    requires forall k | i < k < |events| :: !events[k].0.FilterChanged?
    ensures Run(l, events).filter == events[i].0.filter
    decreases |events|
  {
    hide Run, ReceiverFollows;
    AfterLast(l, events);
    if i < |events| - 1 {
      FilterFromEvents(l, events[..|events| - 1], i);
    }
  }

  /** So the other side is addressed as a Radarcape exactly when that is forced or a status message came last. */
  lemma SentReceiverType(l: Link, events: seq<(Event, bool)>, i: nat)
    requires |events| > 0 && events[0].0.Connected?
    requires forall k :: 0 <= k < |events| ==> events[k].1
    requires LastAboutReceiver(events, i)
    ensures Run(l, events).current.radarcape ==
      Explicit(events[i].0.StatusReceived? || (events[i].0.Connected? && l.fixed.radarcape.On?))
  {
    ForcedSettingsPrevail(l, events);
    StaysCurrent(l, events);
    ReceiverFromEvents(l, events, i);
    hide Run, FromFilter;
  }

  /** A setting that is forced has the forced value. */
  predicate Keeps(forced: Tristate, sent: Tristate) {
    forced.DontCare? || sent == forced
  }

  /**
   * Whatever filters the clients ask for and whatever happens on a link, while writes succeed the other side has
   * every forced setting as it was forced. Binary format cannot be forced off, nor the receiver type chosen. Flow
   * control is always on for serial links, and as forced, or not mentioned, for others; verbatim is never sent on
   * serial links.
   */
  lemma ForcedSettingsPrevail(l: Link, events: seq<(Event, bool)>)
    requires |events| > 0 && events[0].0.Connected?
    requires forall i :: 0 <= i < |events| ==> events[i].1
    ensures var now, sent := Run(l, events), Run(l, events).current;
      && Keeps(l.fixed.filter111718, sent.filter111718)
      && Keeps(l.fixed.avrmlat, sent.avrmlat)
      && Keeps(l.fixed.crcDisable, sent.crcDisable)
      && Keeps(l.fixed.gpsTimestamps, sent.gpsTimestamps)
      && Keeps(l.fixed.fecDisable, sent.fecDisable)
      && Keeps(l.fixed.modeacEnable, sent.modeacEnable)
      && Keeps(l.fixed.filter045, sent.filter045)
      && sent.rtsHandshake == (if l.kind.SerialInput? then On else l.fixed.rtsHandshake)
      && (if l.kind.SerialInput? then sent.verbatim.DontCare? else Keeps(l.fixed.verbatim, sent.verbatim))
      && sent.binaryFormat.On? && (sent.radarcape.On? <==> now.receiver.RadarcapeReceiver?)
  {
    StaysCurrent(l, events);
    RunKeepsFixed(l, events);
    hide Run, FromFilter;
  }

  /** A reconnect forgets what was sent and detected before. */
  lemma ReconnectStartsAfresh(l: Link, l': Link, writable: bool)
    requires l.kind == l'.kind && l.fixed == l'.fixed && l.filter == l'.filter
    ensures Step(l, Connected, writable) == Step(l', Connected, writable)
    ensures writable ==> Step(l, Connected, writable).sent == [Desired(Step(l, Connected, writable))]
  {
    hide FromFilter, Merge;
  }

  lemma AlwaysPrintable(s: Settings)
    requires !s.radarcape.DontCare?
    ensures ToMessage(s).Some?
  {}

  class BeastInput {
    const kind: InputKind
    const fixed: Settings
    var filter: Filter
    var receiver: Receiver
    var current: Settings
    // the settings messages handed to low_level_write on this connection
    var sent: seq<Settings>
    var wire: seq<Bytes>

    function Abstract(): Link
      reads this
    {
      Link(kind, fixed, filter, receiver, current, sent)
    }

    ghost predicate Valid()
      reads this
    {
      && Inv(Abstract())
      && |wire| == |sent|
      && forall i :: 0 <= i < |sent| ==> ToMessage(sent[i]) == Some(wire[i])
    }

    constructor (kind: InputKind, fixed: Settings, filter: Filter)
      ensures Valid()
      ensures Abstract() == Link(kind, fixed, filter, UnknownReceiver, UNSET, [])
    {
      this.kind, this.fixed, this.filter := kind, fixed, filter;
      receiver, current, sent, wire := UnknownReceiver, UNSET, [], [];
    }

    method SendSettingsMessage(writable: bool)
      requires Valid()
      modifies this`current, this`sent, this`wire
      ensures Valid() && Abstract() == Send(old(Abstract()), writable)
    {
      var wanted := ComputeFromFilter(filter);
      var settings := Merge(fixed, wanted);
      hide FromFilter, Merge, ToMessage;
      settings := settings.(radarcape := Explicit(receiver.RadarcapeReceiver?));
      settings := settings.(binaryFormat := On);
      settings := ApplyConnectionSettings(kind, settings);
      if settings == current {
        return;
      }
      var message := ToMessage(settings);
      AlwaysPrintable(settings);
      if writable {
        current := settings;
        sent := sent + [settings];
        wire := wire + [message.value];
      }
    }

    method ConnectionEstablished(writable: bool)
      requires Valid()
      modifies this
      ensures Valid() && Abstract() == Step(old(Abstract()), Connected, writable)
    {
      current, sent, wire := UNSET, [], [];
      if fixed.radarcape.On? {
        receiver := RadarcapeReceiver;
      } else if fixed.radarcape.Off? {
        receiver := BeastReceiver;
      } else {
        receiver := UnknownReceiver;
      }
      SendSettingsMessage(writable);
    }

    method SetFilter(newFilter: Filter, writable: bool)
      requires Valid()
      modifies this
      ensures Valid() && Abstract() == Step(old(Abstract()), FilterChanged(newFilter), writable)
    {
      if filter != newFilter {
        filter := newFilter;
        SendSettingsMessage(writable);
      }
    }

    method AutodetectTimerExpired(writable: bool)
      requires Valid()
      modifies this
      ensures Valid() && Abstract() == Step(old(Abstract()), AutodetectExpired, writable)
    {
      receiver := BeastReceiver;
      SendSettingsMessage(writable);
    }

    method StatusMessageSeen(writable: bool)
      requires Valid()
      modifies this
      ensures Valid() && Abstract() == Step(old(Abstract()), StatusReceived, writable)
    {
      if !receiver.RadarcapeReceiver? {
        receiver := RadarcapeReceiver;
        SendSettingsMessage(writable);
      }
    }
  }
}
