// beast_input_serial.cc: how a serial input hunts for the baud rate, accepts
// it after enough good messages, and gives it up again.
module Autobaud {
  import opened BitStrings

  const STANDARD_RATES: seq<nat> := [3_000_000, 1_000_000]
  const BASE_INTERVAL := 1000
  const MAX_INTERVAL := 16000
  const GOOD_MESSAGES := 4
  const RESTART_BYTES := 1000

  /**
   * What happens, in order: Reset and Restart begin a hunt, Advanced is the move to the next rate, and Accepted ends
   * the hunt at the rate then in use.
   */
  datatype Entry =
    | Reset
    | Restart
    | Advanced
    | ConnectionStart
    | GoodMessage
    | SyncLost
    | Accepted
    | Dispatched

  datatype Serial = Serial(
    // rates are tried out, rather than one fixed
    auto: bool,
    // the receiver type is fixed by the settings
    receiverFixed: bool,
    autobauding: bool,
    index: nat,
    rate: nat,
    interval: nat,
    receiverKnown: bool,
    goodSync: bool,
    goodMessages: nat,
    badBytes: nat,
    log: seq<Entry>)

  function Start(fixedRate: nat, receiverFixed: bool): Serial {
    Serial(fixedRate == 0, receiverFixed, fixedRate == 0, 0,
           if fixedRate == 0 then STANDARD_RATES[0] else fixedRate,
           BASE_INTERVAL, false, false, 0, 0, [])
  }

  datatype Event =
    // try_to_connect; opens says whether the port can be opened and set up
    | TryConnect(opens: bool)
    | TimerExpired(opens: bool)
    // a complete message, or lost sync, in the bytes read
    | Frame(status: bool)
    | LostSync
    // the end of a read with n bytes after the last good message
    | ReadEnd(n: nat, opens: bool)
    | ReceiverDetected
    | IoError
    | Disconnected

  /** handle_error */
  function Fail(s: Serial): Serial {
    var t := s.(goodSync := false, log := s.log + [Reset]);
    if t.auto then t.(autobauding := true, interval := BASE_INTERVAL, index := 0, rate := STANDARD_RATES[0]) else t
  }

  /** try_to_connect and connection_established */
  function Connect(s: Serial, opens: bool): Serial {
    if opens then
      s.(receiverKnown := s.receiverFixed, goodSync := false, goodMessages := 0, badBytes := 0,
         log := s.log + [ConnectionStart])
    else Fail(s)
  }

  /** advance_autobaud */
  function Advance(s: Serial, opens: bool): Serial {
    if !s.autobauding || !s.auto then s
    else
      var wrap := s.index + 1 >= |STANDARD_RATES|;
      var index := if wrap then 0 else s.index + 1;
      var interval := if wrap then (if s.interval * 2 < MAX_INTERVAL then s.interval * 2 else MAX_INTERVAL)
                      else s.interval;
      Connect(s.(index := index, rate := STANDARD_RATES[index], interval := interval, log := s.log + [Advanced]),
              opens)
  }

  /** saw_good_message, then dispatch_message */
  function Good(s: Serial, status: bool): Serial {
    var t := Counting(s);
    var u := t.(receiverKnown := t.receiverKnown || status);
    if !u.autobauding && u.receiverKnown then u.(log := u.log + [Dispatched]) else u
  }

  function Counting(s: Serial): Serial {
    var t := s.(goodSync := true, goodMessages := s.goodMessages + 1, badBytes := 0, log := s.log + [GoodMessage]);
    if t.autobauding && t.goodMessages >= GOOD_MESSAGES then t.(autobauding := false, log := t.log + [Accepted])
    else t
  }

  /** The count at the end of parse_input, then check_framing_errors. */
  function AfterRead(s: Serial, n: nat, opens: bool): Serial {
    var t := if s.goodSync then s else s.(badBytes := s.badBytes + n);
    if !t.autobauding && !t.goodSync && t.badBytes > RESTART_BYTES && t.auto then
      Advance(t.(autobauding := true, log := t.log + [Restart]), opens)
    else t
  }

  /** Any event may follow any other; bytes that were read before an I/O error may be parsed after it. */
  function Step(s: Serial, e: Event): Serial {
    match e
    case TryConnect(opens) => Connect(s, opens)
    case TimerExpired(opens) => Advance(s, opens)
    case Frame(status) => Good(s, status)
    case LostSync => s.(goodSync := false, goodMessages := 0, log := s.log + [SyncLost])
    case ReadEnd(n, opens) => AfterRead(s, n, opens)
    case ReceiverDetected => s.(receiverKnown := true)
    case IoError => Fail(s)
    case Disconnected => s.(goodSync := false)
  }

  // ----- what the log says

  predicate HuntStarts(e: Entry) {
    e.Reset? || e.Restart?
  }

  /** The rate accepted at entry a is still in force at the end: no hunt has started and no rate was tried since. */
  predicate InForce(log: seq<Entry>, a: nat) {
    && a < |log|
    && log[a].Accepted?
    && forall i | a < i < |log| :: !HuntStarts(log[i]) && !log[i].Advanced?
  }

  /** The last four things that happened are messages: four in a row, on one connection, without lost sync. */
  predicate FourInARow(log: seq<Entry>) {
    |log| >= 4 && forall i | |log| - 4 <= i < |log| :: log[i].GoodMessage?
  }

  /** The rate in force was accepted after four messages in a row. */
  ghost predicate Earned(log: seq<Entry>) {
    exists a: nat :: InForce(log, a) && FourInARow(log[..a])
  }

  /** The count that saw_good_message compares with four: messages since the last connection start or lost sync. */
  function Counted(log: seq<Entry>): nat {
    if log == [] then 0
    else
      match log[|log| - 1]
      case ConnectionStart => 0
      case SyncLost => 0
      case GoodMessage => Counted(log[..|log| - 1]) + 1
      case _ => Counted(log[..|log| - 1])
  }

  /** The part of that count that is from before the hunt: starting a hunt does not reset it. */
  function CarriedOver(log: seq<Entry>): nat {
    if log == [] then 0
    else
      match log[|log| - 1]
      case ConnectionStart => 0
      case SyncLost => 0
      case Reset => Counted(log[..|log| - 1])
      case Restart => Counted(log[..|log| - 1])
      case _ => CarriedOver(log[..|log| - 1])
  }

  /** At every acceptance, four messages in a row have come exactly if none was carried over into the hunt. */
  ghost predicate AcceptedRightly(log: seq<Entry>) {
    forall a | 0 <= a < |log| && log[a].Accepted? :: AcceptedAfter(log[..a])
  }

  predicate AcceptedAfter(log: seq<Entry>) {
    log != [] && log[|log| - 1].GoodMessage? && (FourInARow(log) <==> CarriedOver(log) == 0)
  }

  ghost predicate Settled(log: seq<Entry>) {
    exists a: nat :: InForce(log, a)
  }

  /** Nothing is dispatched but at an accepted rate. */
  ghost predicate DispatchedSettled(log: seq<Entry>) {
    forall d | 0 <= d < |log| && log[d].Dispatched? :: Settled(log[..d])
  }

  /** The moves to another rate since the last I/O error. */
  function Advances(log: seq<Entry>): nat {
    if log == [] || log[|log| - 1].Reset? then 0
    else Advances(log[..|log| - 1]) + if log[|log| - 1].Advanced? then 1 else 0
  }

  function IntervalAfter(cycles: nat): nat {
    var n := BASE_INTERVAL * Pow2(cycles);
    if n < MAX_INTERVAL then n else MAX_INTERVAL
  }

  /** Exactly the last n entries are messages; more than that there may be only if nothing was carried over. */
  predicate Fresh(log: seq<Entry>, n: nat) {
    && n <= |log|
    && (forall i | |log| - n <= i < |log| :: log[i].GoodMessage?)
    && (CarriedOver(log) > 0 ==> n < |log| && !log[|log| - n - 1].GoodMessage?)
  }

  /** During a hunt, the messages that were not carried over are the last things that happened. */
  predicate Hunted(log: seq<Entry>) {
    var n := Counted(log) - CarriedOver(log);
    && n >= 0
    && Fresh(log, n)
    && (Counted(log) < GOOD_MESSAGES || n == 0)
    && (Counted(log) >= GOOD_MESSAGES ==> CarriedOver(log) > 0)
  }

  predicate RatesFollow(s: Serial) {
    && s.index == Advances(s.log) % 2
    && s.rate == STANDARD_RATES[s.index]
    && s.interval == IntervalAfter(Advances(s.log) / 2)
  }

  ghost predicate Inv(s: Serial) {
    s.auto ==>
      && RatesFollow(s)
      && s.goodMessages == Counted(s.log)
      && AcceptedRightly(s.log)
      && DispatchedSettled(s.log)
      && if s.autobauding then Hunted(s.log) else Settled(s.log)
  }

  lemma IntervalDoubles(k: nat)
    ensures IntervalAfter(k + 1) ==
      if IntervalAfter(k) * 2 < MAX_INTERVAL then IntervalAfter(k) * 2 else MAX_INTERVAL
  {}

  /** One more entry in the log. */
  lemma Logged(log: seq<Entry>, e: Entry)
    ensures Advances(log + [e]) == if e.Reset? then 0 else Advances(log) + if e.Advanced? then 1 else 0
    ensures Counted(log + [e]) ==
      if e.ConnectionStart? || e.SyncLost? then 0 else Counted(log) + if e.GoodMessage? then 1 else 0
    ensures CarriedOver(log + [e]) ==
      if e.ConnectionStart? || e.SyncLost? then 0 else if HuntStarts(e) then Counted(log) else CarriedOver(log)
  {
    assert (log + [e])[..|log|] == log;
  }

  lemma SettledKept(log: seq<Entry>, e: Entry)
    requires e.Accepted? || (Settled(log) && !HuntStarts(e) && !e.Advanced?)
    ensures Settled(log + [e])
  {
    if e.Accepted? {
      assert InForce(log + [e], |log|);
    } else {
      var a: nat :| InForce(log, a);
      assert InForce(log + [e], a);
    }
  }

  /** The history is as it should be, if the new entry is. */
  lemma HistoryKept(log: seq<Entry>, e: Entry)
    requires AcceptedRightly(log) && DispatchedSettled(log)
    requires e.Accepted? ==> AcceptedAfter(log)
    requires e.Dispatched? ==> Settled(log)
    ensures AcceptedRightly(log + [e]) && DispatchedSettled(log + [e])
  {
    hide AcceptedAfter, Settled;
    forall i | 0 <= i < |log + [e]|
      ensures (log + [e])[i].Accepted? ==> AcceptedAfter((log + [e])[..i])
      ensures (log + [e])[i].Dispatched? ==> Settled((log + [e])[..i])
    {
      assert (log + [e])[..i] == if i < |log| then log[..i] else log;
    }
  }

  /** A hunt that starts, or starts over, has nothing fresh. */
  lemma HuntedFromStart(log: seq<Entry>, e: Entry)
    requires HuntStarts(e) || e.ConnectionStart? || e.SyncLost?
    ensures Hunted(log + [e])
  {
    Logged(log, e);
    assert !(log + [e])[|log|].GoodMessage?;
  }

  lemma HuntedByMessage(log: seq<Entry>)
    requires Hunted(log)
    ensures var next := log + [GoodMessage];
      if Counted(next) >= GOOD_MESSAGES then AcceptedAfter(next) else Hunted(next)
  {
    var next, n := log + [GoodMessage], Counted(log) - CarriedOver(log);
    Logged(log, GoodMessage);
    hide Counted, CarriedOver;
    assert forall i | 0 <= i < |log| :: next[i] == log[i];
    assert Fresh(next, n + 1);
    if Counted(next) >= GOOD_MESSAGES && CarriedOver(next) > 0 {
      assert !next[|next| - n - 2].GoodMessage?;
    }
  }

  lemma FailKeepsInv(s: Serial)
    requires s.auto ==> s.goodMessages == Counted(s.log) && AcceptedRightly(s.log) && DispatchedSettled(s.log)
    ensures Inv(Fail(s))
  {
    hide AcceptedRightly, DispatchedSettled, Hunted;
    Logged(s.log, Reset);
    if s.auto {
      HistoryKept(s.log, Reset);
      HuntedFromStart(s.log, Reset);
    }
  }

  lemma ConnectKeepsInv(s: Serial, opens: bool)
    requires s.auto ==>
      && RatesFollow(s) && s.goodMessages == Counted(s.log)
      && AcceptedRightly(s.log) && DispatchedSettled(s.log) && (s.autobauding || Settled(s.log))
    ensures Inv(Connect(s, opens))
  {
    hide AcceptedRightly, DispatchedSettled, Hunted, Settled, IntervalAfter;
    Logged(s.log, ConnectionStart);
    FailKeepsInv(s);
    if s.auto {
      HistoryKept(s.log, ConnectionStart);
      HuntedFromStart(s.log, ConnectionStart);
      if !s.autobauding { SettledKept(s.log, ConnectionStart); }
    }
  }

  lemma AdvanceKeepsInv(s: Serial, opens: bool)
    requires s.auto && s.autobauding ==>
      && RatesFollow(s) && s.goodMessages == Counted(s.log)
      && AcceptedRightly(s.log) && DispatchedSettled(s.log)
    requires !s.auto || !s.autobauding ==> Inv(s)
    ensures Inv(Advance(s, opens))
  {
    hide AcceptedRightly, DispatchedSettled, Settled, Hunted, IntervalAfter, Connect;
    if s.auto && s.autobauding {
      Logged(s.log, Advanced);
      HistoryKept(s.log, Advanced);
      var n := Advances(s.log);
      IntervalDoubles(n / 2);
      assert (n + 1) % 2 == (if n % 2 == 1 then 0 else 1) && (n + 1) / 2 == n / 2 + n % 2;
      var index := if s.index == 1 then 0 else 1;
      var interval := IntervalAfter((n + 1) / 2);
      ConnectKeepsInv(s.(index := index, rate := STANDARD_RATES[index], interval := interval,
                         log := s.log + [Advanced]), opens);
    }
  }

  lemma CountingKeepsInv(s: Serial)
    requires Inv(s)
    ensures Inv(Counting(s))
  {
    hide AcceptedRightly, DispatchedSettled, Settled, Hunted, IntervalAfter, AcceptedAfter;
    var log := s.log + [GoodMessage];
    Logged(s.log, GoodMessage);
    Logged(log, Accepted);
    if s.auto {
      HistoryKept(s.log, GoodMessage);
      if s.autobauding {
        HuntedByMessage(s.log);
        if s.goodMessages + 1 >= GOOD_MESSAGES {
          HistoryKept(log, Accepted);
          SettledKept(log, Accepted);
        }
      } else {
        SettledKept(s.log, GoodMessage);
      }
    }
  }

  lemma GoodKeepsInv(s: Serial, status: bool)
    requires Inv(s)
    ensures Inv(Good(s, status))
  {
    hide AcceptedRightly, DispatchedSettled, Settled, Hunted, IntervalAfter, Counting;
    CountingKeepsInv(s);
    var t := Counting(s);
    Logged(t.log, Dispatched);
    if t.auto && !t.autobauding {
      HistoryKept(t.log, Dispatched);
      SettledKept(t.log, Dispatched);
    }
  }

  lemma LostSyncKeepsInv(s: Serial)
    requires Inv(s)
    ensures Inv(Step(s, LostSync))
  {
    hide AcceptedRightly, DispatchedSettled, Settled, Hunted, IntervalAfter;
    Logged(s.log, SyncLost);
    if s.auto {
      HistoryKept(s.log, SyncLost);
      HuntedFromStart(s.log, SyncLost);
      if !s.autobauding { SettledKept(s.log, SyncLost); }
    }
  }

  lemma AfterReadKeepsInv(s: Serial, n: nat, opens: bool)
    requires Inv(s)
    ensures Inv(AfterRead(s, n, opens))
  {
    hide AcceptedRightly, DispatchedSettled, Settled, Hunted, IntervalAfter, Advance;
    Logged(s.log, Restart);
    if s.auto && !s.autobauding && !s.goodSync {
      HistoryKept(s.log, Restart);
      AdvanceKeepsInv(s.(badBytes := s.badBytes + n, autobauding := true, log := s.log + [Restart]), opens);
    }
  }

  lemma StepKeepsInv(s: Serial, e: Event)
    requires Inv(s)
    ensures Inv(Step(s, e))
  {
    match e {
      case TryConnect(opens) => ConnectKeepsInv(s, opens);
      case TimerExpired(opens) => AdvanceKeepsInv(s, opens);
      case Frame(status) => GoodKeepsInv(s, status);
      case LostSync => LostSyncKeepsInv(s);
      case ReadEnd(n, opens) => AfterReadKeepsInv(s, n, opens);
      case ReceiverDetected =>
      case IoError => FailKeepsInv(s);
      case Disconnected =>
    }
  }

  // ----- what single events do

  /**
   * The other rate is tried, on a new connection and with a longer interval after a full cycle; or everything starts
   * over, if the port does not open.
   */
  predicate MovedOn(s: Serial, t: Serial, opens: bool) {
    && t.autobauding
    && (opens ==>
          && t.rate == (if s.rate == 3_000_000 then 1_000_000 else 3_000_000)
          && t.interval == (if s.rate == 3_000_000 || s.interval == 16000 then s.interval
                            else if s.interval < 8000 then 2 * s.interval else 16000)
          && t.goodMessages == 0 && !t.goodSync && t.badBytes == 0)
    && (!opens ==> t.rate == 3_000_000 && t.interval == 1000)
  }

  /** When the timer expires during a hunt, the hunt moves on. */
  lemma TimerMovesOn(s: Serial, opens: bool)
    requires s.auto && s.autobauding && Inv(s)
    ensures MovedOn(s, Step(s, TimerExpired(opens)), opens)
  {
    IntervalBounded(Advances(s.log) / 2);
    hide IntervalAfter, Advances, AcceptedRightly, DispatchedSettled, Hunted, Settled;
  }

  lemma IntervalBounded(k: nat)
    ensures IntervalAfter(k) <= 16000
  {}

  /** Otherwise the timer does nothing. */
  lemma TimerIgnored(s: Serial, opens: bool)
    requires !s.auto || !s.autobauding
    ensures Step(s, TimerExpired(opens)) == s
  {}

  /** A hunt begins, by moving on, at the end of a read exactly if more than 1000 bytes have come without good sync. */
  lemma HuntRestarts(s: Serial, n: nat, opens: bool)
    requires s.auto && !s.autobauding && Inv(s)
    ensures var t := Step(s, ReadEnd(n, opens));
      && (t.autobauding <==> !s.goodSync && s.badBytes + n > 1000)
      && (t.autobauding ==> MovedOn(s, t, opens))
      && (!t.autobauding ==> t == s.(badBytes := if s.goodSync then s.badBytes else s.badBytes + n))
  {
    IntervalBounded(Advances(s.log) / 2);
    hide IntervalAfter, Advances, AcceptedRightly, DispatchedSettled, Settled;
  }

  /** The end of a read during a hunt, or at a fixed rate, only counts. */
  lemma ReadOnlyCounts(s: Serial, n: nat, opens: bool)
    requires !s.auto || s.autobauding
    ensures Step(s, ReadEnd(n, opens)) == s.(badBytes := if s.goodSync then s.badBytes else s.badBytes + n)
  {}

  /** Every message sets good sync; the fourth one ends a hunt, and what is dispatched comes after that. */
  lemma MessageCounts(s: Serial, status: bool)
    ensures var t := Step(s, Frame(status));
      && t.goodSync && t.goodMessages == s.goodMessages + 1 && t.badBytes == 0
      && (t.autobauding <==> s.autobauding && s.goodMessages < 3)
      && (t.receiverKnown <==> s.receiverKnown || status)
      && t.rate == s.rate && t.interval == s.interval
      && (t.log[|t.log| - 1].Dispatched? <==> !t.autobauding && t.receiverKnown)
  {}

  /** An I/O error, or a port that does not open, starts the hunt over; fixed rates are kept. */
  lemma ErrorStartsOver(s: Serial)
    ensures Step(s, TryConnect(false)) == Step(s, IoError)
    ensures var t := Step(s, IoError);
      && !t.goodSync && t.goodMessages == s.goodMessages
      && (s.auto ==> t.autobauding && t.rate == 3_000_000 && t.interval == 1000)
      && (!s.auto ==> t.autobauding == s.autobauding && t.rate == s.rate && t.interval == s.interval)
  {}

  /** Losing the connection loses good sync; lost sync the count as well; and the receiver type may become known. */
  lemma OtherEvents(s: Serial)
    ensures Step(s, Disconnected) == s.(goodSync := false)
    ensures Step(s, LostSync) == s.(goodSync := false, goodMessages := 0, log := s.log + [SyncLost])
    ensures Step(s, ReceiverDetected) == s.(receiverKnown := true)
  {}

  /** A new input hunts exactly if no rate is fixed; nothing is known or counted. */
  lemma NewInput(fixedRate: nat, receiverFixed: bool)
    ensures var s := Start(fixedRate, receiverFixed);
      && (s.autobauding <==> s.auto) && (s.auto <==> fixedRate == 0)
      && s.rate == (if fixedRate == 0 then 3_000_000 else fixedRate) && s.interval == 1000
      && !s.receiverKnown && !s.goodSync && s.goodMessages == 0 && s.badBytes == 0 && s.log == []
  {}

  /** A connection starts with nothing counted, at the rate in use. */
  lemma ConnectionStartsAfresh(s: Serial)
    ensures var t := Step(s, TryConnect(true));
      && !t.goodSync && t.goodMessages == 0 && t.badBytes == 0 && t.receiverKnown == s.receiverFixed
      && t.autobauding == s.autobauding && t.rate == s.rate && t.interval == s.interval
  {}

  // ----- whole runs

  function Run(s: Serial, events: seq<Event>): Serial {
    if events == [] then s
    else Step(Run(s, events[..|events| - 1]), events[|events| - 1])
  }

  /**
   * With automatic rates, over every run: the rate is always the list entry reached by the moves since the last I/O
   * error, the interval doubles with every full cycle of the rates up to its maximum, and nothing is dispatched but
   * at a rate that was accepted and is still in force.
   */
  lemma {:induction false} RunIsSafe(receiverFixed: bool, events: seq<Event>)
    ensures var s := Run(Start(0, receiverFixed), events);
      s.auto && Inv(s) && RatesFollow(s) && DispatchedSettled(s.log)
  {
    var s := Start(0, receiverFixed);
    if events == [] {
      assert IntervalAfter(0) == BASE_INTERVAL;
    } else {
      hide Inv, Start, RatesFollow, DispatchedSettled, Step;
      var n := |events| - 1;
      RunIsSafe(receiverFixed, events[..n]);
      StepKeepsInv(Run(s, events[..n]), events[n]);
      StepKeepsAuto(Run(s, events[..n]), events[n]);
      InvMeans(Run(s, events));
    }
  }

  lemma InvMeans(s: Serial)
    requires Inv(s) && s.auto
    ensures RatesFollow(s) && DispatchedSettled(s.log) && AcceptedRightly(s.log)
  {}

  lemma StepKeepsAuto(s: Serial, e: Event)
    ensures Step(s, e).auto == s.auto
  {
    hide Start;
  }

  /**
   * A dispatched message was earned by four messages in a row, after which the rate was accepted that is still in
   * force, if and only if nothing that was counted before the hunt was carried over into it.
   */
  lemma EarnedExactly(receiverFixed: bool, events: seq<Event>, d: nat)
    requires d < |Run(Start(0, receiverFixed), events).log| && Run(Start(0, receiverFixed), events).log[d].Dispatched?
    ensures var log := Run(Start(0, receiverFixed), events).log[..d];
      Earned(log) <==> exists a: nat :: InForce(log, a) && CarriedOver(log[..a]) == 0
  {
    var s := Run(Start(0, receiverFixed), events);
    var log := s.log[..d];
    RunIsSafe(receiverFixed, events);
    InvMeans(s);
    hide Run, Start, Inv, FourInARow;
    forall a: nat | InForce(log, a) ensures FourInARow(log[..a]) <==> CarriedOver(log[..a]) == 0 {
      assert log[..a] == s.log[..a];
      assert AcceptedAfter(s.log[..a]);
    }
  }

  /** Between the start of a hunt and the next connection start or lost sync, no message is read. */
  predicate NothingLate(log: seq<Entry>) {
    forall h, g | 0 <= h < g < |log| && HuntStarts(log[h]) && log[g].GoodMessage? :: Cleared(log, h, g)
  }

  predicate Cleared(log: seq<Entry>, h: nat, g: nat)
    requires h < g < |log|
  {
    exists c | h < c < g :: log[c].ConnectionStart? || log[c].SyncLost?
  }

  lemma {:induction false} CarriedSince(log: seq<Entry>) returns (h: nat)
    requires CarriedOver(log) > 0
    ensures h < |log| && HuntStarts(log[h])
    ensures forall c | h < c < |log| :: !log[c].ConnectionStart? && !log[c].SyncLost?
  {
    var n := |log| - 1;
    if HuntStarts(log[n]) {
      h := n;
    } else {
      h := CarriedSince(log[..n]);
    }
  }

  /** So every dispatched message is earned, if no message is read between an I/O error and the next connection. */
  lemma EarnedUnlessLate(receiverFixed: bool, events: seq<Event>, d: nat)
    requires d < |Run(Start(0, receiverFixed), events).log| && Run(Start(0, receiverFixed), events).log[d].Dispatched?
    requires NothingLate(Run(Start(0, receiverFixed), events).log)
    ensures Earned(Run(Start(0, receiverFixed), events).log[..d])
  {
    RunIsSafe(receiverFixed, events);
    InvMeans(Run(Start(0, receiverFixed), events));
    hide Run, Start, Inv, Earned, NothingLate;
    EarnedInLog(Run(Start(0, receiverFixed), events).log, d);
  }

  lemma EarnedInLog(log: seq<Entry>, d: nat)
    requires AcceptedRightly(log) && DispatchedSettled(log) && NothingLate(log)
    requires d < |log| && log[d].Dispatched?
    ensures Earned(log[..d])
  {
    hide FourInARow, CarriedOver;
    assert Settled(log[..d]);
    var a: nat :| InForce(log[..d], a);
    assert log[..d][..a] == log[..a] && AcceptedAfter(log[..a]);
    if CarriedOver(log[..a]) > 0 {
      CarriedIsLate(log, a);
    }
  }

  lemma CarriedIsLate(log: seq<Entry>, a: nat)
    requires 0 < a < |log| && log[a - 1].GoodMessage? && CarriedOver(log[..a]) > 0
    ensures !NothingLate(log)
  {
    var h := CarriedSince(log[..a]);
    assert log[..a][h] == log[h] && log[..a][a - 1] == log[a - 1];
    assert !Cleared(log, h, a - 1);
  }

  /** A run in which it is not: a message that was read before an I/O error is parsed after it. */
  lemma LateMessage(receiverFixed: bool)
    ensures var events := [TryConnect(true), Frame(true), Frame(true), Frame(true), Frame(true), IoError, Frame(false)];
      var log := Run(Start(0, receiverFixed), events).log;
      && log == [ConnectionStart, GoodMessage, GoodMessage, GoodMessage, GoodMessage, Accepted, Dispatched,
                 Reset, GoodMessage, Accepted, Dispatched]
      && !Earned(log[..10])
  {
    var s0 := Start(0, receiverFixed);
    var e1 := [] + [TryConnect(true)];
    var e2, e3 := e1 + [Frame(true)], e1 + [Frame(true)] + [Frame(true)];
    var e4, e5 := e3 + [Frame(true)], e3 + [Frame(true)] + [Frame(true)];
    var e6, e7 := e5 + [IoError], e5 + [IoError] + [Frame(false)];
    var events := [TryConnect(true), Frame(true), Frame(true), Frame(true), Frame(true), IoError, Frame(false)];
    assert e7 == events;
    FirstSteps(s0);
    hide Run, Step, Start, Earned;
    RunSnoc(s0, [], TryConnect(true));
    RunSnoc(s0, e1, Frame(true));
    RunSnoc(s0, e2, Frame(true));
    RunSnoc(s0, e3, Frame(true));
    RunSnoc(s0, e4, Frame(true));
    RunSnoc(s0, e5, IoError);
    RunSnoc(s0, e6, Frame(false));
    LateLog(Run(s0, events).log);
  }

  lemma LateLog(log: seq<Entry>)
    requires log == [ConnectionStart, GoodMessage, GoodMessage, GoodMessage, GoodMessage, Accepted, Dispatched,
                     Reset, GoodMessage, Accepted, Dispatched]
    ensures !Earned(log[..10])
  {
    var before := log[..10];
    forall a: nat | InForce(before, a) ensures !FourInARow(before[..a]) {
      assert HuntStarts(before[7]);
      assert a == 9;
    }
  }

  lemma RunSnoc(s: Serial, events: seq<Event>, e: Event)
    ensures Run(s, []) == s
    ensures Run(s, events + [e]) == Step(Run(s, events), e)
  {
    assert (events + [e])[..|events|] == events;
  }

  lemma FirstSteps(s: Serial)
    requires s == Start(0, s.receiverFixed)
    ensures var t := Step(Step(Step(Step(Step(s, TryConnect(true)), Frame(true)), Frame(true)), Frame(true)), Frame(true));
      var g := GoodMessage;
      && t.log == [ConnectionStart, g, g, g, g, Accepted, Dispatched]
      && Step(Step(t, IoError), Frame(false)).log ==
           [ConnectionStart, g, g, g, g, Accepted, Dispatched, Reset, g, Accepted, Dispatched]
  {}

  // ----- the input as it is written

  class SerialInput {
    const rates: seq<nat>
    const receiverFixed: bool
    var autobauding: bool
    var autobaudRate: nat
    var baudRate: nat
    var interval: nat
    var receiverKnown: bool
    var goodSync: bool
    var goodMessages: nat
    var badBytes: nat
    ghost var log: seq<Entry>

    constructor (fixedBaudRate: nat, receiverFixed: bool)
      ensures Abstract() == Start(fixedBaudRate, receiverFixed) && Valid()
    {
      this.receiverFixed := receiverFixed;
      interval := BASE_INTERVAL;
      if fixedBaudRate == 0 {
        autobauding := true;
        rates := STANDARD_RATES;
        autobaudRate := 0;
        baudRate := STANDARD_RATES[0];
      } else {
        autobauding := false;
        rates := [];
        autobaudRate := 0;
        baudRate := fixedBaudRate;
      }
      receiverKnown, goodSync, goodMessages, badBytes, log := false, false, 0, 0, [];
    }

    ghost function Abstract(): Serial
      reads this
    {
      Serial(rates != [], receiverFixed, autobauding, autobaudRate, baudRate, interval,
             receiverKnown, goodSync, goodMessages, badBytes, log)
    }

    ghost predicate Valid()
      reads this
    {
      && (rates == [] || rates == STANDARD_RATES)
      && (rates == [] ==> !autobauding)
      && (rates != [] ==> autobaudRate < |rates|)
    }

    method HandleError()
      requires Valid()
      modifies this
      ensures Valid() && Abstract() == Fail(old(Abstract()))
    {
      goodSync := false;
      if rates != [] {
        autobauding := true;
        interval := BASE_INTERVAL;
        autobaudRate := 0;
        baudRate := rates[autobaudRate];
      }
      log := log + [Reset];
    }

    method TryToConnect(opens: bool)
      requires Valid()
      modifies this
      ensures Valid() && Abstract() == Connect(old(Abstract()), opens)
    {
      if !opens {
        HandleError();
        return;
      }
      receiverKnown := receiverFixed;
      goodSync, goodMessages, badBytes := false, 0, 0;
      log := log + [ConnectionStart];
    }

    method AdvanceAutobaud(opens: bool)
      requires Valid()
      modifies this
      ensures Valid() && Abstract() == Advance(old(Abstract()), opens)
    {
      if !autobauding {
        return;
      }
      autobaudRate := autobaudRate + 1;
      if autobaudRate == |rates| {
        interval := if MAX_INTERVAL < interval * 2 then MAX_INTERVAL else interval * 2;
        autobaudRate := 0;
      }
      baudRate := rates[autobaudRate];
      log := log + [Advanced];
      TryToConnect(opens);
    }

    method CheckFramingErrors(opens: bool)
      requires Valid()
      modifies this
      ensures Valid() && Abstract() == AfterRead(old(Abstract()), 0, opens)
    {
      if !autobauding && !goodSync && badBytes > RESTART_BYTES {
        if rates != [] {
          log := log + [Restart];
          autobauding := true;
          AdvanceAutobaud(opens);
        }
      }
    }

    method ReadDone(n: nat, opens: bool)
      requires Valid()
      modifies this
      ensures Valid() && Abstract() == Step(old(Abstract()), ReadEnd(n, opens))
    {
      if !goodSync {
        badBytes := badBytes + n;
      }
      CheckFramingErrors(opens);
    }

    method SawGoodMessage()
      requires Valid()
      modifies this`goodSync, this`goodMessages, this`badBytes, this`autobauding, this`log
      ensures Valid() && Abstract() == Counting(old(Abstract()))
    {
      goodSync, goodMessages, badBytes := true, goodMessages + 1, 0;
      log := log + [GoodMessage];
      if autobauding && goodMessages >= GOOD_MESSAGES {
        autobauding := false;
        log := log + [Accepted];
      }
    }

    predicate CanDispatch()
      reads this
    {
      !autobauding && receiverKnown
    }

    method MessageRead(status: bool)
      requires Valid()
      modifies this
      ensures Valid() && Abstract() == Step(old(Abstract()), Frame(status))
    {
      SawGoodMessage();
      if status {
        receiverKnown := true;
      }
      if CanDispatch() {
        log := log + [Dispatched];
      }
    }
  }
}
