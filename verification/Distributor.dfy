// modes_filter.cc, class FilterDistributor: clients with filters, the upstream
// filter that is published whenever the set of wishes changes, and broadcast,
// whose notifiers may themselves add, update and remove clients.
module Distributor {
  import opened Crc
  import opened Message
  import opened Filters

  datatype Client = Client(filter: Filter, deleted: bool)

  /** published is the filter last handed to the filter notifier, which is set before any client exists. */
  datatype State = State(clients: map<nat, Client>, nextHandle: nat, published: Filter)

  const INITIAL: State := State(map[], 0, Nothing())

  predicate Live(s: State, h: nat) {
    h in s.clients && !s.clients[h].deleted
  }

  /** The combination that update_upstream_filter computes, over the handles below n. */
  function JoinBelow(clients: map<nat, Client>, n: nat): Filter {
    if n == 0 then Nothing()
    else if n - 1 in clients && !clients[n - 1].deleted then Join(JoinBelow(clients, n - 1), clients[n - 1].filter)
    else JoinBelow(clients, n - 1)
  }

  function Publish(s: State): State {
    s.(published := JoinBelow(s.clients, s.nextHandle))
  }

  function Added(s: State, f: Filter): State {
    Publish(s.(clients := s.clients[s.nextHandle := Client(f, false)], nextHandle := s.nextHandle + 1))
  }

  function Updated(s: State, h: nat, f: Filter): State {
    if !Live(s, h) || s.clients[h].filter == f then s
    else Publish(s.(clients := s.clients[h := Client(f, false)]))
  }

  /** Removal leaves a tombstone; only broadcast erases it. */
  function Removed(s: State, h: nat): State {
    if !Live(s, h) then s
    else Publish(s.(clients := s.clients[h := s.clients[h].(deleted := true)]))
  }

  /** What one call on the distributor does; message notifiers perform sequences of these. */
  datatype Action = Add(filter: Filter) | Update(handle: nat, filter: Filter) | Remove(handle: nat)

  function Act(s: State, a: Action): State {
    match a
    case Add(f) => Added(s, f)
    case Update(h, f) => Updated(s, h, f)
    case Remove(h) => Removed(s, h)
  }

  function ActAll(s: State, actions: seq<Action>): State {
    if actions == [] then s else Act(ActAll(s, actions[..|actions| - 1]), actions[|actions| - 1])
  }

  /** script[h] is what the notifier of client h does when it receives the message being broadcast. */
  type Script = seq<seq<Action>>

  function ScriptOf(script: Script, h: nat): seq<Action> {
    if h < |script| then script[h] else []
  }

  ghost predicate Delivers(s: State, h: nat, m: Frame) {
    Live(s, h) && Accepts(s.clients[h].filter, m)
  }

  /** The turn of handle h in a broadcast: notify if live and accepting, then erase if deleted. */
  ghost function Turn(s: State, h: nat, m: Frame, script: Script): State {
    AfterTurn(s, h, m, ScriptOf(script, h))
  }

  ghost function AfterTurn(s: State, h: nat, m: Frame, actions: seq<Action>): State {
    var s' := if Delivers(s, h, m) then ActAll(s, actions) else s;
    if h in s'.clients && s'.clients[h].deleted then s'.(clients := s'.clients - {h}) else s'
  }

  /** The state after the turns of all handles below n, in handle order. */
  ghost function Turns(s: State, n: nat, m: Frame, script: Script): State {
    if n == 0 then s else Turn(Turns(s, n - 1, m, script), n - 1, m, script)
  }

  /** The handles below n that receive the message. */
  ghost function Delivered(s: State, n: nat, m: Frame, script: Script): seq<nat> {
    if n == 0 then []
    else
      Delivered(s, n - 1, m, script) + if Delivers(Turns(s, n - 1, m, script), n - 1, m) then [n - 1] else []
  }

  function Adds(actions: seq<Action>): nat {
    if actions == [] then 0
    else Adds(actions[..|actions| - 1]) + if actions[|actions| - 1].Add? then 1 else 0
  }

  /** How many clients the scripts of the handles from h on can still add. */
  function PendingAdds(script: Script, h: nat): nat
    decreases |script| - h
  {
    if h >= |script| then 0 else Adds(script[h]) + PendingAdds(script, h + 1)
  }

  /** A bound on the handles that a broadcast can visit. */
  function LastTurn(s: State, script: Script): nat {
    s.nextHandle + PendingAdds(script, 0)
  }

  ghost function AfterBroadcast(s: State, m: Frame, script: Script): State {
    Turns(s, LastTurn(s, script), m, script)
  }

  // ----- what one call does to each client

  /** The filter of a live client, as it is or with a change. */
  predicate KeepsFilter(s: State, s': State, k: nat) {
    k in s.clients && k in s'.clients && s'.clients[k].filter == s.clients[k].filter
  }

  /** Removing a client ends its life at once, and no other's. */
  lemma RemoveEndsOneLife(s: State, h: nat, k: nat)
    ensures Live(Act(s, Remove(h)), k) <==> Live(s, k) && k != h
    ensures Live(s, k) && k != h ==> KeepsFilter(s, Act(s, Remove(h)), k)
  {}

  /** An update gives a live client its new filter, and changes no other's; nobody's life starts or ends. */
  lemma UpdateChangesOneFilter(s: State, h: nat, f: Filter, k: nat)
    ensures Live(Act(s, Update(h, f)), k) <==> Live(s, k)
    ensures Live(s, h) ==> Act(s, Update(h, f)).clients[h].filter == f
    ensures Live(s, k) && k != h ==> KeepsFilter(s, Act(s, Update(h, f)), k)
  {}

  /** A new client gets a handle that was never used, and its filter. */
  lemma AddStartsOneLife(s: State, f: Filter, k: nat)
    requires forall h :: h in s.clients ==> h < s.nextHandle
    ensures Live(Act(s, Add(f)), k) <==> Live(s, k) || k == s.nextHandle
    ensures Act(s, Add(f)).clients[s.nextHandle].filter == f && Act(s, Add(f)).nextHandle == s.nextHandle + 1
    ensures Live(s, k) ==> KeepsFilter(s, Act(s, Add(f)), k)
  {}

  /** A turn does what its notifier does, if it is notified, and otherwise changes nobody's life or filter. */
  lemma TurnChangesLives(s: State, h: nat, m: Frame, script: Script, k: nat)
    ensures var t := if Live(s, h) && Accepts(s.clients[h].filter, m) then ActAll(s, ScriptOf(script, h)) else s;
      && (Live(Turn(s, h, m, script), k) <==> Live(t, k))
      && (Live(t, k) ==> KeepsFilter(t, Turn(s, h, m, script), k))
  {
    hide Accepts, ActAll;
  }

  // ----- every reachable state publishes exactly the join of its live clients

  ghost predicate Inv(s: State) {
    && (forall h :: h in s.clients ==> h < s.nextHandle)
    && s.published == JoinBelow(s.clients, s.nextHandle)
  }

  lemma {:induction false} JoinBelowIgnores(a: map<nat, Client>, b: map<nat, Client>, n: nat)
    requires forall h :: 0 <= h < n ==> ((h in a && !a[h].deleted) <==> (h in b && !b[h].deleted))
    requires forall h :: 0 <= h < n && h in a && !a[h].deleted ==> a[h].filter == b[h].filter
    ensures JoinBelow(a, n) == JoinBelow(b, n)
  {
    if n > 0 { JoinBelowIgnores(a, b, n - 1); }
  }

  lemma ActKeepsInv(s: State, a: Action)
    requires Inv(s)
    ensures Inv(Act(s, a))
  {}

  lemma {:induction false} ActAllKeepsInv(s: State, actions: seq<Action>)
    requires Inv(s)
    ensures Inv(ActAll(s, actions))
  {
    if actions != [] {
      ActAllKeepsInv(s, actions[..|actions| - 1]);
      ActKeepsInv(ActAll(s, actions[..|actions| - 1]), actions[|actions| - 1]);
    }
  }

  lemma TurnKeepsInv(s: State, h: nat, m: Frame, script: Script)
    requires Inv(s)
    ensures Inv(Turn(s, h, m, script))
  {
    ActAllKeepsInv(s, ScriptOf(script, h));
    var s' := if Delivers(s, h, m) then ActAll(s, ScriptOf(script, h)) else s;
    JoinBelowIgnores(s'.clients, Turn(s, h, m, script).clients, s'.nextHandle);
  }

  lemma {:induction false} TurnsKeepInv(s: State, n: nat, m: Frame, script: Script)
    requires Inv(s)
    ensures Inv(Turns(s, n, m, script))
  {
    if n > 0 {
      TurnsKeepInv(s, n - 1, m, script);
      TurnKeepsInv(Turns(s, n - 1, m, script), n - 1, m, script);
    }
  }

  lemma {:induction false} JoinBelowIsUpperBound(clients: map<nat, Client>, n: nat, h: nat)
    requires h < n && h in clients && !clients[h].deleted
    ensures Leq(clients[h].filter, JoinBelow(clients, n))
  {
    var rest := JoinBelow(clients, n - 1);
    if h < n - 1 {
      JoinBelowIsUpperBound(clients, n - 1, h);
    }
    if n - 1 in clients && !clients[n - 1].deleted {
      JoinIsUpperBound(rest, clients[n - 1].filter);
      if h < n - 1 { LeqTransitive(clients[h].filter, rest, JoinBelow(clients, n)); }
    }
  }

  lemma {:induction false} JoinBelowIsLeast(clients: map<nat, Client>, n: nat, g: Filter)
    requires forall h :: 0 <= h < n && h in clients && !clients[h].deleted ==> Leq(clients[h].filter, g)
    ensures Leq(JoinBelow(clients, n), g)
  {
    if n > 0 {
      JoinBelowIsLeast(clients, n - 1, g);
      if n - 1 in clients && !clients[n - 1].deleted {
        JoinIsLeast(JoinBelow(clients, n - 1), clients[n - 1].filter, g);
      }
    }
  }

  /** The published filter is the least one above the filters of all live clients. */
  lemma PublishedIsLeastUpperBound(s: State, g: Filter)
    requires Inv(s)
    ensures Leq(s.published, g) <==> forall h :: Live(s, h) ==> Leq(s.clients[h].filter, g)
  {
    if Leq(s.published, g) {
      forall h | Live(s, h) ensures Leq(s.clients[h].filter, g) {
        JoinBelowIsUpperBound(s.clients, s.nextHandle, h);
        LeqTransitive(s.clients[h].filter, s.published, g);
      }
    }
    if forall h :: Live(s, h) ==> Leq(s.clients[h].filter, g) {
      JoinBelowIsLeast(s.clients, s.nextHandle, g);
    }
  }

  // ----- broadcast delivers once to whoever is live and accepting at its turn

  lemma {:induction false} DeliveredExactlyOnce(s: State, n: nat, m: Frame, script: Script)
    ensures forall h: nat :: h in Delivered(s, n, m, script) <==> h < n && Delivers(Turns(s, h, m, script), h, m)
    ensures forall i, j :: 0 <= i < j < |Delivered(s, n, m, script)| ==>
      Delivered(s, n, m, script)[i] < Delivered(s, n, m, script)[j]
  {
    hide Delivers, Turns;
    if n > 0 {
      var before := Delivered(s, n - 1, m, script);
      DeliveredExactlyOnce(s, n - 1, m, script);
      var last := if Delivers(Turns(s, n - 1, m, script), n - 1, m) then [n - 1] else [];
      assert Delivered(s, n, m, script) == before + last;
      AppendAbove(before, last, n - 1);
    }
  }

  lemma AppendAbove(before: seq<nat>, last: seq<nat>, n: nat)
    requires forall h :: h in before ==> h < n
    requires forall i, j :: 0 <= i < j < |before| ==> before[i] < before[j]
    requires last == [] || last == [n]
    ensures forall h :: h in before + last <==> h in before || (last != [] && h == n)
    ensures forall i, j :: 0 <= i < j < |before + last| ==> (before + last)[i] < (before + last)[j]
  {
    forall i | 0 <= i < |before| ensures before[i] < n {
      assert before[i] in before;
    }
  }

  /** Exactly the clients that are live at their turn and whose filter, at that moment, accepts the message. */
  lemma NotifiedExactly(s: State, n: nat, m: Frame, script: Script, h: nat)
    ensures h in Delivered(s, n, m, script) <==>
      h < n && var t := Turns(s, h, m, script); Live(t, h) && Accepts(t.clients[h].filter, m)
  {
    hide Accepts, Delivered, Turns;
    DeliveredExactlyOnce(s, n, m, script);
  }

  lemma {:induction false} AddsCount(s: State, actions: seq<Action>)
    ensures ActAll(s, actions).nextHandle == s.nextHandle + Adds(actions)
  {
    if actions != [] { AddsCount(s, actions[..|actions| - 1]); }
  }

  lemma {:induction false} HandlesBounded(s: State, n: nat, m: Frame, script: Script)
    ensures Turns(s, n, m, script).nextHandle + PendingAdds(script, n) <= LastTurn(s, script)
  {
    if n > 0 {
      HandlesBounded(s, n - 1, m, script);
      AddsCount(Turns(s, n - 1, m, script), ScriptOf(script, n - 1));
    }
  }

  /** Once the turns have passed the last handle, nothing more happens: the loop of broadcast may stop. */
  lemma {:induction false} TurnsSettle(s: State, n: nat, k: nat, m: Frame, script: Script)
    requires Inv(s) && n <= k && Turns(s, n, m, script).nextHandle <= n
    ensures Turns(s, k, m, script) == Turns(s, n, m, script)
    ensures Delivered(s, k, m, script) == Delivered(s, n, m, script)
  {
    if n < k {
      TurnsSettle(s, n, k - 1, m, script);
      TurnsKeepInv(s, n, m, script);
    }
  }

  // ----- broadcast erases tombstones and nothing else

  lemma {:induction false} OnlyRemoveEndsLife(s: State, actions: seq<Action>, k: nat)
    requires Live(s, k) && Inv(s)
    ensures Live(ActAll(s, actions), k) || Remove(k) in actions
  {
    if actions != [] {
      OnlyRemoveEndsLife(s, actions[..|actions| - 1], k);
      ActAllKeepsInv(s, actions[..|actions| - 1]);
    }
  }

  /** A client that is live before a broadcast and not after it was removed by a notifier that ran in it. */
  lemma {:induction false} LiveClientsStay(s: State, n: nat, m: Frame, script: Script, k: nat) returns (h: nat)
    requires Inv(s) && Live(s, k) && !Live(Turns(s, n, m, script), k)
    ensures h in Delivered(s, n, m, script) && Remove(k) in ScriptOf(script, h)
  {
    var before := Turns(s, n - 1, m, script);
    if Live(before, k) {
      h := n - 1;
      TurnsKeepInv(s, n - 1, m, script);
      OnlyRemoveEndsLife(before, ScriptOf(script, h), k);
    } else {
      h := LiveClientsStay(s, n - 1, m, script, k);
    }
  }

  lemma {:induction false} GoneStaysGone(s: State, actions: seq<Action>, k: nat)
    requires Inv(s) && k < s.nextHandle && !Live(s, k)
    ensures !Live(ActAll(s, actions), k) && (k in ActAll(s, actions).clients <==> k in s.clients)
    ensures k < ActAll(s, actions).nextHandle
  {
    if actions != [] {
      GoneStaysGone(s, actions[..|actions| - 1], k);
      ActAllKeepsInv(s, actions[..|actions| - 1]);
    }
  }

  /** A removed client never returns, and its turn in any later broadcast erases its entry. */
  lemma {:induction false} TombstonesErased(s: State, n: nat, m: Frame, script: Script, k: nat)
    requires Inv(s) && k < s.nextHandle && !Live(s, k)
    ensures !Live(Turns(s, n, m, script), k) && k < Turns(s, n, m, script).nextHandle
    ensures k < n ==> k !in Turns(s, n, m, script).clients
  {
    if n > 0 {
      TombstonesErased(s, n - 1, m, script, k);
      TurnsKeepInv(s, n - 1, m, script);
      GoneStaysGone(Turns(s, n - 1, m, script), ScriptOf(script, n - 1), k);
    }
  }

  // ----- whole runs

  datatype Event = Call(action: Action) | Received(message: Frame, script: Script)

  ghost function After(s: State, e: Event): State {
    match e
    case Call(a) => Act(s, a)
    case Received(m, script) => AfterBroadcast(s, m, script)
  }

  ghost function Run(events: seq<Event>): State {
    if events == [] then INITIAL else After(Run(events[..|events| - 1]), events[|events| - 1])
  }

  lemma {:induction false} RunKeepsInv(events: seq<Event>)
    ensures Inv(Run(events))
  {
    if events != [] {
      var s := Run(events[..|events| - 1]);
      RunKeepsInv(events[..|events| - 1]);
      match events[|events| - 1] {
        case Call(a) => ActKeepsInv(s, a);
        case Received(m, script) => TurnsKeepInv(s, LastTurn(s, script), m, script);
      }
    }
  }

  lemma RunSnoc(events: seq<Event>, e: Event)
    ensures Run(events + [e]) == After(Run(events), e)
  {
    assert (events + [e])[..|events|] == events;
  }

  /** Once removed, a client stays removed over everything that happens later. */
  lemma {:induction false} RemovedForGood(before: seq<Event>, h: nat, later: seq<Event>)
    requires h < Run(before).nextHandle
    ensures var s := Run(before + [Call(Remove(h))] + later);
      !Live(s, h) && h < s.nextHandle
  {
    var start := before + [Call(Remove(h))];
    if later == [] {
      assert start + [] == start;
      RunSnoc(before, Call(Remove(h)));
      RemoveEndsOneLife(Run(before), h, h);
    } else {
      var n := |later| - 1;
      var s := Run(start + later[..n]);
      assert start + later == start + later[..n] + [later[n]];
      RemovedForGood(before, h, later[..n]);
      RunKeepsInv(start + later[..n]);
      RunSnoc(start + later[..n], later[n]);
      match later[n] {
        case Call(a) => GoneStaysGone(s, [a], h); assert [a][..0] == [];
        case Received(m, script) => TombstonesErased(s, LastTurn(s, script), m, script, h);
      }
    }
  }

  /** And is never notified again. */
  lemma RemovedNeverNotified(before: seq<Event>, h: nat, later: seq<Event>, m: Frame, script: Script, n: nat)
    requires h < Run(before).nextHandle
    ensures h !in Delivered(Run(before + [Call(Remove(h))] + later), n, m, script)
  {
    var s := Run(before + [Call(Remove(h))] + later);
    RemovedForGood(before, h, later);
    RunKeepsInv(before + [Call(Remove(h))] + later);
    hide Run, Delivered, Turns, Accepts;
    NotifiedExactly(s, n, m, script, h);
    TombstonesErased(s, h, m, script, h);
  }

  /** Whatever happened before, the upstream filter lets through every message that some live client accepts. */
  lemma UpstreamServesClients(events: seq<Event>, h: nat, m: Frame)
    requires Live(Run(events), h) && Accepts(Run(events).clients[h].filter, m)
    ensures Accepts(Run(events).published, m)
  {
    var s := Run(events);
    RunKeepsInv(events);
    JoinBelowIsUpperBound(s.clients, s.nextHandle, h);
    AcceptsMonotone(s.clients[h].filter, s.published, m);
  }

  // ----- the class

  class FilterDistributor {
    var clients: map<nat, Client>
    var nextHandle: nat
    // what the filter notifier last received
    var published: Filter

    function Abstract(): State
      reads this
    {
      State(clients, nextHandle, published)
    }

    constructor ()
      ensures Abstract() == INITIAL
    {
      clients, nextHandle, published := map[], 0, Nothing();
    }

    method UpdateUpstreamFilter()
      modifies this
      ensures Abstract() == Publish(old(Abstract()))
    {
      var f := Nothing();
      for h := 0 to nextHandle
        invariant f == JoinBelow(clients, h)
        invariant Abstract() == old(Abstract())
      {
        if h in clients && !clients[h].deleted {
          f := InplaceCombine(f, clients[h].filter);
        }
      }
      published := f;
    }

    method AddClient(filter: Filter) returns (h: nat)
      modifies this
      ensures h == old(nextHandle) && Abstract() == Added(old(Abstract()), filter)
    {
      h := nextHandle;
      nextHandle := nextHandle + 1;
      clients := clients[h := Client(filter, false)];
      UpdateUpstreamFilter();
    }

    method UpdateClientFilter(h: nat, filter: Filter)
      modifies this
      ensures Abstract() == Updated(old(Abstract()), h, filter)
    {
      if h !in clients || clients[h].deleted || clients[h].filter == filter {
        return;
      }
      clients := clients[h := clients[h].(filter := filter)];
      UpdateUpstreamFilter();
    }

    method RemoveClient(h: nat)
      modifies this
      ensures Abstract() == Removed(old(Abstract()), h)
    {
      if h !in clients || clients[h].deleted {
        return;
      }
      clients := clients[h := clients[h].(deleted := true)];
      UpdateUpstreamFilter();
    }

    /** The calls that a message notifier makes back into the distributor. */
    method Perform(actions: seq<Action>)
      modifies this
      ensures Abstract() == ActAll(old(Abstract()), actions)
    {
      for i := 0 to |actions|
        invariant Abstract() == ActAll(old(Abstract()), actions[..i])
      {
        assert actions[..i + 1][..i] == actions[..i];
        match actions[i] {
          case Add(f) => var h := AddClient(f);
          case Update(h, f) => UpdateClientFilter(h, f);
          case Remove(h) => RemoveClient(h);
        }
      }
      assert actions[..|actions|] == actions;
    }

    /** One iteration of broadcast, for the client with handle h. */
    method TakeTurn(h: nat, message: Message, tables: SyndromeTables, actions: seq<Action>) returns (pass: bool)
      requires h in clients && message.Valid() && tables.Valid()
      modifies this, message, tables
      ensures message.Valid() && tables.Valid()
      ensures pass == Delivers(old(Abstract()), h, message.frame)
      ensures Abstract() == AfterTurn(old(Abstract()), h, message.frame, actions)
    {
      hide Accepts, ActAll;
      pass := false;
      if !clients[h].deleted {
        pass := Passes(clients[h].filter, message, tables);
      }
      if pass {
        Perform(actions);
      }
      if h in clients && clients[h].deleted {
        clients := clients - {h};
      }
    }

    /** The map is visited in the order of its keys; keys that are absent when reached are passed over. */
    method Broadcast(message: Message, tables: SyndromeTables, script: Script) returns (notified: seq<nat>)
      requires Inv(Abstract()) && message.Valid() && tables.Valid()
      modifies this, message, tables
      ensures message.Valid() && tables.Valid()
      ensures Abstract() == AfterBroadcast(old(Abstract()), message.frame, script)
      ensures notified == Delivered(old(Abstract()), LastTurn(old(Abstract()), script), message.frame, script)
    {
      ghost var s, m := Abstract(), message.frame;
      notified := [];
      var h := 0;
      while h < nextHandle
        invariant message.Valid() && tables.Valid()
        invariant Abstract() == Turns(s, h, m, script)
        invariant notified == Delivered(s, h, m, script)
        invariant h <= nextHandle
        decreases LastTurn(s, script) - h
      {
        HandlesBounded(s, h, m, script);
        AddsCount(Abstract(), ScriptOf(script, h));
        if h in clients {
          var pass := TakeTurn(h, message, tables, ScriptOf(script, h));
          if pass {
            notified := notified + [h];
          }
        }
        h := h + 1;
      }
      HandlesBounded(s, h, m, script);
      TurnsSettle(s, h, LastTurn(s, script), m, script);
    }
  }
}
