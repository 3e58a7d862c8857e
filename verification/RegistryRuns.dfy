// RegistryRuns: what the server's subscribers see over a whole run of accepts, signals and stops.
// Every accepted connection may raise any signal at any time, also after it was disconnected.
module RegistryRuns {
  import opened Registry

  datatype State = State(
    conns: seq<Uuid>,               // registered connections
    slots: map<Uuid, set<Slot>>,    // connected slots of every connection ever accepted
    posted: set<Uuid>,              // connections whose stop() has posted its work
    events: seq<ServerEvent>        // history: the signals the server raised
  )

  datatype Event =
    | Accept(uuid: Uuid, error: bool)
    | Raise(uuid: Uuid, signal: Signal)  // the connection raises a signal
    | Stop(uuid: Uuid)                   // tcp_connection::stop, up to the work it posts
    | ClearSlots(uuid: Uuid)             // the posted work
    | DisconnectAll                      // tcp_server::disconnectAll

  const START: State := State([], map[], {}, [])

  // Identifiers are fresh.
  predicate Enabled(s: State, e: Event) {
    match e
    case Accept(u, _) => u !in s.slots
    case Raise(u, _) => u in s.slots
    case Stop(u) => u in s.slots
    case ClearSlots(u) => u in s.posted && u in s.slots
    case DisconnectAll => true
  }

  function Raised(s: State, u: Uuid, signal: Signal): State
    requires u in s.slots
  {
    var d := Deliver(s.conns, s.slots[u], u, signal);
    s.(conns := d.conns, slots := s.slots[u := d.slots], events := s.events + d.raised)
  }

  function Stopped(s: State, u: Uuid): State
    requires u in s.slots
  {
    Raised(s, u, Disconnected).(posted := s.posted + {u})
  }

  // disconnectByUUID for every entry of a copy of the list, each looked up in the list itself.
  function StopEach(s: State, copy: seq<Uuid>): State
    decreases |copy|
  {
    if copy == [] then s
    else
      var u := copy[0];
      StopEach(if u in s.conns && u in s.slots then Stopped(s, u) else s, copy[1..])
  }

  function Apply(s: State, e: Event): State
    requires Enabled(s, e)
  {
    match e
    case Accept(u, error) =>
      s.(conns := s.conns + [u], slots := s.slots[u := ALL_SLOTS], events := s.events + AcceptEvents(u, error))
    case Raise(u, signal) => Raised(s, u, signal)
    case Stop(u) => Stopped(s, u)
    case ClearSlots(u) => s.(slots := s.slots[u := {}], posted := s.posted - {u})
    case DisconnectAll => StopEach(s, s.conns)
  }

  predicate Valid(s: State, run: seq<Event>)
    decreases |run|
  {
    run == [] || (Enabled(s, run[0]) && Valid(Apply(s, run[0]), run[1..]))
  }

  function After(s: State, run: seq<Event>): State
    requires Valid(s, run)
    decreases |run|
  {
    if run == [] then s else After(Apply(s, run[0]), run[1..])
  }

  // Nothing about a connection follows its disconnection.
  predicate Final(events: seq<ServerEvent>) {
    forall i, j | 0 <= i < j < |events| && events[i].OnDisconnected? :: events[j].uuid != events[i].uuid
  }

  predicate Known(events: seq<ServerEvent>, known: set<Uuid>) {
    forall i | 0 <= i < |events| :: events[i].uuid in known
  }

  // Every other event about a connection follows its acceptance.
  predicate Announced(events: seq<ServerEvent>) {
    forall i | 0 <= i < |events| && !events[i].OnAcceptError? && !events[i].OnAccepted? ::
      OnAccepted(events[i].uuid) in events[..i]
  }

  predicate ListInv(s: State) {
    && Distinct(s.conns)
    && (forall u | u in s.conns :: u in s.slots && s.slots[u] == ALL_SLOTS)
    && (forall u | u in s.slots && u !in s.conns :: s.slots[u] == {})
    && (forall u | u in s.posted :: u in s.slots && u !in s.conns)
  }

  predicate LogInv(conns: seq<Uuid>, known: set<Uuid>, events: seq<ServerEvent>) {
    && Known(events, known)
    && Final(events)
    && Announced(events)
    && (forall u | u in known :: OnAccepted(u) in events)
    && (forall u | u in known :: u !in conns <==> OnDisconnected(u) in events)
  }

  predicate Inv(s: State) {
    ListInv(s) && LogInv(s.conns, s.slots.Keys, s.events)
  }

  lemma FinalAppend(events: seq<ServerEvent>, e: ServerEvent)
    requires Final(events) && OnDisconnected(e.uuid) !in events
    ensures Final(events + [e])
  {
    var t := events + [e];
    forall i, j | 0 <= i < j < |t| && t[i].OnDisconnected?
      ensures t[j].uuid != t[i].uuid
    {
      if j == |events| {
        assert t[i] == OnDisconnected(t[i].uuid) && t[i] in events;
      }
    }
  }

  lemma AnnouncedAppend(events: seq<ServerEvent>, e: ServerEvent)
    requires Announced(events)
    requires e.OnAcceptError? || e.OnAccepted? || OnAccepted(e.uuid) in events
    ensures Announced(events + [e])
  {
    var t := events + [e];
    forall i | 0 <= i < |t| && !t[i].OnAcceptError? && !t[i].OnAccepted?
      ensures OnAccepted(t[i].uuid) in t[..i]
    {
      assert t[..i] == events[..i];
      assert events[..|events|] == events;
    }
  }

  lemma FinalAccept(events: seq<ServerEvent>, u: Uuid, error: bool)
    requires Final(events) && Announced(events) && OnDisconnected(u) !in events
    ensures Final(events + AcceptEvents(u, error)) && Announced(events + AcceptEvents(u, error))
    ensures OnAccepted(u) in events + AcceptEvents(u, error)
  {
    hide Final, Announced;
    assert OnAccepted(u) in AcceptEvents(u, error);
    if error {
      FinalAppend(events, OnAcceptError(u));
      FinalAppend(events + [OnAcceptError(u)], OnAccepted(u));
      AnnouncedAppend(events, OnAcceptError(u));
      AnnouncedAppend(events + [OnAcceptError(u)], OnAccepted(u));
      assert events + [OnAcceptError(u)] + [OnAccepted(u)] == events + AcceptEvents(u, true);
    } else {
      FinalAppend(events, OnAccepted(u));
      AnnouncedAppend(events, OnAccepted(u));
      assert AcceptEvents(u, false) == [OnAccepted(u)];
    }
  }

  // A signal of a connection that is not registered has no effect.
  lemma Unregistered(s: State, u: Uuid, signal: Signal)
    requires ListInv(s) && u in s.slots && u !in s.conns
    ensures Raised(s, u, signal) == s
  {
    hide Distinct;
    assert s.slots[u := {}] == s.slots && s.events + [] == s.events;
  }

  lemma LogSignal(conns: seq<Uuid>, known: set<Uuid>, events: seq<ServerEvent>, e: ServerEvent)
    requires LogInv(conns, known, events) && e.uuid in conns && e.uuid in known
    requires !e.OnDisconnected?
    ensures LogInv(conns, known, events + [e])
  {
    hide Final, Announced;
    FinalAppend(events, e);
    AnnouncedAppend(events, e);
  }

  lemma LogDisconnected(conns: seq<Uuid>, left: seq<Uuid>, known: set<Uuid>, events: seq<ServerEvent>, u: Uuid)
    requires LogInv(conns, known, events) && u in conns && u in known
    requires forall v :: v in left <==> v in conns && v != u
    ensures LogInv(left, known, events + [OnDisconnected(u)])
  {
    hide Final, Announced;
    FinalAppend(events, OnDisconnected(u));
    AnnouncedAppend(events, OnDisconnected(u));
  }

  lemma InvSignal(s: State, u: Uuid, signal: Signal)
    requires Inv(s) && u in s.conns && !signal.Disconnected?
    ensures Inv(Raised(s, u, signal))
  {
    hide LogInv, Distinct;
    assert s.slots[u := s.slots[u]] == s.slots;
    LogSignal(s.conns, s.slots.Keys, s.events, Translate(u, signal));
  }

  lemma InvDisconnected(s: State, u: Uuid)
    requires Inv(s) && u in s.conns
    ensures Inv(Raised(s, u, Disconnected)) && u !in Raised(s, u, Disconnected).conns
  {
    hide LogInv, Distinct;
    RemoveKeepsDistinct(s.conns, u);
    LogDisconnected(s.conns, Remove(s.conns, u), s.slots.Keys, s.events, u);
    assert s.slots[u := {}].Keys == s.slots.Keys;
  }

  lemma InvRaised(s: State, u: Uuid, signal: Signal)
    requires Inv(s) && u in s.slots
    ensures Inv(Raised(s, u, signal))
    ensures signal.Disconnected? ==> u !in Raised(s, u, signal).conns
    ensures Raised(s, u, signal).posted == s.posted && Raised(s, u, signal).slots.Keys == s.slots.Keys
  {
    hide LogInv, Distinct, Deliver;
    if u !in s.conns {
      Unregistered(s, u, signal);
    } else if signal.Disconnected? {
      InvDisconnected(s, u);
    } else {
      InvSignal(s, u, signal);
    }
  }

  lemma DistinctSnoc(us: seq<Uuid>, u: Uuid)
    requires Distinct(us) && u !in us
    ensures Distinct(us + [u])
  {
  }

  lemma LogAccept(conns: seq<Uuid>, known: set<Uuid>, events: seq<ServerEvent>, u: Uuid, error: bool)
    requires LogInv(conns, known, events) && u !in known
    ensures LogInv(conns + [u], known + {u}, events + AcceptEvents(u, error))
  {
    hide Final, Announced;
    assert OnDisconnected(u) !in events;
    FinalAccept(events, u, error);
    forall v
      ensures OnDisconnected(v) in events + AcceptEvents(u, error) <==> OnDisconnected(v) in events
    {
      assert OnDisconnected(v) !in AcceptEvents(u, error);
    }
  }

  lemma InvAccept(s: State, u: Uuid, error: bool)
    requires Inv(s) && u !in s.slots
    ensures Inv(Apply(s, Accept(u, error)))
  {
    hide LogInv, Distinct;
    assert u !in s.conns;
    DistinctSnoc(s.conns, u);
    LogAccept(s.conns, s.slots.Keys, s.events, u, error);
    assert s.slots[u := ALL_SLOTS].Keys == s.slots.Keys + {u};
  }

  lemma InvStopped(s: State, u: Uuid)
    requires Inv(s) && u in s.slots
    ensures Inv(Stopped(s, u))
  {
    hide LogInv, Distinct, Raised;
    InvRaised(s, u, Disconnected);
  }

  lemma {:induction false} InvStopEach(s: State, copy: seq<Uuid>)
    requires Inv(s)
    ensures Inv(StopEach(s, copy))
    decreases |copy|
  {
    hide Inv, Stopped;
    if copy != [] {
      var u := copy[0];
      if u in s.conns && u in s.slots {
        InvStopped(s, u);
        InvStopEach(Stopped(s, u), copy[1..]);
      } else {
        InvStopEach(s, copy[1..]);
      }
    }
  }

  lemma InvStep(s: State, e: Event)
    requires Inv(s) && Enabled(s, e)
    ensures Inv(Apply(s, e))
  {
    hide LogInv, Distinct, Raised, Stopped, StopEach;
    match e
    case Accept(u, error) => InvAccept(s, u, error);
    case Raise(u, signal) => InvRaised(s, u, signal);
    case Stop(u) => InvStopped(s, u);
    case ClearSlots(u) => assert s.slots[u := {}] == s.slots;
    case DisconnectAll => InvStopEach(s, s.conns);
  }

  lemma {:induction false} InvRun(s: State, run: seq<Event>)
    requires Inv(s) && Valid(s, run)
    ensures Inv(After(s, run))
    decreases |run|
  {
    hide Inv, Apply, Enabled;
    if run != [] {
      InvStep(s, run[0]);
      InvRun(Apply(s, run[0]), run[1..]);
    }
  }

  // In every run: registered identifiers stay distinct; every accepted connection is announced, and
  // its other events come after that; a connection that was accepted, with or
  // without an accept error, is registered until the server has raised its disconnection; that is
  // raised at most once; and no event about the connection follows it.
  lemma RegistryDiscipline(run: seq<Event>)
    requires Valid(START, run)
    ensures var s := After(START, run);
            && Distinct(s.conns)
            && (forall u | u in s.slots :: u in s.conns <==> OnDisconnected(u) !in s.events)
            && (forall u | u in s.conns :: u in s.slots)
            && (forall u | u in s.slots :: OnAccepted(u) in s.events)
            && (forall i | 0 <= i < |s.events| && !s.events[i].OnAcceptError? && !s.events[i].OnAccepted? ::
                  OnAccepted(s.events[i].uuid) in s.events[..i])
            && (forall i, j | 0 <= i < j < |s.events| && s.events[i].OnDisconnected? ::
                  s.events[j].uuid != s.events[i].uuid)
  {
    InvRun(START, run);
  }

  lemma RemoveFirst(us: seq<Uuid>)
    requires us != [] && Distinct(us)
    ensures Remove(us, us[0]) == us[1..]
  {
    assert us[0] !in us[1..];
    RemoveAbsent(us[1..], us[0]);
  }

  lemma DisconnectsCons(u: Uuid, us: seq<Uuid>)
    ensures [OnDisconnected(u)] + Disconnects(us) == Disconnects([u] + us)
  {
  }

  lemma StoppedFirst(s: State)
    requires Inv(s) && s.conns != []
    ensures var u := s.conns[0];
            && u in s.slots && Inv(Stopped(s, u))
            && Stopped(s, u).conns == s.conns[1..]
            && Stopped(s, u).events == s.events + [OnDisconnected(u)]
  {
    hide LogInv, Distinct;
    var u := s.conns[0];
    assert u in s.conns;
    RemoveFirst(s.conns);
    InvStopped(s, u);
  }

  lemma NoDisconnects()
    ensures Disconnects([]) == []
  {
  }

  lemma {:induction false} StopEachEmpties(s: State)
    requires Inv(s)
    ensures var t := StopEach(s, s.conns); t.conns == [] && t.events == s.events + Disconnects(s.conns)
    decreases |s.conns|
  {
    hide Inv, Stopped, Disconnects;
    if s.conns == [] {
      NoDisconnects();
      assert s.events + [] == s.events;
    } else {
      var u, tail := s.conns[0], s.conns[1..];
      StoppedFirst(s);
      StopEachEmpties(Stopped(s, u));
      DisconnectsCons(u, tail);
      assert s.conns == [u] + tail;
      assert s.events + [OnDisconnected(u)] + Disconnects(tail) == s.events + ([OnDisconnected(u)] + Disconnects(tail));
    }
  }

  lemma InvStart()
    ensures Inv(START)
  {
  }

  // In every run disconnectAll empties the list, and raises the disconnection of every registered
  // connection exactly once, in list order.
  lemma DisconnectAllOnce(run: seq<Event>)
    requires Valid(START, run)
    ensures var s := After(START, run);
            var t := Apply(s, DisconnectAll);
            t.conns == [] && t.events == s.events + Disconnects(s.conns) && Distinct(s.conns)
  {
    hide LogInv, StopEach;
    InvStart();
    InvRun(START, run);
    StopEachEmpties(After(START, run));
  }

  // ---------------------------------------------------------------------------------------
  // The story of one connection
  // ---------------------------------------------------------------------------------------

  // The events about one connection, in order.
  function About(events: seq<ServerEvent>, u: Uuid): seq<ServerEvent> {
    if events == [] then []
    else
      var n := |events| - 1;
      About(events[..n], u) + if events[n].uuid == u then [events[n]] else []
  }

  // What the subscribers are to see of the connection in one step of a run.
  function Shown(e: Event, u: Uuid, registered: bool): seq<ServerEvent> {
    match e
    case Accept(v, error) =>
      if v != u then [] else if error then [OnAcceptError(u), OnAccepted(u)] else [OnAccepted(u)]
    case Raise(v, signal) =>
      if v != u || !registered then []
      else
        (match signal
         case Disconnected => [OnDisconnected(u)]
         case ReadMessage(message) => [OnReadMessage(u, message)]
         case ReadError => [OnReadError(u)]
         case SendError => [OnSendError(u)])
    case Stop(v) => if v == u && registered then [OnDisconnected(u)] else []
    case ClearSlots(_) => []
    case DisconnectAll => if registered then [OnDisconnected(u)] else []
  }

  predicate StaysRegistered(e: Event, u: Uuid, registered: bool) {
    match e
    case Accept(v, _) => registered || v == u
    case Raise(v, signal) => registered && !(v == u && signal.Disconnected?)
    case Stop(v) => registered && v != u
    case ClearSlots(_) => registered
    case DisconnectAll => false
  }

  // What they are to see of it in a whole run.
  function Story(run: seq<Event>, u: Uuid, registered: bool): seq<ServerEvent> {
    if run == [] then []
    else Shown(run[0], u, registered) + Story(run[1..], u, StaysRegistered(run[0], u, registered))
  }

  lemma {:induction false} AboutAppend(a: seq<ServerEvent>, b: seq<ServerEvent>, u: Uuid)
    ensures About(a + b, u) == About(a, u) + About(b, u)
  {
    if b == [] {
      assert a + b == a;
    } else {
      var n := |b| - 1;
      assert (a + b)[..|a| + n] == a + b[..n] && (a + b)[|a| + n] == b[n];
      AboutAppend(a, b[..n], u);
    }
  }

  lemma AboutOne(e: ServerEvent, u: Uuid)
    ensures About([], u) == [] && About([e], u) == if e.uuid == u then [e] else []
  {
    assert [e][..0] == [];
  }

  lemma AboutAccept(v: Uuid, error: bool, u: Uuid)
    ensures About(AcceptEvents(v, error), u) == Shown(Accept(v, error), u, false)
    ensures About(AcceptEvents(v, error), u) == Shown(Accept(v, error), u, true)
  {
    hide About;
    AboutOne(OnAcceptError(v), u);
    AboutOne(OnAccepted(v), u);
    AboutAppend(if error then [OnAcceptError(v)] else [], [OnAccepted(v)], u);
  }

  lemma {:induction false} AboutDisconnects(us: seq<Uuid>, u: Uuid)
    requires Distinct(us)
    ensures About(Disconnects(us), u) == if u in us then [OnDisconnected(u)] else []
  {
    if us != [] {
      var n := |us| - 1;
      var before, v := us[..n], us[n];
      assert us == before + [v] && v !in before;
      DisconnectsSnoc(before, v);
      AboutAppend(Disconnects(before), [OnDisconnected(v)], u);
      AboutOne(OnDisconnected(v), u);
      AboutDisconnects(before, u);
    }
  }

  // A signal of any connection: what is raised, and whether `u` stays registered.
  lemma StoryRaised(s: State, v: Uuid, signal: Signal, u: Uuid)
    requires Inv(s) && v in s.slots
    ensures About(Raised(s, v, signal).events, u) == About(s.events, u) + Shown(Raise(v, signal), u, u in s.conns)
    ensures u in Raised(s, v, signal).conns <==> StaysRegistered(Raise(v, signal), u, u in s.conns)
  {
    hide LogInv, About, Distinct;
    var d := Deliver(s.conns, s.slots[v], v, signal);
    AboutAppend(s.events, d.raised, u);
    AboutOne(OnDisconnected(v), u);
    if v in s.conns {
      AboutOne(Translate(v, signal), u);
      RemoveKeepsDistinct(s.conns, v);
    }
  }

  lemma StoryStep(s: State, e: Event, u: Uuid)
    requires Inv(s) && Enabled(s, e)
    ensures About(Apply(s, e).events, u) == About(s.events, u) + Shown(e, u, u in s.conns)
    ensures u in Apply(s, e).conns <==> StaysRegistered(e, u, u in s.conns)
  {
    hide About, Raised, StopEach, LogInv, AcceptEvents, Disconnects, Distinct;
    match e
    case Accept(v, error) =>
      AboutAppend(s.events, AcceptEvents(v, error), u);
      AboutAccept(v, error, u);
    case Raise(v, signal) => StoryRaised(s, v, signal, u);
    case Stop(v) => StoryRaised(s, v, Disconnected, u);
    case ClearSlots(_) =>
    case DisconnectAll =>
      StopEachEmpties(s);
      AboutAppend(s.events, Disconnects(s.conns), u);
      AboutDisconnects(s.conns, u);
  }

  lemma {:induction false} StoryRun(s: State, run: seq<Event>, u: Uuid)
    requires Inv(s) && Valid(s, run)
    ensures About(After(s, run).events, u) == About(s.events, u) + Story(run, u, u in s.conns)
    decreases |run|
  {
    hide Inv, Apply, Enabled, About, Shown, StaysRegistered;
    if run == [] {
      assert About(s.events, u) + [] == About(s.events, u);
    } else {
      var e, t := run[0], Apply(s, run[0]);
      InvStep(s, e);
      StoryStep(s, e, u);
      StoryRun(t, run[1..], u);
      var before, first, more := About(s.events, u), Shown(e, u, u in s.conns), Story(run[1..], u, u in t.conns);
      assert before + first + more == before + (first + more);
    }
  }

  // In every run the subscribers see of each connection exactly its own story, whatever all the
  // others do: its acceptance, after an error if there was one; then every message and every error
  // it raises, in order and with the text it raised; and its disconnection, by itself, by a stop or
  // by disconnectAll, after which there is nothing.
  lemma EveryStory(run: seq<Event>, u: Uuid)
    requires Valid(START, run)
    ensures About(After(START, run).events, u) == Story(run, u, false)
  {
    hide Inv, Valid, After, Story, About;
    InvStart();
    StoryRun(START, run, u);
    AboutOne(OnAccepted(u), u);
    assert [] + Story(run, u, false) == Story(run, u, false);
  }
}
