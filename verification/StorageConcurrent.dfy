// StorageConcurrent: handlers of many connections on one storage server, interleaved at the
// sections guarded by `dataSync` in core/src/Storage/StorageServer.cpp.  A read is two sections,
// keyExists and readValue, with a gap between them.
//
// `log` records the instant at which each message takes effect; it is history, and no step
// depends on it.
module StorageConcurrent {
  import opened Storage

  type Conn = nat

  datatype Step =
    | ToCheck(key: Text)                          // about to call keyExists
    | ToFetch(key: Text)                          // found; about to call readValue
    | ToStore(key: Text, value: Text)             // about to call writeValue
    | ToAnswer(replies: seq<Reply>, at: nat)      // took effect as log[at]; about to answer

  // A running handler; `invoked` is the length of the log when it was called.
  datatype Handler = Handler(message: Message, invoked: nat, step: Step)

  datatype Entry = Entry(conn: Conn, message: Message)

  // A finished handler, with the length of the log when it was called and when it answered.
  datatype Record = Record(conn: Conn, message: Message, replies: seq<Reply>, invoked: nat, at: nat, answered: nat)

  datatype State = State(
    data: Data,
    handlers: map<Conn, Handler>,
    calls: seq<Entry>,     // history: the messages handed to handlers, in order
    log: seq<Entry>,       // history: the messages that took effect, in order
    done: seq<Record>      // history: the finished handlers, in order
  )

  datatype Event =
    | Invoke(conn: Conn, message: Message)
    | Check(conn: Conn)
    | Fetch(conn: Conn)
    | Store(conn: Conn)
    | Answer(conn: Conn)

  const START: State := State(map[], map[], [], [], [])

  predicate Enabled(s: State, e: Event) {
    match e
    case Invoke(c, _) => c !in s.handlers
    case Check(c) => c in s.handlers && s.handlers[c].step.ToCheck?
    case Fetch(c) => c in s.handlers && s.handlers[c].step.ToFetch?
    case Store(c) => c in s.handlers && s.handlers[c].step.ToStore?
    case Answer(c) => c in s.handlers && s.handlers[c].step.ToAnswer?
  }

  function Advance(s: State, c: Conn, step: Step): State
    requires c in s.handlers
  {
    s.(handlers := s.handlers[c := s.handlers[c].(step := step)])
  }

  function TakeEffect(s: State, c: Conn, replies: seq<Reply>): State
    requires c in s.handlers
  {
    Advance(s, c, ToAnswer(replies, |s.log|)).(log := s.log + [Entry(c, s.handlers[c].message)])
  }

  // Up to its first locked section a handler depends on nothing but its message; a rejected
  // message has no locked section.
  function Apply(s: State, e: Event): State
    requires Enabled(s, e)
  {
    match e
    case Invoke(c, m) =>
      var t := s.(calls := s.calls + [Entry(c, m)],
                  handlers := s.handlers[c := Handler(m, |s.log|, ToCheck(""))]);
      (match Interpret(m)
       case Read(k) => Advance(t, c, ToCheck(k))
       case Write(k, v) => Advance(t, c, ToStore(k, v))
       case Reject(errors) => TakeEffect(t, c, errors))
    case Check(c) =>
      var k := s.handlers[c].step.key;
      if k in s.data then Advance(s, c, ToFetch(k)) else TakeEffect(s, c, [KEY_NOT_FOUND])
    case Fetch(c) =>
      var k := s.handlers[c].step.key;
      TakeEffect(s, c, [OkRead(if k in s.data then s.data[k] else "")])
    case Store(c) =>
      var step := s.handlers[c].step;
      TakeEffect(s.(data := s.data[step.key := step.value]), c, [OkWrite])
    case Answer(c) =>
      var h := s.handlers[c];
      s.(handlers := s.handlers - {c},
         done := s.done + [Record(c, h.message, h.step.replies, h.invoked, h.step.at, |s.log|)])
  }

  predicate Valid(s: State, run: seq<Event>)
    decreases |run|
  {
    run == [] || (Enabled(s, run[0]) && Valid(Apply(s, run[0]), run[1..]))
  }

  function After(s: State, run: seq<Event>): State
    requires Valid(s, run)
    decreases |run|
  {
    if run == [] then s else After(Apply(s, run[0]), run[1..])
  }

  // ---------------------------------------------------------------------------------------
  // The log, executed one message after the other
  // ---------------------------------------------------------------------------------------

  function Messages(log: seq<Entry>): seq<Message> {
    seq(|log|, i requires 0 <= i < |log| => log[i].message)
  }

  // The map after the logged messages, handled one at a time.
  function Sequential(log: seq<Entry>): Data {
    Run(Messages(log))
  }

  // What the i-th logged message is answered then.
  function SequentialReplies(log: seq<Entry>, i: nat): seq<Reply>
    requires i < |log|
  {
    Replies(Sequential(log[..i]), Interpret(log[i].message))
  }

  lemma SequentialSnoc(log: seq<Entry>, e: Entry)
    ensures Sequential(log + [e]) == DataAfter(Sequential(log), Interpret(e.message))
    ensures SequentialReplies(log + [e], |log|) == Replies(Sequential(log), Interpret(e.message))
    ensures forall i | 0 <= i < |log| :: SequentialReplies(log + [e], i) == SequentialReplies(log, i)
  {
    hide Interpret, Run;
    assert Messages(log + [e]) == Messages(log) + [e.message];
    RunSnoc(Messages(log), e.message);
    assert (log + [e])[..|log|] == log;
    assert forall i | 0 <= i < |log| :: (log + [e])[..i] == log[..i];
  }

  // The messages of one connection.
  function OfConn(log: seq<Entry>, c: Conn): seq<Message> {
    if log == [] then []
    else
      var n := |log| - 1;
      OfConn(log[..n], c) + if log[n].conn == c then [log[n].message] else []
  }

  // The replies the log gives to one connection.
  function LogReplies(log: seq<Entry>, c: Conn): seq<Reply> {
    if log == [] then []
    else
      var n := |log| - 1;
      LogReplies(log[..n], c) + if log[n].conn == c then SequentialReplies(log, n) else []
  }

  // The replies one connection was answered.
  function DoneReplies(done: seq<Record>, c: Conn): seq<Reply> {
    if done == [] then []
    else
      var n := |done| - 1;
      DoneReplies(done[..n], c) + if done[n].conn == c then done[n].replies else []
  }

  lemma OfConnSnoc(log: seq<Entry>, e: Entry, c: Conn)
    ensures OfConn(log + [e], c) == OfConn(log, c) + if e.conn == c then [e.message] else []
  {
    assert (log + [e])[..|log|] == log;
  }

  lemma LogRepliesSnoc(log: seq<Entry>, e: Entry, c: Conn)
    ensures LogReplies(log + [e], c)
         == LogReplies(log, c) + if e.conn == c then Replies(Sequential(log), Interpret(e.message)) else []
  {
    hide Interpret;
    assert (log + [e])[..|log|] == log;
    SequentialSnoc(log, e);
  }

  lemma DoneRepliesSnoc(done: seq<Record>, r: Record, c: Conn)
    ensures DoneReplies(done + [r], c) == DoneReplies(done, c) + if r.conn == c then r.replies else []
  {
    assert (done + [r])[..|done|] == done;
  }

  // ---------------------------------------------------------------------------------------
  // The invariant
  // ---------------------------------------------------------------------------------------

  // The log entry `at` is the message, inside the given interval, with the given replies.
  predicate TookEffect(log: seq<Entry>, c: Conn, m: Message, replies: seq<Reply>, invoked: nat, at: nat) {
    invoked <= at < |log| && log[at] == Entry(c, m) && replies == SequentialReplies(log, at)
  }

  predicate HandlerInv(s: State, c: Conn, h: Handler) {
    && h.invoked <= |s.log|
    && match h.step
       case ToCheck(k) => Interpret(h.message) == Read(k)
       case ToFetch(k) => Interpret(h.message) == Read(k) && k in s.data
       case ToStore(k, v) => Interpret(h.message) == Write(k, v)
       case ToAnswer(replies, at) => TookEffect(s.log, c, h.message, replies, h.invoked, at)
  }

  // The message of a handler that has not taken effect.
  function Waiting(s: State, c: Conn): seq<Message> {
    if c in s.handlers && !s.handlers[c].step.ToAnswer? then [s.handlers[c].message] else []
  }

  // The replies of a handler that has not answered.
  function Unanswered(s: State, c: Conn): seq<Reply> {
    if c in s.handlers && s.handlers[c].step.ToAnswer? then s.handlers[c].step.replies else []
  }

  predicate ConnInv(s: State, c: Conn) {
    && OfConn(s.calls, c) == OfConn(s.log, c) + Waiting(s, c)
    && LogReplies(s.log, c) == DoneReplies(s.done, c) + Unanswered(s, c)
  }

  predicate RecordInv(s: State, r: Record) {
    TookEffect(s.log, r.conn, r.message, r.replies, r.invoked, r.at) && r.at < r.answered <= |s.log|
  }

  // The handlers of one connection follow each other.
  predicate OrderInv(s: State) {
    && (forall i, j | 0 <= i < j < |s.done| && s.done[i].conn == s.done[j].conn ::
          s.done[i].answered <= s.done[j].invoked)
    && (forall i | 0 <= i < |s.done| && s.done[i].conn in s.handlers ::
          s.done[i].answered <= s.handlers[s.done[i].conn].invoked)
  }

  // The invariant, except for what the step of one handler says.
  ghost predicate InvExcept(s: State, c: Conn) {
    && s.data == Sequential(s.log)
    && (forall d | d in s.handlers && d != c :: HandlerInv(s, d, s.handlers[d]))
    && (forall d :: ConnInv(s, d))
    && (forall i | 0 <= i < |s.done| :: RecordInv(s, s.done[i]))
    && OrderInv(s)
    && (c in s.handlers ==> s.handlers[c].invoked <= |s.log|)
  }

  ghost predicate Inv(s: State) {
    && s.data == Sequential(s.log)
    && (forall c | c in s.handlers :: HandlerInv(s, c, s.handlers[c]))
    && (forall c :: ConnInv(s, c))
    && (forall i | 0 <= i < |s.done| :: RecordInv(s, s.done[i]))
    && OrderInv(s)
  }

  lemma InvStart()
    ensures Inv(START)
  {
    assert Messages([]) == [];
  }

  // A key that is in the map stays there.
  lemma KeysStay(s: State, e: Event)
    requires Enabled(s, e)
    ensures s.data.Keys <= Apply(s, e).data.Keys
  {
    hide Interpret;
  }

  lemma TookEffectStays(log: seq<Entry>, e: Entry, c: Conn, m: Message, replies: seq<Reply>, invoked: nat, at: nat)
    requires TookEffect(log, c, m, replies, invoked, at)
    ensures TookEffect(log + [e], c, m, replies, invoked, at)
  {
    hide SequentialReplies;
    SequentialSnoc(log, e);
  }

  // Only the step of a handler changes.
  lemma OrderStep(s: State, t: State)
    requires OrderInv(s) && t.done == s.done
    requires forall d | d in t.handlers :: d in s.handlers && t.handlers[d].invoked == s.handlers[d].invoked
    ensures OrderInv(t)
  {
  }

  // One more entry in the log leaves what the other handlers, the connections and the records say.
  lemma HandlersAfterEntry(s: State, t: State, c: Conn, e: Entry)
    requires t.log == s.log + [e] && s.data.Keys <= t.data.Keys
    requires forall d | d in s.handlers && d != c :: HandlerInv(s, d, s.handlers[d])
    requires forall d | d in t.handlers && d != c :: d in s.handlers && t.handlers[d] == s.handlers[d]
    ensures forall d | d in t.handlers && d != c :: HandlerInv(t, d, t.handlers[d])
  {
    hide Interpret, TookEffect;
    forall d | d in t.handlers && d != c
      ensures HandlerInv(t, d, t.handlers[d])
    {
      assert HandlerInv(s, d, s.handlers[d]);
      var h := s.handlers[d];
      if h.step.ToAnswer? {
        TookEffectStays(s.log, e, d, h.message, h.step.replies, h.invoked, h.step.at);
      }
    }
  }

  lemma RecordsAfterEntry(s: State, t: State, e: Entry)
    requires t.log == s.log + [e] && t.done == s.done
    requires forall i | 0 <= i < |s.done| :: RecordInv(s, s.done[i])
    ensures forall i | 0 <= i < |t.done| :: RecordInv(t, t.done[i])
  {
    hide TookEffect;
    forall i | 0 <= i < |t.done|
      ensures RecordInv(t, t.done[i])
    {
      var r := t.done[i];
      assert RecordInv(s, s.done[i]);
      TookEffectStays(s.log, e, r.conn, r.message, r.replies, r.invoked, r.at);
    }
  }

  // A handler that had not taken effect does so with the replies of the sequential execution.
  lemma ConnsAfterEntry(s: State, t: State, c: Conn, replies: seq<Reply>)
    requires c in s.handlers && c in t.handlers && !s.handlers[c].step.ToAnswer?
    requires t.log == s.log + [Entry(c, s.handlers[c].message)] && t.calls == s.calls && t.done == s.done
    requires t.handlers[c].step.ToAnswer? && t.handlers[c].step.replies == replies
    requires replies == Replies(Sequential(s.log), Interpret(s.handlers[c].message))
    requires forall d | d != c :: d in s.handlers <==> d in t.handlers
    requires forall d | d in t.handlers && d != c :: t.handlers[d] == s.handlers[d]
    requires forall d :: ConnInv(s, d)
    ensures forall d :: ConnInv(t, d)
  {
    hide Interpret, Sequential, Replies, OfConn, LogReplies, DoneReplies;
    forall d
      ensures ConnInv(t, d)
    {
      assert ConnInv(s, d);
      OfConnSnoc(s.log, Entry(c, s.handlers[c].message), d);
      LogRepliesSnoc(s.log, Entry(c, s.handlers[c].message), d);
    }
  }

  // Any handler that has not taken effect may do so with the replies and the map of the
  // sequential execution.
  lemma InvTakeEffect(s: State, c: Conn, data: Data, replies: seq<Reply>)
    requires InvExcept(s, c) && c in s.handlers && !s.handlers[c].step.ToAnswer?
    requires data == DataAfter(s.data, Interpret(s.handlers[c].message))
    requires replies == Replies(s.data, Interpret(s.handlers[c].message))
    ensures Inv(TakeEffect(s.(data := data), c, replies))
  {
    hide Interpret, Sequential, SequentialReplies, ConnInv, OrderInv, RecordInv;
    var e := Entry(c, s.handlers[c].message);
    var t := TakeEffect(s.(data := data), c, replies);
    assert t.log == s.log + [e];
    SequentialSnoc(s.log, e);
    OrderStep(s, t);
    HandlersAfterEntry(s, t, c, e);
    ConnsAfterEntry(s, t, c, replies);
    RecordsAfterEntry(s, t, e);
  }

  lemma OrderInvoke(s: State, t: State, c: Conn)
    requires OrderInv(s) && forall i | 0 <= i < |s.done| :: RecordInv(s, s.done[i])
    requires t.done == s.done && t.log == s.log && c in t.handlers && t.handlers[c].invoked == |t.log|
    requires forall d | d in t.handlers && d != c :: d in s.handlers && t.handlers[d] == s.handlers[d]
    ensures OrderInv(t)
  {
    hide TookEffect;
    forall i | 0 <= i < |t.done| && t.done[i].conn in t.handlers
      ensures t.done[i].answered <= t.handlers[t.done[i].conn].invoked
    {
      assert RecordInv(s, s.done[i]);
    }
  }

  lemma OrderAnswer(s: State, t: State, r: Record)
    requires OrderInv(s) && t.done == s.done + [r]
    requires r.conn in s.handlers && r.invoked == s.handlers[r.conn].invoked
    requires t.handlers == s.handlers - {r.conn}
    ensures OrderInv(t)
  {
    forall i, j | 0 <= i < j < |t.done| && t.done[i].conn == t.done[j].conn
      ensures t.done[i].answered <= t.done[j].invoked
    {
      assert t.done[i] == s.done[i];
      if j < |s.done| {
        assert t.done[j] == s.done[j];
      }
    }
  }

  lemma RecordStays(s: State, t: State, r: Record)
    requires t.log == s.log && RecordInv(s, r)
    ensures RecordInv(t, r)
  {
    hide SequentialReplies;
  }

  lemma InvAdvance(s: State, c: Conn, step: Step)
    requires InvExcept(s, c) && c in s.handlers && !s.handlers[c].step.ToAnswer?
    requires !step.ToAnswer? && HandlerInv(s, c, s.handlers[c].(step := step))
    ensures Inv(Advance(s, c, step))
  {
    hide Interpret, Sequential, SequentialReplies, OfConn, LogReplies, DoneReplies, OrderInv;
    var t := Advance(s, c, step);
    OrderStep(s, t);
    forall d | d in t.handlers
      ensures HandlerInv(t, d, t.handlers[d])
    {
      if d != c {
        assert HandlerInv(s, d, s.handlers[d]);
      }
    }
    forall d
      ensures ConnInv(t, d)
    {
      assert ConnInv(s, d);
    }
    forall i | 0 <= i < |t.done|
      ensures RecordInv(t, t.done[i])
    {
      RecordStays(s, t, s.done[i]);
    }
  }

  lemma InvInvoke(s: State, c: Conn, m: Message)
    requires Inv(s) && Enabled(s, Invoke(c, m))
    ensures Inv(Apply(s, Invoke(c, m)))
  {
    hide Interpret, Sequential, SequentialReplies, OfConn, LogReplies, DoneReplies, RecordInv, TakeEffect, OrderInv;
    var e := Entry(c, m);
    var t := s.(calls := s.calls + [e], handlers := s.handlers[c := Handler(m, |s.log|, ToCheck(""))]);
    forall d
      ensures ConnInv(t, d)
    {
      assert ConnInv(s, d);
      OfConnSnoc(s.calls, e, d);
    }
    forall d | d in t.handlers && d != c
      ensures HandlerInv(t, d, t.handlers[d])
    {
      assert HandlerInv(s, d, s.handlers[d]);
    }
    forall i | 0 <= i < |t.done|
      ensures RecordInv(t, t.done[i])
    {
      RecordStays(s, t, s.done[i]);
    }
    OrderInvoke(s, t, c);
    match Interpret(m) {
      case Read(k) => InvAdvance(t, c, ToCheck(k));
      case Write(k, v) => InvAdvance(t, c, ToStore(k, v));
      case Reject(errors) => InvTakeEffect(t, c, t.data, errors);
    }
  }

  lemma InvAnswer(s: State, c: Conn)
    requires Inv(s) && Enabled(s, Answer(c))
    ensures Inv(Apply(s, Answer(c)))
  {
    hide Interpret, Sequential, SequentialReplies, OfConn, LogReplies, DoneReplies, OrderInv;
    var h := s.handlers[c];
    assert HandlerInv(s, c, h);
    var r := Record(c, h.message, h.step.replies, h.invoked, h.step.at, |s.log|);
    var t := Apply(s, Answer(c));
    assert t.done == s.done + [r];
    OrderAnswer(s, t, r);
    forall d | d in t.handlers
      ensures HandlerInv(t, d, t.handlers[d])
    {
      assert HandlerInv(s, d, s.handlers[d]);
    }
    forall d
      ensures ConnInv(t, d)
    {
      assert ConnInv(s, d);
      DoneRepliesSnoc(s.done, r, d);
    }
    forall i | 0 <= i < |t.done|
      ensures RecordInv(t, t.done[i])
    {
      if i < |s.done| {
        RecordStays(s, t, s.done[i]);
      }
    }
  }

  lemma InvStep(s: State, e: Event)
    requires Inv(s) && Enabled(s, e)
    ensures Inv(Apply(s, e))
  {
    hide Interpret, Sequential, ConnInv, RecordInv, TookEffect, OrderInv;
    var c := e.conn;
    if c in s.handlers {
      assert HandlerInv(s, c, s.handlers[c]);
    }
    match e {
      case Invoke(_, m) => InvInvoke(s, c, m);
      case Check(_) =>
        var k := s.handlers[c].step.key;
        if k in s.data {
          InvAdvance(s, c, ToFetch(k));
        } else {
          InvTakeEffect(s, c, s.data, [KEY_NOT_FOUND]);
        }
      case Fetch(_) => InvTakeEffect(s, c, s.data, [OkRead(s.data[s.handlers[c].step.key])]);
      case Store(_) =>
        var step := s.handlers[c].step;
        InvTakeEffect(s, c, s.data[step.key := step.value], [OkWrite]);
      case Answer(_) => InvAnswer(s, c);
    }
  }

  lemma {:induction false} InvRun(s: State, run: seq<Event>)
    requires Inv(s) && Valid(s, run)
    ensures Inv(After(s, run))
    decreases |run|
  {
    hide Inv, Apply, Enabled;
    if run != [] {
      InvStep(s, run[0]);
      InvRun(Apply(s, run[0]), run[1..]);
    }
  }

  // ---------------------------------------------------------------------------------------
  // Linearizability
  // ---------------------------------------------------------------------------------------

  lemma OneEntryEach(s: State)
    requires OrderInv(s) && forall i | 0 <= i < |s.done| :: RecordInv(s, s.done[i])
    ensures forall i, j | 0 <= i < j < |s.done| :: s.done[i].at != s.done[j].at
  {
    hide SequentialReplies;
    forall i, j | 0 <= i < j < |s.done|
      ensures s.done[i].at != s.done[j].at
    {
      assert RecordInv(s, s.done[i]) && RecordInv(s, s.done[j]);
    }
  }

  // The messages handed to handlers in a run.
  function CallsOf(run: seq<Event>): seq<Entry> {
    if run == [] then []
    else (if run[0].Invoke? then [Entry(run[0].conn, run[0].message)] else []) + CallsOf(run[1..])
  }

  lemma {:induction false} CallsRun(s: State, run: seq<Event>)
    requires Valid(s, run)
    ensures After(s, run).calls == s.calls + CallsOf(run)
    decreases |run|
  {
    hide Interpret;
    if run != [] {
      CallsRun(Apply(s, run[0]), run[1..]);
    }
  }

  // In every run, executing the logged messages one at a time gives the map, and gives every
  // finished handler its replies; every finished handler has an entry of its own, which lies
  // between its call and its answer, so one that answered before another was called comes first;
  // and each connection's messages are logged once each, in the order of its calls in the run.
  lemma Linearizable(run: seq<Event>)
    requires Valid(START, run)
    ensures var s := After(START, run);
            && s.data == Sequential(s.log)
            && (forall i | 0 <= i < |s.done| ::
                  var r := s.done[i];
                  && r.invoked <= r.at < r.answered <= |s.log|
                  && s.log[r.at] == Entry(r.conn, r.message)
                  && r.replies == SequentialReplies(s.log, r.at))
            && (forall i, j | 0 <= i < j < |s.done| :: s.done[i].at != s.done[j].at)
            && (forall i, j | 0 <= i < |s.done| && 0 <= j < |s.done| ::
                  s.done[i].answered <= s.done[j].invoked ==> s.done[i].at < s.done[j].at)
            && (forall c :: OfConn(s.log, c) <= OfConn(CallsOf(run), c)
                            && DoneReplies(s.done, c) <= LogReplies(s.log, c))
            && (s.handlers == map[] ==> forall c :: OfConn(s.log, c) == OfConn(CallsOf(run), c)
                                                    && DoneReplies(s.done, c) == LogReplies(s.log, c))
  {
    hide Sequential, SequentialReplies, OfConn, LogReplies, DoneReplies, CallsOf;
    InvStart();
    InvRun(START, run);
    CallsRun(START, run);
    var s := After(START, run);
    assert s.calls == CallsOf(run);
    assert forall i | 0 <= i < |s.done| :: RecordInv(s, s.done[i]);
    OneEntryEach(s);
    forall c
      ensures OfConn(s.log, c) <= OfConn(s.calls, c) && DoneReplies(s.done, c) <= LogReplies(s.log, c)
      ensures s.handlers == map[] ==>
                OfConn(s.log, c) == OfConn(s.calls, c) && DoneReplies(s.done, c) == LogReplies(s.log, c)
    {
      assert ConnInv(s, c);
    }
  }

  // The gap between keyExists and readValue never yields the empty text for a missing key.
  lemma GapIsSafe(run: seq<Event>, c: Conn)
    requires Valid(START, run) && Enabled(After(START, run), Fetch(c))
    ensures var s := After(START, run); s.handlers[c].step.key in s.data
  {
    hide Sequential, SequentialReplies, OfConn, LogReplies, DoneReplies;
    InvStart();
    InvRun(START, run);
    var s := After(START, run);
    assert HandlerInv(s, c, s.handlers[c]);
  }
}
