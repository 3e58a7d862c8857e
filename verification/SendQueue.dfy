// SendQueue: the asynchronous send queue of core/src/TCP/TCPConnection.cpp (send, async_write,
// handle_write) as a state machine.  Every section guarded by `sendSync` is one step, so `send`
// is two steps and other threads may run in between.
module SendQueue {
  import opened Base64
  import opened Wrappers

  // ---------------------------------------------------------------------------------------
  // async_write
  // ---------------------------------------------------------------------------------------

  // The buffer and the flag afterwards, and the write that is issued, if any.
  datatype Written<+T> = Written(buffer: seq<T>, started: bool, issued: Option<T>)

  function AsyncWrite<T>(buffer: seq<T>, started: bool, init: bool): Written<T> {
    if init && started then Written(buffer, started, None)
    else
      var rest := if !init && buffer != [] then buffer[1..] else buffer;
      if rest == [] then Written(rest, false, None) else Written(rest, init || started, Some(rest[0]))
  }

  // ---------------------------------------------------------------------------------------
  // The state machine
  // ---------------------------------------------------------------------------------------

  type Thread = nat

  // A node of the list `sendBuffer`.  A pending write refers to the bytes inside a node, so nodes
  // have an identity of their own.
  datatype Node = Node(serial: nat, bytes: Bytes)

  datatype State = State(
    sendBuffer: seq<Node>,
    sendStart: bool,
    outstanding: seq<Node>,  // writes issued to the socket and not completed
    senders: set<Thread>,    // threads between their push and their async_write(true)
    pushed: seq<Node>,       // history: all nodes in push order
    resolved: seq<Node>      // history: nodes whose write has completed, with or without error
  )

  datatype Event =
    | Push(thread: Thread, bytes: Bytes)        // send, first section
    | PushFailed(thread: Thread)                // send, first section, when encoding throws
    | Begin(thread: Thread)                     // send, second section: async_write(true)
    | Complete(write: nat, failed: bool)        // handle_write, which calls async_write()

  // The state `start()` leaves behind, before the first `send`.
  const START: State := State([], false, [], {}, [], [])

  predicate Enabled(s: State, e: Event) {
    match e
    case Push(t, _) => t !in s.senders
    case PushFailed(t) => t !in s.senders
    case Begin(t) => t in s.senders
    case Complete(i, _) => i < |s.outstanding|
  }

  function Issue(s: State, init: bool): State {
    var w := AsyncWrite(s.sendBuffer, s.sendStart, init);
    s.(sendBuffer := w.buffer, sendStart := w.started,
       outstanding := s.outstanding + (if w.issued.Some? then [w.issued.value] else []))
  }

  function Apply(s: State, e: Event): State
    requires Enabled(s, e)
  {
    match e
    case Push(t, bytes) =>
      var node := Node(|s.pushed|, bytes);
      s.(sendBuffer := s.sendBuffer + [node], senders := s.senders + {t}, pushed := s.pushed + [node])
    case PushFailed(t) => s.(senders := s.senders + {t})
    case Begin(t) => Issue(s.(senders := s.senders - {t}), true)
    case Complete(i, _) =>
      Issue(s.(outstanding := s.outstanding[..i] + s.outstanding[i + 1..],
               resolved := s.resolved + [s.outstanding[i]]), false)
  }

  predicate Valid(s: State, run: seq<Event>)
    decreases |run|
  {
    run == [] || (Enabled(s, run[0]) && Valid(Apply(s, run[0]), run[1..]))
  }

  function After(s: State, run: seq<Event>): State
    requires Valid(s, run)
    decreases |run|
  {
    if run == [] then s else After(Apply(s, run[0]), run[1..])
  }

  // ---------------------------------------------------------------------------------------
  // The history and the run
  // ---------------------------------------------------------------------------------------

  function Contents(nodes: seq<Node>): (r: seq<Bytes>)
    ensures |r| == |nodes|
  {
    seq(|nodes|, i requires 0 <= i < |nodes| => nodes[i].bytes)
  }

  // What is pushed in a run.
  function PushedBy(run: seq<Event>): seq<Bytes> {
    if run == [] then [] else (if run[0].Push? then [run[0].bytes] else []) + PushedBy(run[1..])
  }

  lemma {:induction false} PushedRun(s: State, run: seq<Event>)
    requires Valid(s, run)
    ensures Contents(After(s, run).pushed) == Contents(s.pushed) + PushedBy(run)
    decreases |run|
  {
    hide AsyncWrite;
    if run != [] {
      PushedRun(Apply(s, run[0]), run[1..]);
    }
  }

  lemma PushedFromStart(run: seq<Event>)
    requires Valid(START, run)
    ensures Contents(After(START, run).pushed) == PushedBy(run)
  {
    hide Valid, After, PushedBy;
    PushedRun(START, run);
    assert Contents([]) + PushedBy(run) == PushedBy(run);
  }

  // ---------------------------------------------------------------------------------------
  // Safety
  // ---------------------------------------------------------------------------------------

  predicate Inv(s: State) {
    && (s.sendStart ==> s.sendBuffer != [])
    && s.outstanding == (if s.sendStart then [s.sendBuffer[0]] else [])
    && s.pushed == s.resolved + s.sendBuffer
    && (forall i | 0 <= i < |s.pushed| :: s.pushed[i].serial == i)
    && (s.sendBuffer != [] && !s.sendStart ==> s.senders != {})
  }

  lemma InvPush(s: State, t: Thread, bytes: Bytes)
    requires Inv(s) && Enabled(s, Push(t, bytes))
    ensures Inv(Apply(s, Push(t, bytes)))
  {
  }

  lemma InvBegin(s: State, t: Thread)
    requires Inv(s) && Enabled(s, Begin(t))
    ensures Inv(Apply(s, Begin(t)))
  {
  }

  lemma InvComplete(s: State, i: nat, failed: bool)
    requires Inv(s) && Enabled(s, Complete(i, failed))
    ensures Inv(Apply(s, Complete(i, failed)))
  {
    assert s.outstanding == [s.sendBuffer[0]] && i == 0;
    assert s.resolved + s.sendBuffer == s.resolved + [s.sendBuffer[0]] + s.sendBuffer[1..];
  }

  lemma InvStep(s: State, e: Event)
    requires Inv(s) && Enabled(s, e)
    ensures Inv(Apply(s, e))
  {
    match e
    case Push(t, bytes) => InvPush(s, t, bytes);
    case PushFailed(_) =>
    case Begin(t) => InvBegin(s, t);
    case Complete(i, failed) => InvComplete(s, i, failed);
  }

  lemma {:induction false} InvRun(s: State, run: seq<Event>)
    requires Inv(s) && Valid(s, run)
    ensures Inv(After(s, run))
    decreases |run|
  {
    if run != [] {
      InvStep(s, run[0]);
      InvRun(Apply(s, run[0]), run[1..]);
    }
  }

  // After every run: at most one write is outstanding, and exactly while `sendStart`
  // holds; its bytes are those of the node at the head of the queue, and of no other node; every
  // message pushed in the run is resolved or still queued, in push order; and a queued node has a
  // write outstanding or a sender on its way to start one.
  lemma QueueSafety(run: seq<Event>)
    requires Valid(START, run)
    ensures var s := After(START, run);
            && |s.outstanding| <= 1
            && (s.sendStart <==> |s.outstanding| == 1)
            && (s.sendStart ==> s.sendBuffer != [] && s.outstanding[0] == s.sendBuffer[0])
            && (forall i, j | 0 <= i < j < |s.sendBuffer| :: s.sendBuffer[i] != s.sendBuffer[j])
            && s.pushed == s.resolved + s.sendBuffer
            && Contents(s.pushed) == PushedBy(run)
            && (s.sendBuffer != [] ==> s.outstanding != [] || s.senders != {})
  {
    hide Contents, PushedBy, Valid, After;
    InvRun(START, run);
    PushedFromStart(run);
    var s := After(START, run);
    forall i, j | 0 <= i < j < |s.sendBuffer|
      ensures s.sendBuffer[i] != s.sendBuffer[j]
    {
      assert s.sendBuffer[i] == s.pushed[|s.resolved| + i] && s.sendBuffer[j] == s.pushed[|s.resolved| + j];
    }
  }

  // The node an outstanding write refers to stays where it is until that write completes.
  lemma OutstandingStays(s: State, e: Event)
    requires Inv(s) && Enabled(s, e) && s.outstanding != [] && !e.Complete?
    ensures var t := Apply(s, e);
            t.outstanding == s.outstanding && t.sendBuffer != [] && t.sendBuffer[0] == s.outstanding[0]
  {
  }

  // ---------------------------------------------------------------------------------------
  // Draining
  // ---------------------------------------------------------------------------------------

  predicate Drains(run: seq<Event>) {
    forall i | 0 <= i < |run| :: run[i].Begin? || run[i].Complete?
  }

  // What is left to do when no thread sends anything more.
  function Work(s: State): nat {
    |s.senders| + |s.sendBuffer|
  }

  // Each remaining step does one unit of the work, also when writes fail.
  lemma {:induction false} DrainWork(s: State, run: seq<Event>)
    requires Inv(s) && Valid(s, run) && Drains(run)
    ensures Work(After(s, run)) == Work(s) - |run|
    decreases |run|
  {
    if run != [] {
      InvStep(s, run[0]);
      if run[0].Complete? {
        assert s.sendStart;
      }
      DrainWork(Apply(s, run[0]), run[1..]);
    }
  }

  // A run of remaining steps can be continued exactly until all work is done, and then everything
  // that was pushed is resolved.
  lemma DrainEnd(s: State)
    requires Inv(s)
    ensures (exists e: Event :: (e.Begin? || e.Complete?) && Enabled(s, e)) <==> Work(s) > 0
    ensures Work(s) == 0 ==> s.resolved == s.pushed && s.sendBuffer == [] && !s.sendStart
  {
    if s.senders != {} {
      var t :| t in s.senders;
      assert Enabled(s, Begin(t));
    } else if s.sendBuffer != [] {
      assert Enabled(s, Complete(0, false));
    }
  }

  lemma {:induction false} DrainPushesNothing(s: State, run: seq<Event>)
    requires Valid(s, run) && Drains(run)
    ensures After(s, run).pushed == s.pushed
    decreases |run|
  {
    if run != [] {
      DrainPushesNothing(Apply(s, run[0]), run[1..]);
    }
  }

  // So every run of remaining steps that cannot be continued empties the queue, after exactly
  // Work(s) steps.
  lemma QueueDrains(s: State, run: seq<Event>)
    requires Inv(s) && Valid(s, run) && Drains(run)
    requires !exists e: Event :: (e.Begin? || e.Complete?) && Enabled(After(s, run), e)
    ensures |run| == Work(s)
    ensures var t := After(s, run); t.sendBuffer == [] && t.outstanding == [] && t.resolved == t.pushed == s.pushed
  {
    DrainWork(s, run);
    InvRun(s, run);
    DrainEnd(After(s, run));
    DrainPushesNothing(s, run);
  }

  // ---------------------------------------------------------------------------------------
  // Without start()
  // ---------------------------------------------------------------------------------------

  // The constructor leaves `sendStart` unset.  If it happens to be true and start() does not run
  // first, no write is ever issued.
  lemma {:induction false} NeverStarted(s: State, run: seq<Event>)
    requires s.sendStart && s.outstanding == [] && Valid(s, run)
    ensures After(s, run).sendStart && After(s, run).outstanding == []
    decreases |run|
  {
    if run != [] {
      NeverStarted(Apply(s, run[0]), run[1..]);
    }
  }

  ghost predicate NeverStuck(s: State) {
    forall run | Valid(s, run) ::
      After(s, run).sendBuffer != [] ==> After(s, run).outstanding != [] || After(s, run).senders != {}
  }

  // So queued messages are never stuck exactly when the flag is false at the first send.
  lemma StartMatters(flag: bool)
    ensures NeverStuck(START.(sendStart := flag)) <==> !flag
  {
    var s := START.(sendStart := flag);
    if flag {
      var first := Apply(s, Push(0, []));
      var second := Apply(first, Begin(0));
      var run := [Push(0, []), Begin(0)];
      assert run[1..] == [Begin(0)] && run[1..][1..] == [];
      assert Valid(second, []) && Valid(first, run[1..]) && Valid(s, run);
      assert After(s, run) == second;
    } else {
      forall run | Valid(s, run)
        ensures After(s, run).sendBuffer != [] ==> After(s, run).outstanding != [] || After(s, run).senders != {}
      {
        QueueSafety(run);
      }
    }
  }
}
