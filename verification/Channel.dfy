// Channel: one direction of a connection, from `send` on one side to `onReadMessage` on the
// other.  It joins the send queue, the bytes in flight, and the framing receiver.
//
// The steps interleave freely: any number of threads send, a write hands its bytes to the socket
// piece by piece, the network delivers them in pieces, and a read takes whatever has arrived.
// Writes do not fail here.
module Channel {
  import opened Base64
  import opened Framing
  import Base64Codec
  import Queue = SendQueue

  datatype State = State(
    queue: Queue.State,
    written: nat,         // bytes of the outstanding write that the socket has taken
    wire: Bytes,          // bytes in flight
    arrived: Bytes,       // `message_`: bytes that arrived and were not read yet
    part: Bytes,          // `partMessage`
    sent: seq<Bytes>,     // history: the messages given to `send`, in push order
    raised: seq<Bytes>,   // history: the messages raised by `onReadMessage`
    consumed: Bytes       // history: the bytes handed to handle_read
  )

  datatype Event =
    | Send(thread: Queue.Thread, message: Bytes)  // send, first section
    | Begin(thread: Queue.Thread)                 // send, second section
    | Transmit(count: nat)                        // the socket takes bytes of the outstanding write
    | Complete                                    // the write is done: handle_write
    | Arrive(count: nat)                          // bytes reach the receiver
    | Read                                        // async_read_until completes: handle_read

  const START: State := State(Queue.START, 0, [], [], [], [], [], [])

  predicate Enabled(c: State, e: Event) {
    match e
    case Send(t, m) => t !in c.queue.senders && Base64Codec.EncodeOutcome(m).Returned?
    case Begin(t) => t in c.queue.senders
    case Transmit(n) => c.queue.outstanding != [] && 0 < n && c.written + n <= |c.queue.outstanding[0].bytes|
    case Complete => c.queue.outstanding != [] && c.written == |c.queue.outstanding[0].bytes|
    case Arrive(n) => 0 < n <= |c.wire|
    case Read => NEWLINE in c.arrived
  }

  function Apply(c: State, e: Event): State
    requires Enabled(c, e)
  {
    match e
    case Send(t, m) =>
      var frame := Base64Codec.EncodeOutcome(m).value + [NEWLINE];
      c.(queue := Queue.Apply(c.queue, Queue.Push(t, frame)), sent := c.sent + [m])
    case Begin(t) => c.(queue := Queue.Apply(c.queue, Queue.Begin(t)))
    case Transmit(n) =>
      c.(wire := c.wire + c.queue.outstanding[0].bytes[c.written..c.written + n], written := c.written + n)
    case Complete => c.(queue := Queue.Apply(c.queue, Queue.Complete(0, false)), written := 0)
    case Arrive(n) => c.(arrived := c.arrived + c.wire[..n], wire := c.wire[n..])
    case Read =>
      var r := ReadStep(c.part, c.arrived);
      c.(arrived := [], part := r.part, raised := c.raised + r.messages, consumed := c.consumed + c.arrived)
  }

  predicate Valid(c: State, run: seq<Event>)
    decreases |run|
  {
    run == [] || (Enabled(c, run[0]) && Valid(Apply(c, run[0]), run[1..]))
  }

  function After(c: State, run: seq<Event>): State
    requires Valid(c, run)
    decreases |run|
  {
    if run == [] then c else After(Apply(c, run[0]), run[1..])
  }

  ghost predicate Reachable(c: State) {
    exists run :: Valid(START, run) && After(START, run) == c
  }

  // ---------------------------------------------------------------------------------------
  // The invariant
  // ---------------------------------------------------------------------------------------

  function BytesOf(nodes: seq<Queue.Node>): Bytes {
    if nodes == [] then [] else nodes[0].bytes + BytesOf(nodes[1..])
  }

  lemma {:induction false} BytesOfAppend(a: seq<Queue.Node>, b: seq<Queue.Node>)
    ensures BytesOf(a + b) == BytesOf(a) + BytesOf(b)
  {
    if a == [] {
      assert a + b == b;
    } else {
      assert (a + b)[1..] == a[1..] + b;
      BytesOfAppend(a[1..], b);
    }
  }

  // What the outstanding write has put on the wire so far.
  function Current(c: State): Bytes
    requires c.queue.outstanding != [] ==> c.written <= |c.queue.outstanding[0].bytes|
  {
    if c.queue.outstanding == [] then [] else c.queue.outstanding[0].bytes[..c.written]
  }

  predicate Inv(c: State) {
    && Queue.Inv(c.queue)
    && (if c.queue.outstanding == [] then c.written == 0 else c.written <= |c.queue.outstanding[0].bytes|)
    && BytesOf(c.queue.pushed) == Frames(c.sent)
    && c.consumed + c.arrived + c.wire == BytesOf(c.queue.resolved) + Current(c)
    && Receive([], c.consumed) == Received(c.raised, c.part)
    && NEWLINE !in c.part
  }

  lemma InvStart()
    ensures Inv(START)
  {
    ReceiveWithoutNewline([], []);
  }

  lemma InvSend(c: State, t: Queue.Thread, m: Bytes)
    requires Inv(c) && Enabled(c, Send(t, m))
    ensures Inv(Apply(c, Send(t, m)))
  {
    hide Receive, Encode;
    var bytes := Frame(m);
    Queue.InvStep(c.queue, Queue.Push(t, bytes));
    var node := Queue.Node(|c.queue.pushed|, bytes);
    BytesOfAppend(c.queue.pushed, [node]);
    assert BytesOf([node]) == bytes + BytesOf([]);
    FramesSnoc(c.sent, m);
  }

  lemma InvBegin(c: State, t: Queue.Thread)
    requires Inv(c) && Enabled(c, Begin(t))
    ensures Inv(Apply(c, Begin(t)))
  {
    hide Receive, Frames;
    Queue.InvStep(c.queue, Queue.Begin(t));
  }

  lemma Reassociate(a: Bytes, b: Bytes, d: Bytes)
    ensures a + b + d == a + (b + d)
  {
  }

  lemma InvTransmit(c: State, n: nat)
    requires Inv(c) && Enabled(c, Transmit(n))
    ensures Inv(Apply(c, Transmit(n)))
  {
    hide Receive, Frames, BytesOf, Queue.Inv;
    var bytes, k := c.queue.outstanding[0].bytes, c.written;
    var more := bytes[k..k + n];
    assert bytes[..k + n] == bytes[..k] + more;
    Reassociate(c.consumed + c.arrived, c.wire, more);
    Reassociate(BytesOf(c.queue.resolved), bytes[..k], more);
  }

  lemma InvComplete(c: State)
    requires Inv(c) && Enabled(c, Complete)
    ensures Inv(Apply(c, Complete))
  {
    hide Receive, Frames;
    var node := c.queue.outstanding[0];
    var e := Queue.Complete(0, false);
    Queue.InvStep(c.queue, e);
    BytesOfAppend(c.queue.resolved, [node]);
    assert BytesOf([node]) == node.bytes by {
      assert BytesOf([]) == [] && node.bytes + [] == node.bytes;
    }
    var d := Apply(c, Complete);
    assert d.queue.pushed == c.queue.pushed && d.queue.resolved == c.queue.resolved + [node];
    assert Current(c) == node.bytes && Current(d) == [];
    assert BytesOf(d.queue.resolved) + [] == BytesOf(c.queue.resolved) + node.bytes;
  }

  lemma InvArrive(c: State, n: nat)
    requires Inv(c) && Enabled(c, Arrive(n))
    ensures Inv(Apply(c, Arrive(n)))
  {
    hide Receive, Frames;
    assert c.consumed + (c.arrived + c.wire[..n]) + c.wire[n..] == c.consumed + c.arrived + c.wire;
  }

  lemma InvRead(c: State)
    requires Inv(c) && Enabled(c, Read)
    ensures Inv(Apply(c, Read))
  {
    hide Receive, Frames;
    ReceiveAppend([], c.consumed, c.arrived);
    ReceivePart(c.part, c.arrived);
    ReceivedShape([], c.part + c.arrived);
    assert c.consumed + c.arrived + [] + c.wire == c.consumed + c.arrived + c.wire;
  }

  lemma InvStep(c: State, e: Event)
    requires Inv(c) && Enabled(c, e)
    ensures Inv(Apply(c, e))
  {
    hide Inv, Apply;
    match e
    case Send(t, m) => InvSend(c, t, m);
    case Begin(t) => InvBegin(c, t);
    case Transmit(n) => InvTransmit(c, n);
    case Complete => InvComplete(c);
    case Arrive(n) => InvArrive(c, n);
    case Read => InvRead(c);
  }

  lemma {:induction false} InvRun(c: State, run: seq<Event>)
    requires Inv(c) && Valid(c, run)
    ensures Inv(After(c, run))
    decreases |run|
  {
    hide Inv, Apply, Enabled;
    if run != [] {
      InvStep(c, run[0]);
      InvRun(Apply(c, run[0]), run[1..]);
    }
  }

  // ---------------------------------------------------------------------------------------
  // Safety and delivery
  // ---------------------------------------------------------------------------------------

  lemma CurrentPrefix(c: State)
    requires Inv(c)
    ensures Current(c) <= BytesOf(c.queue.sendBuffer)
  {
    hide Receive, Frames;
    if c.queue.outstanding != [] {
      var nodes := c.queue.sendBuffer;
      assert BytesOf(nodes) == nodes[0].bytes + BytesOf(nodes[1..]);
    }
  }

  lemma PrefixAppend(a: Bytes, b: Bytes, d: Bytes)
    requires b <= d
    ensures a + b <= a + d
  {
  }

  // Everything the receiver has been given is a prefix of the frames of what was sent.
  lemma ConsumedPrefix(c: State)
    requires Inv(c)
    ensures c.consumed + c.arrived + c.wire <= Frames(c.sent)
  {
    hide Receive, Frames;
    var q := c.queue;
    BytesOfAppend(q.resolved, q.sendBuffer);
    CurrentPrefix(c);
    PrefixAppend(BytesOf(q.resolved), Current(c), BytesOf(q.sendBuffer));
  }

  lemma AsciiInfix(a: Bytes, b: Bytes, all: Bytes)
    requires a + b <= all && Ascii(all)
    ensures Ascii(b)
  {
    forall i | 0 <= i < |b|
      ensures b[i] < 0x80
    {
      assert b[i] == all[|a| + i];
    }
  }

  lemma InvSafety(c: State)
    requires Inv(c)
    ensures c.raised <= NonEmpty(c.sent)
    ensures Ascii(c.part + c.arrived)
  {
    hide Receive, Frames, NonEmpty, Ascii;
    ConsumedPrefix(c);
    var all := c.consumed + c.arrived + c.wire;
    assert c.consumed <= all;
    FramesPrefix(c.sent, c.consumed);
    FramesAscii(c.sent);
    var complete := SplitConservation([], c.consumed);
    assert [] + c.consumed == c.consumed;
    assert complete + (c.part + c.arrived) == c.consumed + c.arrived;
    AsciiInfix(complete, c.part + c.arrived, Frames(c.sent));
  }

  lemma InvReachable(c: State)
    requires Reachable(c)
    ensures Inv(c)
  {
    hide Inv;
    var run :| Valid(START, run) && After(START, run) == c;
    InvStart();
    InvRun(START, run);
  }

  // In every reachable state the messages raised are a prefix of the non-empty messages sent, in
  // push order, and the bytes a read would decode are ASCII, so that its result is defined.
  lemma ChannelSafety(c: State)
    requires Reachable(c)
    ensures c.raised <= NonEmpty(c.sent)
    ensures Ascii(c.part + c.arrived) && Decodable(c.part + c.arrived)
  {
    hide Inv, NonEmpty, Ascii, Decodable;
    InvReachable(c);
    InvSafety(c);
    AsciiDecodable(c.part + c.arrived);
  }

  // The messages sent in a run.
  function SentBy(run: seq<Event>): seq<Bytes> {
    if run == [] then [] else (if run[0].Send? then [run[0].message] else []) + SentBy(run[1..])
  }

  lemma {:induction false} SentRun(c: State, run: seq<Event>)
    requires Valid(c, run)
    ensures After(c, run).sent == c.sent + SentBy(run)
    decreases |run|
  {
    hide Queue.Apply, ReadStep;
    if run != [] {
      SentRun(Apply(c, run[0]), run[1..]);
    }
  }

  // Over whole runs: what is raised are the first of the non-empty messages sent in the run.
  lemma RunSafety(run: seq<Event>)
    requires Valid(START, run)
    ensures After(START, run).raised <= NonEmpty(SentBy(run))
  {
    hide NonEmpty;
    ChannelSafety(After(START, run));
    SentRun(START, run);
    assert [] + SentBy(run) == SentBy(run);
  }

  // No step is possible but another send.
  ghost predicate Quiescent(c: State) {
    forall e: Event | !e.Send? :: !Enabled(c, e)
  }

  lemma QuiescentFacts(c: State)
    requires Inv(c) && Quiescent(c)
    ensures c.queue.sendBuffer == [] && c.queue.outstanding == [] && c.queue.senders == {}
    ensures c.wire == [] && NEWLINE !in c.arrived
  {
    hide Receive, Frames;
    assert !Enabled(c, Transmit(1)) && !Enabled(c, Complete) && !Enabled(c, Arrive(1)) && !Enabled(c, Read);
    forall t
      ensures t !in c.queue.senders
    {
      assert !Enabled(c, Begin(t));
    }
  }

  // When nothing is left to do, every non-empty message sent has been raised, and nothing is kept
  // back in a buffer.
  lemma InvDelivery(c: State)
    requires Inv(c) && Quiescent(c)
    ensures c.raised == NonEmpty(c.sent)
    ensures c.part == [] && c.arrived == []
  {
    hide Receive, Frames, NonEmpty, Enabled;
    QuiescentFacts(c);
    assert BytesOf(c.queue.resolved) + [] == Frames(c.sent) by {
      assert c.queue.resolved + [] == c.queue.resolved;
    }
    assert c.consumed + c.arrived == Frames(c.sent) by {
      assert c.consumed + c.arrived + [] == c.consumed + c.arrived;
    }
    FramingInverse(c.sent);
    ReceiveAppend([], c.consumed, c.arrived);
    ReceiveWithoutNewline(c.part, c.arrived);
  }

  // ---------------------------------------------------------------------------------------
  // Progress
  // ---------------------------------------------------------------------------------------

  // What is left to do when nobody sends anything more: a byte still to be written counts three,
  // a byte in flight two, a byte that arrived one.
  function Work(c: State): int {
    |c.queue.senders| + |c.queue.sendBuffer| + 3 * (|BytesOf(c.queue.sendBuffer)| - c.written)
    + 2 * |c.wire| + |c.arrived|
  }

  lemma WorkBound(c: State)
    requires Inv(c)
    ensures Work(c) >= 0
  {
    hide Receive, Frames;
    if c.queue.outstanding != [] {
      assert BytesOf(c.queue.sendBuffer) == c.queue.sendBuffer[0].bytes + BytesOf(c.queue.sendBuffer[1..]);
    }
  }

  lemma WorkBegin(c: State, t: Queue.Thread)
    requires Inv(c) && Enabled(c, Begin(t))
    ensures Work(Apply(c, Begin(t))) < Work(c)
  {
    hide Receive, Frames, BytesOf;
    assert Apply(c, Begin(t)).queue.sendBuffer == c.queue.sendBuffer;
  }

  lemma WorkTransmit(c: State, n: nat)
    requires Enabled(c, Transmit(n))
    ensures Work(Apply(c, Transmit(n))) < Work(c)
  {
    hide BytesOf;
  }

  lemma WorkComplete(c: State)
    requires Inv(c) && Enabled(c, Complete)
    ensures Work(Apply(c, Complete)) < Work(c)
  {
    hide Receive, Frames;
    var nodes := c.queue.sendBuffer;
    assert BytesOf(nodes) == nodes[0].bytes + BytesOf(nodes[1..]);
    assert Apply(c, Complete).queue.sendBuffer == nodes[1..];
  }

  lemma WorkArrive(c: State, n: nat)
    requires Enabled(c, Arrive(n))
    ensures Work(Apply(c, Arrive(n))) < Work(c)
  {
    hide BytesOf;
  }

  lemma WorkRead(c: State)
    requires Enabled(c, Read)
    ensures Work(Apply(c, Read)) < Work(c)
  {
    hide BytesOf, ReadStep;
  }

  lemma WorkStep(c: State, e: Event)
    requires Inv(c) && Enabled(c, e) && !e.Send?
    ensures Work(Apply(c, e)) < Work(c)
  {
    hide Inv, Apply, Enabled, Work;
    match e
    case Send(_, _) =>
    case Begin(t) => WorkBegin(c, t);
    case Transmit(n) => WorkTransmit(c, n);
    case Complete => WorkComplete(c);
    case Arrive(n) => WorkArrive(c, n);
    case Read => WorkRead(c);
  }

  lemma {:induction false} WorkRun(c: State, run: seq<Event>)
    requires Inv(c) && Valid(c, run) && forall i | 0 <= i < |run| :: !run[i].Send?
    ensures |run| <= Work(c) - Work(After(c, run))
    decreases |run|
  {
    hide Inv, Apply, Enabled, Work;
    if run != [] {
      InvStep(c, run[0]);
      WorkStep(c, run[0]);
      WorkRun(Apply(c, run[0]), run[1..]);
    }
  }

  // From every reachable state, however the remaining steps are scheduled, the channel stops after
  // at most Work(c) of them ...
  lemma ChannelStops(c: State, rest: seq<Event>)
    requires Reachable(c) && Valid(c, rest) && forall i | 0 <= i < |rest| :: !rest[i].Send?
    ensures |rest| <= Work(c)
  {
    hide Inv, Work;
    InvReachable(c);
    WorkRun(c, rest);
    InvRun(c, rest);
    WorkBound(After(c, rest));
  }

  // ... and where it stops it has raised every non-empty message and keeps nothing back.
  lemma ChannelDelivery(c: State)
    requires Reachable(c) && Quiescent(c)
    ensures c.raised == NonEmpty(c.sent) && c.part == [] && c.arrived == []
  {
    hide Inv, NonEmpty, Quiescent;
    InvReachable(c);
    InvDelivery(c);
  }
}
