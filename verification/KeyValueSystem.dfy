// KeyValueSystem: any number of clients, each with a channel to the storage server and a channel back,
// and the server's handlers running interleaved.  Requests are pipelined freely.
//
// What the bytes of a message parse to is a parameter, of which nothing is assumed.
module KeyValueSystem {
  import opened Base64
  import opened Framing
  import Base64Codec
  import Storage
  import Replies
  import Server = StorageConcurrent
  import Channel
  import Queue = SendQueue
  import Utf8
  import JsonReader
  import opened Wrappers

  // What the text of a message parses to.
  type Parser = Bytes -> Storage.Message

  // One client's connection.
  datatype Link = Link(
    requests: Channel.State,  // from the client to the server
    replies: Channel.State,   // from the server to the client
    taken: nat,               // raised requests that were handed to the handler
    given: nat                // replies that were given to `send`
  )

  datatype State = State(server: Server.State, links: seq<Link>)

  datatype Event =
    | Request(conn: nat, step: Channel.Event)   // any step of a request channel
    | Deliver(conn: nat, step: Channel.Event)   // any step of a reply channel but a send
    | Invoke(conn: nat)                         // onReadMessage: the handler is called
    | Handle(action: Server.Event)              // a handler goes on
    | Give(conn: nat, thread: Queue.Thread)     // a reply is sent

  const NEW_LINK: Link := Link(Channel.START, Channel.START, 0, 0)

  function Start(clients: nat): State {
    State(Server.START, seq(clients, _ => NEW_LINK))
  }

  // The bytes given to `send` for a reply.
  function ReplyBytes(r: Storage.Reply): Bytes {
    Utf8.Encode(Replies.Dump(r))
  }

  function Parsed(parse: Parser, ms: seq<Bytes>): (r: seq<Storage.Message>)
    ensures |r| == |ms|
  {
    seq(|ms|, i requires 0 <= i < |ms| => parse(ms[i]))
  }

  function Rendered(rs: seq<Storage.Reply>): (r: seq<Bytes>)
    ensures |r| == |rs|
  {
    seq(|rs|, i requires 0 <= i < |rs| => ReplyBytes(rs[i]))
  }

  predicate Enabled(parse: Parser, s: State, e: Event) {
    match e
    case Request(c, step) => c < |s.links| && Channel.Enabled(s.links[c].requests, step)
    case Deliver(c, step) => c < |s.links| && !step.Send? && Channel.Enabled(s.links[c].replies, step)
    case Invoke(c) => c < |s.links| && s.links[c].taken < |s.links[c].requests.raised| && c !in s.server.handlers
    case Handle(step) => !step.Invoke? && Server.Enabled(s.server, step)
    case Give(c, t) =>
      && c < |s.links| && s.links[c].given < |Server.DoneReplies(s.server.done, c)|
      && Channel.Enabled(s.links[c].replies,
                         Channel.Send(t, ReplyBytes(Server.DoneReplies(s.server.done, c)[s.links[c].given])))
  }

  function Apply(parse: Parser, s: State, e: Event): State
    requires Enabled(parse, s, e)
  {
    match e
    case Request(c, step) =>
      s.(links := s.links[c := s.links[c].(requests := Channel.Apply(s.links[c].requests, step))])
    case Deliver(c, step) =>
      s.(links := s.links[c := s.links[c].(replies := Channel.Apply(s.links[c].replies, step))])
    case Invoke(c) =>
      var link := s.links[c];
      State(Server.Apply(s.server, Server.Invoke(c, parse(link.requests.raised[link.taken]))),
            s.links[c := link.(taken := link.taken + 1)])
    case Handle(step) => s.(server := Server.Apply(s.server, step))
    case Give(c, t) =>
      var link := s.links[c];
      var bytes := ReplyBytes(Server.DoneReplies(s.server.done, c)[link.given]);
      s.(links := s.links[c := link.(replies := Channel.Apply(link.replies, Channel.Send(t, bytes)),
                                     given := link.given + 1)])
  }

  predicate Valid(parse: Parser, s: State, run: seq<Event>)
    decreases |run|
  {
    run == [] || (Enabled(parse, s, run[0]) && Valid(parse, Apply(parse, s, run[0]), run[1..]))
  }

  function After(parse: Parser, s: State, run: seq<Event>): State
    requires Valid(parse, s, run)
    decreases |run|
  {
    if run == [] then s else After(parse, Apply(parse, s, run[0]), run[1..])
  }

  ghost predicate Reachable(parse: Parser, clients: nat, s: State) {
    exists run :: Valid(parse, Start(clients), run) && After(parse, Start(clients), run) == s
  }

  // ---------------------------------------------------------------------------------------
  // The invariant
  // ---------------------------------------------------------------------------------------

  ghost predicate LinkInv(parse: Parser, server: Server.State, c: nat, link: Link) {
    && Channel.Inv(link.requests)
    && Channel.Inv(link.replies)
    && link.taken <= |link.requests.raised|
    && Server.OfConn(server.calls, c) == Parsed(parse, link.requests.raised[..link.taken])
    && link.given <= |Server.DoneReplies(server.done, c)|
    && link.replies.sent == Rendered(Server.DoneReplies(server.done, c)[..link.given])
  }

  ghost predicate Inv(parse: Parser, s: State) {
    && Server.Inv(s.server)
    && forall c | 0 <= c < |s.links| :: LinkInv(parse, s.server, c, s.links[c])
  }

  lemma InvStart(parse: Parser, clients: nat)
    ensures Inv(parse, Start(clients))
  {
    hide Channel.Inv, Server.Inv;
    Server.InvStart();
    Channel.InvStart();
    forall c | 0 <= c < clients
      ensures LinkInv(parse, Server.START, c, NEW_LINK)
    {
      assert Server.OfConn([], c) == [] && Server.DoneReplies([], c) == [];
    }
  }

  // A channel step that is not a send keeps what was sent, and what was raised grows at its end.
  lemma ChannelGrows(c: Channel.State, e: Channel.Event)
    requires Channel.Enabled(c, e)
    ensures var d := Channel.Apply(c, e);
            && c.raised <= d.raised
            && d.sent == if e.Send? then c.sent + [e.message] else c.sent
  {
    hide ReadStep;
  }

  // The steps of a handler keep the calls, and its replies grow at their end.
  lemma ServerGrows(s: Server.State, e: Server.Event, c: nat)
    requires Server.Enabled(s, e)
    ensures var t := Server.Apply(s, e);
            && Server.OfConn(t.calls, c) == Server.OfConn(s.calls, c)
               + (if e.Invoke? && e.conn == c then [e.message] else [])
            && Server.DoneReplies(s.done, c) <= Server.DoneReplies(t.done, c)
  {
    hide Storage.Interpret, Server.OfConn, Server.DoneReplies;
    match e {
      case Invoke(d, m) => Server.OfConnSnoc(s.calls, Server.Entry(d, m), c);
      case Answer(d) =>
        var h := s.handlers[d];
        Server.DoneRepliesSnoc(
          s.done, Server.Record(d, h.message, h.step.replies, h.invoked, h.step.at, |s.log|), c);
      case _ =>
    }
  }

  lemma InvRequest(parse: Parser, s: State, c: nat, step: Channel.Event)
    requires Inv(parse, s) && Enabled(parse, s, Request(c, step))
    ensures Inv(parse, Apply(parse, s, Request(c, step)))
  {
    hide Channel.Inv, Channel.Enabled, Channel.Apply, Server.Inv, Server.OfConn, Server.DoneReplies;
    var link := s.links[c];
    assert LinkInv(parse, s.server, c, link);
    Channel.InvStep(link.requests, step);
    ChannelGrows(link.requests, step);
    var t := Apply(parse, s, Request(c, step));
    assert t.links[c].requests.raised[..link.taken] == link.requests.raised[..link.taken];
    forall d | 0 <= d < |t.links|
      ensures LinkInv(parse, t.server, d, t.links[d])
    {
      assert LinkInv(parse, s.server, d, s.links[d]);
    }
  }

  lemma InvDeliver(parse: Parser, s: State, c: nat, step: Channel.Event)
    requires Inv(parse, s) && Enabled(parse, s, Deliver(c, step))
    ensures Inv(parse, Apply(parse, s, Deliver(c, step)))
  {
    hide Channel.Inv, Channel.Enabled, Channel.Apply, Server.Inv, Server.OfConn, Server.DoneReplies;
    var link := s.links[c];
    assert LinkInv(parse, s.server, c, link);
    Channel.InvStep(link.replies, step);
    ChannelGrows(link.replies, step);
    var t := Apply(parse, s, Deliver(c, step));
    forall d | 0 <= d < |t.links|
      ensures LinkInv(parse, t.server, d, t.links[d])
    {
      assert LinkInv(parse, s.server, d, s.links[d]);
    }
  }

  // The replies already given are not affected by what the handlers do next.
  lemma LinkKept(parse: Parser, s: Server.State, t: Server.State, c: nat, link: Link)
    requires LinkInv(parse, s, c, link)
    requires Server.DoneReplies(s.done, c) <= Server.DoneReplies(t.done, c)
    ensures Server.DoneReplies(t.done, c)[..link.given] == Server.DoneReplies(s.done, c)[..link.given]
    ensures link.taken < |link.requests.raised| ==>
              Parsed(parse, link.requests.raised[..link.taken + 1])
              == Parsed(parse, link.requests.raised[..link.taken]) + [parse(link.requests.raised[link.taken])]
  {
    hide Channel.Inv, Server.OfConn, Server.DoneReplies;
  }

  lemma InvInvoke(parse: Parser, s: State, c: nat)
    requires Inv(parse, s) && Enabled(parse, s, Invoke(c))
    ensures Inv(parse, Apply(parse, s, Invoke(c)))
  {
    hide Channel.Inv, Server.Inv, Server.OfConn, Server.DoneReplies, Server.Apply;
    var link := s.links[c];
    var e := Server.Invoke(c, parse(link.requests.raised[link.taken]));
    Server.InvStep(s.server, e);
    var t := Apply(parse, s, Invoke(c));
    forall d | 0 <= d < |t.links|
      ensures LinkInv(parse, t.server, d, t.links[d])
    {
      assert LinkInv(parse, s.server, d, s.links[d]);
      ServerGrows(s.server, e, d);
      LinkKept(parse, s.server, t.server, d, s.links[d]);
    }
  }

  lemma InvHandle(parse: Parser, s: State, step: Server.Event)
    requires Inv(parse, s) && Enabled(parse, s, Handle(step))
    ensures Inv(parse, Apply(parse, s, Handle(step)))
  {
    hide Channel.Inv, Server.Inv, Server.OfConn, Server.DoneReplies, Server.Apply;
    Server.InvStep(s.server, step);
    var t := Apply(parse, s, Handle(step));
    forall d | 0 <= d < |t.links|
      ensures LinkInv(parse, t.server, d, t.links[d])
    {
      assert LinkInv(parse, s.server, d, s.links[d]);
      ServerGrows(s.server, step, d);
      LinkKept(parse, s.server, t.server, d, s.links[d]);
    }
  }

  lemma RenderedNext(rs: seq<Storage.Reply>, n: nat)
    requires n < |rs|
    ensures Rendered(rs[..n + 1]) == Rendered(rs[..n]) + [ReplyBytes(rs[n])]
  {
    hide ReplyBytes;
  }

  lemma InvGive(parse: Parser, s: State, c: nat, thread: Queue.Thread)
    requires Inv(parse, s) && Enabled(parse, s, Give(c, thread))
    ensures Inv(parse, Apply(parse, s, Give(c, thread)))
  {
    hide Channel.Inv, Channel.Enabled, Channel.Apply, Server.Inv, Server.OfConn, Server.DoneReplies;
    hide Rendered, Parsed, ReplyBytes;
    var link := s.links[c];
    assert LinkInv(parse, s.server, c, link);
    var all := Server.DoneReplies(s.server.done, c);
    var step := Channel.Send(thread, ReplyBytes(all[link.given]));
    Channel.InvStep(link.replies, step);
    ChannelGrows(link.replies, step);
    RenderedNext(all, link.given);
    var t := Apply(parse, s, Give(c, thread));
    forall d | 0 <= d < |t.links|
      ensures LinkInv(parse, t.server, d, t.links[d])
    {
      assert LinkInv(parse, s.server, d, s.links[d]);
    }
  }

  lemma InvStep(parse: Parser, s: State, e: Event)
    requires Inv(parse, s) && Enabled(parse, s, e)
    ensures Inv(parse, Apply(parse, s, e))
  {
    hide Inv, Apply, Enabled;
    match e
    case Request(c, step) => InvRequest(parse, s, c, step);
    case Deliver(c, step) => InvDeliver(parse, s, c, step);
    case Invoke(c) => InvInvoke(parse, s, c);
    case Handle(step) => InvHandle(parse, s, step);
    case Give(c, thread) => InvGive(parse, s, c, thread);
  }

  lemma LinksStay(parse: Parser, s: State, e: Event)
    requires Enabled(parse, s, e)
    ensures |Apply(parse, s, e).links| == |s.links|
  {
    hide Server.Apply, Channel.Apply, Channel.Enabled;
  }

  lemma {:induction false} InvRun(parse: Parser, s: State, run: seq<Event>)
    requires Inv(parse, s) && Valid(parse, s, run)
    ensures Inv(parse, After(parse, s, run)) && |After(parse, s, run).links| == |s.links|
    decreases |run|
  {
    hide Inv, Apply, Enabled;
    if run != [] {
      InvStep(parse, s, run[0]);
      LinksStay(parse, s, run[0]);
      InvRun(parse, Apply(parse, s, run[0]), run[1..]);
    }
  }

  // ---------------------------------------------------------------------------------------
  // Refinement
  // ---------------------------------------------------------------------------------------

  lemma {:induction false} NonEmptyAll(ms: seq<Bytes>)
    requires forall i | 0 <= i < |ms| :: |ms[i]| > 0
    ensures NonEmpty(ms) == ms
  {
    if ms != [] {
      NonEmptyAll(ms[1..]);
      assert NonEmpty(ms) == [ms[0]] + ms[1..];
    }
  }

  // No reply is empty or a single byte, so every one is sent and none is dropped.
  lemma RepliesAreSent(rs: seq<Storage.Reply>)
    ensures NonEmpty(Rendered(rs)) == Rendered(rs)
    ensures forall r: Storage.Reply :: Base64Codec.EncodeOutcome(ReplyBytes(r)).Returned?
  {
    hide Base64.Encode;
    forall r: Storage.Reply
      ensures |ReplyBytes(r)| > 1
    {
      Replies.DumpLength(r);
      Utf8.NoShorter(Replies.Dump(r));
    }
    NonEmptyAll(Rendered(rs));
  }

  // What a client makes of the bytes it receives: as UTF-8 they are a JSON object with exactly these
  // members.
  predicate Says(bytes: Bytes, reply: Storage.Reply) {
    match Utf8.Decode(bytes)
    case None => false
    case Some(text) =>
      JsonReader.ReadObject(text)
      == Some(match reply
              case Error(description) => [("description", description), ("status", "error")]
              case OkRead(value) => [("status", "ok"), ("value", value)]
              case OkWrite => [("status", "ok")])
  }

  lemma BytesSay(reply: Storage.Reply)
    ensures Says(ReplyBytes(reply), reply)
  {
    hide Utf8.Encode, Utf8.Decode, JsonReader.ReadObject, Replies.Dump;
    Utf8.RoundTrip(Replies.Dump(reply));
    Replies.ReadsReply(reply);
  }

  // No bytes can be taken for two replies.
  lemma SayOneThing(bytes: Bytes, p: Storage.Reply, q: Storage.Reply)
    requires Says(bytes, p) && Says(bytes, q)
    ensures p == q
  {
    hide Utf8.Decode, JsonReader.ReadObject;
  }

  // The messages are understood as the first of the replies, one for one.
  predicate SayFirst(messages: seq<Bytes>, replies: seq<Storage.Reply>) {
    |messages| <= |replies| && forall i | 0 <= i < |messages| :: Says(messages[i], replies[i])
  }

  lemma RenderedSay(messages: seq<Bytes>, replies: seq<Storage.Reply>)
    requires messages <= Rendered(replies)
    ensures SayFirst(messages, replies)
  {
    hide Says, ReplyBytes;
    forall i | 0 <= i < |messages|
      ensures Says(messages[i], replies[i])
    {
      BytesSay(replies[i]);
      assert messages[i] == Rendered(replies)[i];
    }
  }

  // What the sequential map refines for one client, in a state of the system.
  ghost predicate Refines(parse: Parser, s: State, c: nat)
    requires c < |s.links|
  {
    && Server.OfConn(s.server.log, c) <= Parsed(parse, NonEmpty(s.links[c].requests.sent))
    && SayFirst(s.links[c].replies.raised, Server.LogReplies(s.server.log, c))
  }

  ghost predicate Complete(parse: Parser, s: State, c: nat)
    requires c < |s.links|
  {
    && Server.OfConn(s.server.log, c) == Parsed(parse, NonEmpty(s.links[c].requests.sent))
    && SayFirst(s.links[c].replies.raised, Server.LogReplies(s.server.log, c))
    && |s.links[c].replies.raised| == |Server.LogReplies(s.server.log, c)|
  }

  lemma ParsedPrefix(parse: Parser, a: seq<Bytes>, b: seq<Bytes>)
    requires a <= b
    ensures Parsed(parse, a) <= Parsed(parse, b)
  {
  }

  lemma RenderedPrefix(p: seq<Storage.Reply>, q: seq<Storage.Reply>)
    requires p <= q
    ensures Rendered(p) <= Rendered(q)
  {
    hide ReplyBytes;
  }

  lemma InvRefines(parse: Parser, s: State, c: nat)
    requires Inv(parse, s) && c < |s.links|
    ensures Refines(parse, s, c)
  {
    hide Channel.Inv, Server.OfConn, Server.DoneReplies, Server.LogReplies, Server.Sequential;
    hide Rendered, Parsed, SayFirst, NonEmpty;
    var link := s.links[c];
    assert LinkInv(parse, s.server, c, link);
    assert Server.ConnInv(s.server, c);
    Channel.InvSafety(link.requests);
    Channel.InvSafety(link.replies);
    var answers := Server.LogReplies(s.server.log, c);
    var given := Server.DoneReplies(s.server.done, c)[..link.given];
    RepliesAreSent(given);
    ParsedPrefix(parse, link.requests.raised[..link.taken], NonEmpty(link.requests.sent));
    RenderedPrefix(given, answers);
    RenderedSay(link.replies.raised, answers);
  }

  predicate Within(s: State) {
    && (forall c | c in s.server.handlers :: c < |s.links|)
    && (forall i | 0 <= i < |s.server.log| :: s.server.log[i].conn < |s.links|)
  }

  lemma StartWithin(clients: nat)
    ensures Within(Start(clients))
  {
  }

  lemma WithinStep(parse: Parser, s: State, e: Event)
    requires Within(s) && Enabled(parse, s, e)
    ensures Within(Apply(parse, s, e))
  {
    hide Storage.Interpret, Channel.Apply, Channel.Enabled;
  }

  lemma {:induction false} OnlyClients(parse: Parser, s: State, run: seq<Event>)
    requires Within(s) && Valid(parse, s, run)
    ensures Within(After(parse, s, run)) && |After(parse, s, run).links| == |s.links|
    decreases |run|
  {
    hide Within, Apply, Enabled;
    if run != [] {
      WithinStep(parse, s, run[0]);
      LinksStay(parse, s, run[0]);
      OnlyClients(parse, Apply(parse, s, run[0]), run[1..]);
    }
  }

  lemma InvReachable(parse: Parser, clients: nat, s: State)
    requires Reachable(parse, clients, s)
    ensures Inv(parse, s) && Within(s) && |s.links| == clients
  {
    hide Inv, Within;
    var run :| Valid(parse, Start(clients), run) && After(parse, Start(clients), run) == s;
    InvStart(parse, clients);
    InvRun(parse, Start(clients), run);
    StartWithin(clients);
    OnlyClients(parse, Start(clients), run);
  }

  // In every reachable state, the messages that took effect (the server's log) are, for every
  // client, a prefix of its non-empty requests in the order sent; the client has received a prefix
  // of the replies that executing the log one message at a time gives it; and the server's map is
  // the one this execution ends with.
  lemma SystemRefinement(parse: Parser, clients: nat, s: State)
    requires Reachable(parse, clients, s)
    ensures |s.links| == clients && forall c | 0 <= c < clients :: Refines(parse, s, c)
    ensures s.server.data == Server.Sequential(s.server.log)
  {
    hide Within, Refines, LinkInv, Server.Sequential;
    InvReachable(parse, clients, s);
    forall c | 0 <= c < clients
      ensures Refines(parse, s, c)
    {
      InvRefines(parse, s, c);
    }
  }

  // Any thread of a client that is not sending already may send any message that can be encoded.
  lemma ClientsMaySend(parse: Parser, s: State, c: nat, thread: Queue.Thread, message: Bytes)
    requires c < |s.links|
    ensures Enabled(parse, s, Request(c, Channel.Send(thread, message)))
       <==> thread !in s.links[c].requests.queue.senders && |message| != 1
  {
    hide Encode;
  }

  // The requests a client sent in a run.
  function SentBy(run: seq<Event>, c: nat): seq<Bytes> {
    if run == [] then []
    else
      (if run[0].Request? && run[0].conn == c && run[0].step.Send? then [run[0].step.message] else [])
      + SentBy(run[1..], c)
  }

  lemma SentStep(parse: Parser, s: State, e: Event, c: nat)
    requires Enabled(parse, s, e) && c < |s.links|
    ensures |Apply(parse, s, e).links| == |s.links|
    ensures Apply(parse, s, e).links[c].requests.sent == s.links[c].requests.sent + SentBy([e], c)
  {
    hide Channel.Apply, Channel.Enabled, Server.Apply, Server.Enabled;
    assert [e][1..] == [];
    if e.Request? {
      ChannelGrows(s.links[e.conn].requests, e.step);
    }
  }

  lemma {:induction false} SentRun(parse: Parser, s: State, run: seq<Event>, c: nat)
    requires Valid(parse, s, run) && c < |s.links|
    ensures |After(parse, s, run).links| == |s.links|
    ensures After(parse, s, run).links[c].requests.sent == s.links[c].requests.sent + SentBy(run, c)
    decreases |run|
  {
    hide Apply, Enabled;
    if run != [] {
      SentStep(parse, s, run[0], c);
      SentRun(parse, Apply(parse, s, run[0]), run[1..], c);
      assert [run[0]][1..] == [];
    }
  }

  lemma SentFromStart(parse: Parser, clients: nat, run: seq<Event>, c: nat)
    requires Valid(parse, Start(clients), run) && c < clients
    ensures var s := After(parse, Start(clients), run);
            |s.links| == clients && s.links[c].requests.sent == SentBy(run, c)
  {
    hide Valid, After, SentBy;
    SentRun(parse, Start(clients), run, c);
    assert [] + SentBy(run, c) == SentBy(run, c);
  }

  // Over whole runs, in the requests each client sent in the run itself: what took effect are the
  // first of its non-empty requests, and what it received says the first of the replies that the
  // sequential execution of the log gives it.
  lemma RunRefinement(parse: Parser, clients: nat, run: seq<Event>, c: nat)
    requires Valid(parse, Start(clients), run) && c < clients
    ensures var s := After(parse, Start(clients), run);
            && Server.OfConn(s.server.log, c) <= Parsed(parse, NonEmpty(SentBy(run, c)))
            && |s.links| == clients
            && SayFirst(s.links[c].replies.raised, Server.LogReplies(s.server.log, c))
  {
    hide Server.OfConn, Server.LogReplies, Parsed, NonEmpty, SayFirst, Server.Sequential, SentBy, After, Start;
    var s := After(parse, Start(clients), run);
    SentFromStart(parse, clients, run, c);
    SystemRefinement(parse, clients, s);
    assert Refines(parse, s, c);
  }

  // No step is possible but another request.
  ghost predicate Quiescent(parse: Parser, s: State) {
    forall e: Event | !(e.Request? && e.step.Send?) :: !Enabled(parse, s, e)
  }

  // A handler can always go on.
  lemma HandlerGoesOn(parse: Parser, s: State, c: Server.Conn)
    requires Quiescent(parse, s)
    ensures c !in s.server.handlers
  {
    assert !Enabled(parse, s, Handle(Server.Check(c))) && !Enabled(parse, s, Handle(Server.Fetch(c)));
    assert !Enabled(parse, s, Handle(Server.Store(c))) && !Enabled(parse, s, Handle(Server.Answer(c)));
  }

  lemma LinkQuiescent(parse: Parser, s: State, c: nat)
    requires Quiescent(parse, s) && c < |s.links|
    ensures Channel.Quiescent(s.links[c].requests) && Channel.Quiescent(s.links[c].replies)
  {
    hide Channel.Enabled;
    forall e: Channel.Event | !e.Send?
      ensures !Channel.Enabled(s.links[c].requests, e) && !Channel.Enabled(s.links[c].replies, e)
    {
      assert !Enabled(parse, s, Request(c, e)) && !Enabled(parse, s, Deliver(c, e));
    }
  }

  lemma AllGiven(parse: Parser, s: State, c: nat)
    requires Inv(parse, s) && Quiescent(parse, s) && c < |s.links|
    ensures s.links[c].given == |Server.DoneReplies(s.server.done, c)|
  {
    hide Channel.Inv, Server.Inv, Server.OfConn, Server.DoneReplies, Base64Codec.EncodeOutcome, ReplyBytes, Rendered;
    var link := s.links[c];
    var all := Server.DoneReplies(s.server.done, c);
    assert LinkInv(parse, s.server, c, link);
    LinkQuiescent(parse, s, c);
    Channel.QuiescentFacts(link.replies);
    RepliesAreSent(all);
    assert !Enabled(parse, s, Give(c, 0));
  }

  lemma InvComplete(parse: Parser, s: State, c: nat)
    requires Inv(parse, s) && Quiescent(parse, s) && c < |s.links|
    ensures Complete(parse, s, c)
  {
    hide Channel.Inv, Channel.Quiescent, Server.OfConn, Server.DoneReplies, Server.LogReplies, Server.Sequential;
    hide Rendered, Parsed, SayFirst, NonEmpty;
    var link := s.links[c];
    var all := Server.DoneReplies(s.server.done, c);
    assert LinkInv(parse, s.server, c, link);
    assert Server.ConnInv(s.server, c);
    LinkQuiescent(parse, s, c);
    Channel.InvDelivery(link.requests);
    Channel.InvDelivery(link.replies);
    HandlerGoesOn(parse, s, c);
    assert !Enabled(parse, s, Invoke(c));
    assert link.requests.raised[..link.taken] == NonEmpty(link.requests.sent);
    AllGiven(parse, s, c);
    assert all[..link.given] == all;
    assert Server.LogReplies(s.server.log, c) == all;
    RepliesAreSent(all);
    RenderedSay(link.replies.raised, all);
  }

  // When nothing is left to do, every client's non-empty requests have all taken effect, and it
  // has received exactly the replies the sequential execution gives it.
  lemma SystemDelivery(parse: Parser, clients: nat, s: State, c: nat)
    requires Reachable(parse, clients, s) && c < |s.links| && Quiescent(parse, s)
    ensures Complete(parse, s, c)
  {
    hide Inv, Within, Quiescent, Complete;
    InvReachable(parse, clients, s);
    InvComplete(parse, s, c);
  }

  // ---------------------------------------------------------------------------------------
  // One client
  // ---------------------------------------------------------------------------------------

  // The replies of the sequential map to a list of messages.
  function AllReplies(ms: seq<Storage.Message>): seq<Storage.Reply> {
    if ms == [] then []
    else
      var n := |ms| - 1;
      AllReplies(ms[..n]) + Storage.Replies(Storage.Run(ms[..n]), Storage.Interpret(ms[n]))
  }

  lemma {:induction false} AllRepliesPrefix(a: seq<Storage.Message>, b: seq<Storage.Message>)
    requires a <= b
    ensures AllReplies(a) <= AllReplies(b)
    decreases |b|
  {
    hide Storage.Run, Storage.Interpret, Storage.Replies;
    if a != b {
      AllRepliesPrefix(a, b[..|b| - 1]);
    }
  }

  lemma OneConnLast(log: seq<Server.Entry>, c: Server.Conn)
    ensures log == [] ==> Server.OfConn(log, c) == [] && Server.LogReplies(log, c) == []
    ensures log != [] ==>
              var n := |log| - 1;
              log[n].conn == c ==>
                && Server.OfConn(log, c) == Server.OfConn(log[..n], c) + [log[n].message]
                && Server.LogReplies(log, c) == Server.LogReplies(log[..n], c) + Server.SequentialReplies(log, n)
  {
    hide Storage.Run, Storage.Interpret, Storage.Replies;
  }

  lemma {:induction false} OneConnLog(log: seq<Server.Entry>, c: Server.Conn)
    requires forall i | 0 <= i < |log| :: log[i].conn == c
    ensures Server.OfConn(log, c) == Server.Messages(log)
    ensures Server.LogReplies(log, c) == AllReplies(Server.Messages(log))
  {
    hide Storage.Run, Storage.Interpret, Storage.Replies, Server.OfConn, Server.LogReplies;
    OneConnLast(log, c);
    if log != [] {
      var n := |log| - 1;
      OneConnLog(log[..n], c);
      var ms := Server.Messages(log);
      assert ms[..n] == Server.Messages(log[..n]);
      assert ms == ms[..n] + [log[n].message];
    }
  }

  lemma SayMore(messages: seq<Bytes>, few: seq<Storage.Reply>, more: seq<Storage.Reply>)
    requires SayFirst(messages, few) && few <= more
    ensures SayFirst(messages, more)
  {
    hide Says;
  }

  // A single client receives a prefix of the replies that the sequential map gives to its
  // non-empty requests.
  lemma OneClient(parse: Parser, s: State)
    requires Reachable(parse, 1, s) && |s.links| == 1
    ensures var link := s.links[0];
            SayFirst(link.replies.raised, AllReplies(Parsed(parse, NonEmpty(link.requests.sent))))
  {
    hide Inv, Server.OfConn, Server.LogReplies, SayFirst, Parsed, NonEmpty, AllReplies;
    InvReachable(parse, 1, s);
    InvRefines(parse, s, 0);
    OneConnLog(s.server.log, 0);
    var ms := Parsed(parse, NonEmpty(s.links[0].requests.sent));
    AllRepliesPrefix(Server.OfConn(s.server.log, 0), ms);
    SayMore(s.links[0].replies.raised, Server.LogReplies(s.server.log, 0), AllReplies(ms));
  }

  // ---------------------------------------------------------------------------------------
  // Real time across clients
  // ---------------------------------------------------------------------------------------

  // What took effect stays, and in the same place.
  lemma LogGrowsStep(parse: Parser, s: State, e: Event)
    requires Enabled(parse, s, e)
    ensures s.server.log <= Apply(parse, s, e).server.log
  {
    hide Channel.Apply, Channel.Enabled, Storage.Interpret, Server.DoneReplies;
  }

  lemma {:induction false} LogGrows(parse: Parser, s: State, run: seq<Event>)
    requires Valid(parse, s, run)
    ensures s.server.log <= After(parse, s, run).server.log
    decreases |run|
  {
    hide Apply, Enabled;
    if run != [] {
      LogGrowsStep(parse, s, run[0]);
      LogGrows(parse, Apply(parse, s, run[0]), run[1..]);
    }
  }

  // The messages and the replies of one client grow along the log, the replies with every message.
  lemma {:induction false} AlongLog(log: seq<Server.Entry>, n: nat, c: Server.Conn)
    requires n <= |log|
    ensures |Server.OfConn(log[..n], c)| <= |Server.OfConn(log, c)|
    ensures |Server.LogReplies(log[..n], c)| <= |Server.LogReplies(log, c)|
    ensures n < |log| && log[n].conn == c ==>
              && |Server.OfConn(log[..n], c)| < |Server.OfConn(log, c)|
              && |Server.LogReplies(log[..n], c)| < |Server.LogReplies(log, c)|
    decreases |log|
  {
    hide Storage.Run, Storage.Interpret, Storage.Replies;
    if n < |log| {
      var last := |log| - 1;
      var before := log[..last];
      assert before[..n] == log[..n];
      AlongLog(before, n, c);
      Storage.ReplyCount(Server.Sequential(before), log[last].message);
    } else {
      assert log[..n] == log;
    }
  }

  // Let client `a` have received, in state `s`, the replies to its request that took effect as
  // log[i], and let the request of client `b` that took effect as log[j] not have been sent yet in
  // `s`: it follows at least as many non-empty requests of `b` as were sent in `s`.  Then log[i]
  // comes before log[j].
  lemma RealTime(parse: Parser, clients: nat, s: State, run: seq<Event>, a: nat, i: nat, b: nat, j: nat)
    requires Reachable(parse, clients, s) && Valid(parse, s, run) && a < |s.links| && b < |s.links|
    requires var log := After(parse, s, run).server.log;
             && i < |log| && log[i].conn == a
             && |Server.LogReplies(log[..i + 1], a)| <= |s.links[a].replies.raised|
             && j < |log| && log[j].conn == b
             && |NonEmpty(s.links[b].requests.sent)| <= |Server.OfConn(log[..j], b)|
    ensures i < j
  {
    hide Inv, Within, Apply, Enabled, Server.OfConn, Server.LogReplies, NonEmpty;
    InvReachable(parse, clients, s);
    InvRefines(parse, s, a);
    InvRefines(parse, s, b);
    LogGrows(parse, s, run);
    var now, log := s.server.log, After(parse, s, run).server.log;
    if |now| <= i {
      assert now == log[..i + 1][..|now|] && log[..i] == log[..i + 1][..i];
      AlongLog(log[..i + 1], i, a);
      AlongLog(log[..i], |now|, a);
      assert log[..i][..|now|] == now;
    }
    if j < |now| {
      assert log[..j] == now[..j] && now[j] == log[j];
      AlongLog(now, j, b);
    }
  }
}
