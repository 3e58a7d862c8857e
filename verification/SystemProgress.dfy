// SystemProgress: once no client sends anything more, the system comes to rest whatever the order
// of the remaining steps, and then every client has all its replies.
module SystemProgress {
  import opened Framing
  import opened KeyValueSystem
  import Storage
  import Server = StorageConcurrent
  import Channel

  // ---------------------------------------------------------------------------------------
  // Sums over the clients
  // ---------------------------------------------------------------------------------------

  function Sum(f: nat -> nat, n: nat): nat {
    if n == 0 then 0 else Sum(f, n - 1) + f(n - 1)
  }

  // Changing the summand of one client changes the sum by the difference.
  lemma {:induction false} SumChange(f: nat -> nat, g: nat -> nat, n: nat, c: nat)
    requires forall d: nat | d != c :: f(d) == g(d)
    ensures Sum(g, n) == if c < n then Sum(f, n) - f(c) + g(c) else Sum(f, n)
  {
    if n > 0 {
      SumChange(f, g, n - 1, c);
    }
  }

  // ---------------------------------------------------------------------------------------
  // The rank
  // ---------------------------------------------------------------------------------------

  function Nat(i: int): nat {
    if i < 0 then 0 else i
  }

  // Requests that no handler was called for.
  function Waiting(s: State, c: nat): nat {
    if c < |s.links| then Nat(|NonEmpty(s.links[c].requests.sent)| - s.links[c].taken) else 0
  }

  function RequestWork(s: State, c: nat): nat {
    if c < |s.links| then Nat(Channel.Work(s.links[c].requests)) else 0
  }

  // Steps the handler of a client still has to do.
  function HandlerWork(s: State, c: nat): nat {
    if c !in s.server.handlers then 0
    else
      match s.server.handlers[c].step
      case ToCheck(_) => 3
      case ToFetch(_) => 2
      case ToStore(_, _) => 2
      case ToAnswer(_, _) => 1
  }

  // Replies that were not given to `send`.
  function Ungiven(s: State, c: nat): nat {
    if c < |s.links| then Nat(|Server.DoneReplies(s.server.done, c)| - s.links[c].given) else 0
  }

  function ReplyWork(s: State, c: nat): nat {
    if c < |s.links| then Nat(Channel.Work(s.links[c].replies)) else 0
  }

  datatype Rank = Rank(waiting: nat, requestWork: nat, handlerWork: nat, ungiven: nat, replyWork: nat)

  function RankOf(s: State): Rank {
    Rank(Sum(c => Waiting(s, c), |s.links|), Sum(c => RequestWork(s, c), |s.links|),
         Sum(c => HandlerWork(s, c), |s.links|), Sum(c => Ungiven(s, c), |s.links|),
         Sum(c => ReplyWork(s, c), |s.links|))
  }

  // The lexicographic order.
  predicate Below(a: Rank, b: Rank) {
    if a.waiting != b.waiting then a.waiting < b.waiting
    else if a.requestWork != b.requestWork then a.requestWork < b.requestWork
    else if a.handlerWork != b.handlerWork then a.handlerWork < b.handlerWork
    else if a.ungiven != b.ungiven then a.ungiven < b.ungiven
    else a.replyWork < b.replyWork
  }

  // A step that changes the summands of one client only.
  lemma RankChange(s: State, t: State, c: nat)
    requires |s.links| == |t.links| && c < |s.links|
    requires forall d: nat | d != c ::
               && Waiting(s, d) == Waiting(t, d) && RequestWork(s, d) == RequestWork(t, d)
               && HandlerWork(s, d) == HandlerWork(t, d) && Ungiven(s, d) == Ungiven(t, d)
               && ReplyWork(s, d) == ReplyWork(t, d)
    requires Below(Rank(Waiting(t, c), RequestWork(t, c), HandlerWork(t, c), Ungiven(t, c), ReplyWork(t, c)),
                   Rank(Waiting(s, c), RequestWork(s, c), HandlerWork(s, c), Ungiven(s, c), ReplyWork(s, c)))
    ensures Below(RankOf(t), RankOf(s))
  {
    hide Waiting, RequestWork, HandlerWork, Ungiven, ReplyWork;
    var n := |s.links|;
    SumChange(d => Waiting(s, d), d => Waiting(t, d), n, c);
    SumChange(d => RequestWork(s, d), d => RequestWork(t, d), n, c);
    SumChange(d => HandlerWork(s, d), d => HandlerWork(t, d), n, c);
    SumChange(d => Ungiven(s, d), d => Ungiven(t, d), n, c);
    SumChange(d => ReplyWork(s, d), d => ReplyWork(t, d), n, c);
  }

  predicate IsSend(e: Event) {
    e.Request? && e.step.Send?
  }

  lemma RankRequest(parse: Parser, s: State, c: nat, step: Channel.Event)
    requires Inv(parse, s) && Enabled(parse, s, Request(c, step)) && !step.Send?
    ensures Below(RankOf(Apply(parse, s, Request(c, step))), RankOf(s))
  {
    hide Channel.Inv, Channel.Enabled, Channel.Apply, Channel.Work, Server.Inv, Server.DoneReplies, NonEmpty, RankOf;
    assert LinkInv(parse, s.server, c, s.links[c]);
    ChannelGrows(s.links[c].requests, step);
    Channel.WorkStep(s.links[c].requests, step);
    Channel.InvStep(s.links[c].requests, step);
    Channel.WorkBound(Channel.Apply(s.links[c].requests, step));
    RankChange(s, Apply(parse, s, Request(c, step)), c);
  }

  lemma RankDeliver(parse: Parser, s: State, c: nat, step: Channel.Event)
    requires Inv(parse, s) && Enabled(parse, s, Deliver(c, step))
    ensures Below(RankOf(Apply(parse, s, Deliver(c, step))), RankOf(s))
  {
    hide Channel.Inv, Channel.Enabled, Channel.Apply, Channel.Work, Server.Inv, Server.DoneReplies, NonEmpty, RankOf;
    assert LinkInv(parse, s.server, c, s.links[c]);
    Channel.WorkStep(s.links[c].replies, step);
    Channel.InvStep(s.links[c].replies, step);
    Channel.WorkBound(Channel.Apply(s.links[c].replies, step));
    RankChange(s, Apply(parse, s, Deliver(c, step)), c);
  }

  lemma RankInvoke(parse: Parser, s: State, c: nat)
    requires Inv(parse, s) && Enabled(parse, s, Invoke(c))
    ensures Below(RankOf(Apply(parse, s, Invoke(c))), RankOf(s))
  {
    hide Channel.Inv, Channel.Work, Server.Inv, Server.DoneReplies, NonEmpty, RankOf, Storage.Interpret;
    assert LinkInv(parse, s.server, c, s.links[c]);
    Channel.InvSafety(s.links[c].requests);
    RankChange(s, Apply(parse, s, Invoke(c)), c);
  }

  lemma RankHandle(parse: Parser, s: State, step: Server.Event)
    requires Within(s) && Enabled(parse, s, Handle(step))
    ensures Below(RankOf(Apply(parse, s, Handle(step))), RankOf(s))
  {
    hide Channel.Work, Server.DoneReplies, NonEmpty, RankOf;
    var c := step.conn;
    if step.Answer? {
      var h := s.server.handlers[c];
      forall d: nat | d != c
        ensures Ungiven(Apply(parse, s, Handle(step)), d) == Ungiven(s, d)
      {
        Server.DoneRepliesSnoc(
          s.server.done,
          Server.Record(c, h.message, h.step.replies, h.invoked, h.step.at, |s.server.log|), d);
      }
    }
    RankChange(s, Apply(parse, s, Handle(step)), c);
  }

  lemma RankGive(parse: Parser, s: State, c: nat, thread: nat)
    requires Inv(parse, s) && Enabled(parse, s, Give(c, thread))
    ensures Below(RankOf(Apply(parse, s, Give(c, thread))), RankOf(s))
  {
    hide Channel.Inv, Channel.Enabled, Channel.Apply, Channel.Work, Server.Inv, Server.DoneReplies, NonEmpty, RankOf;
    hide ReplyBytes, Rendered;
    RankChange(s, Apply(parse, s, Give(c, thread)), c);
  }

  lemma RankStep(parse: Parser, s: State, e: Event)
    requires Inv(parse, s) && Within(s) && Enabled(parse, s, e) && !IsSend(e)
    ensures Below(RankOf(Apply(parse, s, e)), RankOf(s))
  {
    hide Inv, Within, Enabled, Apply, RankOf, Below;
    match e
    case Request(c, step) => RankRequest(parse, s, c, step);
    case Deliver(c, step) => RankDeliver(parse, s, c, step);
    case Invoke(c) => RankInvoke(parse, s, c);
    case Handle(step) => RankHandle(parse, s, step);
    case Give(c, thread) => RankGive(parse, s, c, thread);
  }

  // ---------------------------------------------------------------------------------------
  // Every scheduler
  // ---------------------------------------------------------------------------------------

  // A scheduler that never picks a new request, and picks a possible step as long as there is one.
  ghost predicate Schedules(parse: Parser, pick: State -> Event) {
    forall s: State | !Quiescent(parse, s) :: Enabled(parse, s, pick(s)) && !IsSend(pick(s))
  }

  // There is such a scheduler.
  ghost function AnyStep(parse: Parser, s: State): Event {
    if exists e: Event :: Enabled(parse, s, e) && !IsSend(e) then
      var e: Event :| Enabled(parse, s, e) && !IsSend(e);
      e
    else Invoke(0)
  }

  lemma SchedulerExists(parse: Parser)
    ensures Schedules(parse, s => AnyStep(parse, s))
  {
    hide Enabled;
  }

  predicate Follows(parse: Parser, s: State, run: seq<Event>, pick: State -> Event)
    decreases |run|
  {
    run == []
    || (run[0] == pick(s) && Enabled(parse, s, run[0]) && Follows(parse, Apply(parse, s, run[0]), run[1..], pick))
  }

  lemma NothingSent(parse: Parser, s: State, e: Event)
    requires Enabled(parse, s, e) && !IsSend(e)
    ensures |Apply(parse, s, e).links| == |s.links|
    ensures forall c | 0 <= c < |s.links| :: Apply(parse, s, e).links[c].requests.sent == s.links[c].requests.sent
  {
    hide Enabled, Apply;
    LinksStay(parse, s, e);
    forall c | 0 <= c < |s.links|
      ensures Apply(parse, s, e).links[c].requests.sent == s.links[c].requests.sent
    {
      SentStep(parse, s, e, c);
      assert SentBy([e], c) == [];
    }
  }

  lemma {:induction false} Finish(parse: Parser, s: State, pick: State -> Event) returns (run: seq<Event>)
    requires Schedules(parse, pick) && Inv(parse, s) && Within(s)
    ensures Valid(parse, s, run) && Follows(parse, s, run, pick)
    ensures var t := After(parse, s, run);
            && Inv(parse, t) && |t.links| == |s.links| && Quiescent(parse, t)
            && forall c | 0 <= c < |s.links| :: t.links[c].requests.sent == s.links[c].requests.sent
    decreases RankOf(s).waiting, RankOf(s).requestWork, RankOf(s).handlerWork, RankOf(s).ungiven, RankOf(s).replyWork
  {
    hide Inv, Within, Enabled, Apply, Quiescent, RankOf;
    if Quiescent(parse, s) {
      run := [];
    } else {
      var e := pick(s);
      var t := Apply(parse, s, e);
      RankStep(parse, s, e);
      InvStep(parse, s, e);
      WithinStep(parse, s, e);
      LinksStay(parse, s, e);
      NothingSent(parse, s, e);
      var rest := Finish(parse, t, pick);
      run := [e] + rest;
      assert run[1..] == rest;
    }
  }

  // From every reachable state, under every scheduler, the system comes to rest, and then every
  // client has received exactly the replies that the sequential map gives to the requests it had
  // sent.
  lemma EverySchedulerFinishes(parse: Parser, clients: nat, s: State, pick: State -> Event) returns (run: seq<Event>)
    requires Schedules(parse, pick) && Reachable(parse, clients, s)
    ensures Valid(parse, s, run) && Follows(parse, s, run, pick)
    ensures var t := After(parse, s, run);
            |t.links| == |s.links| == clients
            && forall c | 0 <= c < clients ::
                 Complete(parse, t, c) && t.links[c].requests.sent == s.links[c].requests.sent
  {
    hide Inv, Within, Enabled, Apply, Quiescent, Complete, Schedules, Follows;
    InvReachable(parse, clients, s);
    run := Finish(parse, s, pick);
    forall c | 0 <= c < clients
      ensures Complete(parse, After(parse, s, run), c)
    {
      InvComplete(parse, After(parse, s, run), c);
    }
  }
}
