// Registry: the connection list of core/src/TCP/TCPServer.cpp and the signals the server raises.
// Handlers run one after the other, and the server's own subscribers do not call back into it.
module Registry {
  type Uuid = string

  // The signals of a connection that the server subscribes to.
  datatype Signal = Disconnected | ReadMessage(message: string) | ReadError | SendError

  datatype Slot = DisconnectedSlot | ReadMessageSlot | ReadErrorSlot | SendErrorSlot

  const ALL_SLOTS: set<Slot> := {DisconnectedSlot, ReadMessageSlot, ReadErrorSlot, SendErrorSlot}

  lemma NoSlotLeft(slots: set<Slot>)
    ensures slots - {DisconnectedSlot} - {ReadErrorSlot} - {ReadMessageSlot} - {SendErrorSlot} == {}
  {
    forall slot | slot in slots
      ensures slot in ALL_SLOTS
    {
      match slot
      case DisconnectedSlot =>
      case ReadMessageSlot =>
      case ReadErrorSlot =>
      case SendErrorSlot =>
    }
  }

  lemma AllSlots(slots: set<Slot>)
    ensures slots + ALL_SLOTS == ALL_SLOTS
  {
    NoSlotLeft(slots);
  }

  function SlotOf(signal: Signal): Slot {
    match signal
    case Disconnected => DisconnectedSlot
    case ReadMessage(_) => ReadMessageSlot
    case ReadError => ReadErrorSlot
    case SendError => SendErrorSlot
  }

  // The signals the server raises itself.
  datatype ServerEvent =
    | OnAcceptError(uuid: Uuid)
    | OnAccepted(uuid: Uuid)
    | OnDisconnected(uuid: Uuid)
    | OnReadMessage(uuid: Uuid, message: string)
    | OnReadError(uuid: Uuid)
    | OnSendError(uuid: Uuid)

  function Translate(u: Uuid, signal: Signal): ServerEvent {
    match signal
    case Disconnected => OnDisconnected(u)
    case ReadMessage(m) => OnReadMessage(u, m)
    case ReadError => OnReadError(u)
    case SendError => OnSendError(u)
  }

  // ---------------------------------------------------------------------------------------
  // Lists of identifiers
  // ---------------------------------------------------------------------------------------

  function Remove(us: seq<Uuid>, u: Uuid): seq<Uuid> {
    if us == [] then [] else (if us[0] == u then [] else [us[0]]) + Remove(us[1..], u)
  }

  lemma {:induction false} RemoveAppend(a: seq<Uuid>, b: seq<Uuid>, u: Uuid)
    ensures Remove(a + b, u) == Remove(a, u) + Remove(b, u)
  {
    if a == [] {
      assert a + b == b;
    } else {
      assert (a + b)[1..] == a[1..] + b;
      RemoveAppend(a[1..], b, u);
    }
  }

  lemma {:induction false} RemoveAbsent(us: seq<Uuid>, u: Uuid)
    requires u !in us
    ensures Remove(us, u) == us
  {
    if us != [] {
      RemoveAbsent(us[1..], u);
    }
  }

  // All and only the matching identifiers go, with their multiplicity.
  lemma {:induction false} RemoveCounts(us: seq<Uuid>, u: Uuid)
    ensures multiset(Remove(us, u)) == multiset(us)[u := 0]
  {
    if us != [] {
      RemoveCounts(us[1..], u);
      assert us == [us[0]] + us[1..];
      assert multiset(us) == multiset{us[0]} + multiset(us[1..]);
    }
  }

  predicate Distinct(us: seq<Uuid>) {
    forall i, j | 0 <= i < j < |us| :: us[i] != us[j]
  }

  lemma {:induction false} RemoveKeepsDistinct(us: seq<Uuid>, u: Uuid)
    requires Distinct(us)
    ensures Distinct(Remove(us, u))
    ensures forall v :: v in Remove(us, u) <==> v in us && v != u
  {
    if us != [] {
      RemoveKeepsDistinct(us[1..], u);
      assert us[0] !in us[1..];
    }
  }

  // ---------------------------------------------------------------------------------------
  // One signal
  // ---------------------------------------------------------------------------------------

  // The list, the slots of the connection, and the server's events after a signal.
  datatype Effect = Effect(conns: seq<Uuid>, slots: set<Slot>, raised: seq<ServerEvent>)

  function Deliver(conns: seq<Uuid>, slots: set<Slot>, u: Uuid, signal: Signal): Effect {
    if SlotOf(signal) !in slots || u !in conns then Effect(conns, slots, [])
    else if signal.Disconnected? then Effect(Remove(conns, u), {}, [OnDisconnected(u)])
    else Effect(conns, slots, [Translate(u, signal)])
  }

  // ---------------------------------------------------------------------------------------
  // The server object
  // ---------------------------------------------------------------------------------------

  class Connection {
    const uuid: Uuid
    var slots: set<Slot>
    var started: bool  // start() has begun the reading

    constructor (uuid: Uuid)
      ensures this.uuid == uuid && slots == {} && !started
    {
      this.uuid := uuid;
      slots, started := {}, false;
    }
  }

  function Uuids(conns: seq<Connection>): (r: seq<Uuid>)
    ensures |r| == |conns|
  {
    seq(|conns|, i requires 0 <= i < |conns| => conns[i].uuid)
  }

  // What is left of a list when the connections with one identifier are erased.
  function Without(conns: seq<Connection>, u: Uuid): seq<Connection> {
    if conns == [] then []
    else (if conns[0].uuid == u then [] else [conns[0]]) + Without(conns[1..], u)
  }

  lemma UuidsCons(c: Connection, conns: seq<Connection>)
    ensures Uuids([c] + conns) == [c.uuid] + Uuids(conns)
  {
  }

  lemma NoUuids()
    ensures Uuids([]) == []
  {
  }

  // The identifiers left are those of the list without the removed one ...
  lemma {:induction false} WithoutUuids(conns: seq<Connection>, u: Uuid)
    ensures Uuids(Without(conns, u)) == Remove(Uuids(conns), u)
  {
    hide Uuids;
    if conns == [] {
      NoUuids();
    } else {
      var c, tail := conns[0], conns[1..];
      WithoutUuids(tail, u);
      UuidsCons(c, tail);
      UuidsCons(c, Without(tail, u));
      assert conns == [c] + tail;
      assert ([c.uuid] + Uuids(tail))[1..] == Uuids(tail);
      assert [] + Without(tail, u) == Without(tail, u) && [] + Remove(Uuids(tail), u) == Remove(Uuids(tail), u);
    }
  }

  // ... the connections left come from the list and have other identifiers ...
  lemma {:induction false} WithoutMembers(conns: seq<Connection>, u: Uuid)
    ensures forall c | c in Without(conns, u) :: c in conns && c.uuid != u
  {
    if conns != [] {
      WithoutMembers(conns[1..], u);
    }
  }

  // ... and nothing is removed when there is no match.
  lemma {:induction false} WithoutAbsent(conns: seq<Connection>, u: Uuid)
    ensures u !in Uuids(conns) ==> Without(conns, u) == conns
  {
    if conns != [] && u !in Uuids(conns) {
      assert conns[0].uuid == Uuids(conns)[0];
      assert forall i | 0 <= i < |conns| - 1 :: Uuids(conns[1..])[i] == Uuids(conns)[i + 1];
      WithoutAbsent(conns[1..], u);
      assert conns == [conns[0]] + conns[1..];
    }
  }

  lemma KeptDistinct(conns: seq<Connection>, u: Uuid)
    ensures Distinct(Uuids(conns)) ==> Distinct(Uuids(Without(conns, u)))
  {
    hide Uuids, Without, Remove, Distinct;
    WithoutUuids(conns, u);
    if Distinct(Uuids(conns)) {
      RemoveKeepsDistinct(Uuids(conns), u);
    }
  }

  lemma UuidsSnoc(conns: seq<Connection>, c: Connection)
    ensures Uuids(conns + [c]) == Uuids(conns) + [c.uuid]
    ensures Distinct(Uuids(conns)) && c.uuid !in Uuids(conns) ==> Distinct(Uuids(conns + [c]))
    ensures c.uuid !in Uuids(conns) ==> c !in conns
  {
    assert forall i | 0 <= i < |conns| :: Uuids(conns)[i] == conns[i].uuid;
  }

  function AcceptEvents(u: Uuid, error: bool): seq<ServerEvent> {
    (if error then [OnAcceptError(u)] else []) + [OnAccepted(u)]
  }

  function Disconnects(us: seq<Uuid>): (r: seq<ServerEvent>)
    ensures |r| == |us|
  {
    seq(|us|, i requires 0 <= i < |us| => OnDisconnected(us[i]))
  }

  lemma DisconnectsSnoc(us: seq<Uuid>, u: Uuid)
    ensures Disconnects(us + [u]) == Disconnects(us) + [OnDisconnected(u)]
  {
  }

  lemma {:induction false} Erased(conns: seq<Connection>, i: nat)
    requires i < |conns|
    ensures Without(conns[..i] + conns[i + 1..], conns[i].uuid) == Without(conns, conns[i].uuid)
  {
    var u := conns[i].uuid;
    if i == 0 {
      assert conns[..0] + conns[1..] == conns[1..];
    } else {
      Erased(conns[1..], i - 1);
      var left := conns[..i] + conns[i + 1..];
      assert left[1..] == conns[1..][..i - 1] + conns[1..][i..];
    }
  }

  lemma SameUuid(conns: seq<Connection>)
    requires Distinct(Uuids(conns))
    ensures forall c, d | c in conns && d in conns && c.uuid == d.uuid :: c == d
  {
    forall c, d | c in conns && d in conns && c.uuid == d.uuid
      ensures c == d
    {
      var i :| 0 <= i < |conns| && conns[i] == c;
      var j :| 0 <= j < |conns| && conns[j] == d;
      assert Uuids(conns)[i] == Uuids(conns)[j];
    }
  }

  lemma OnlyFirst(conns: seq<Connection>)
    requires conns != [] && Distinct(Uuids(conns))
    ensures Without(conns, conns[0].uuid) == conns[1..]
    ensures forall c | c in conns[1..] :: c.uuid != conns[0].uuid
  {
    var u := conns[0].uuid;
    forall c | c in conns[1..]
      ensures c.uuid != u
    {
      var i :| 0 <= i < |conns[1..]| && conns[1..][i] == c;
      assert Uuids(conns)[0] != Uuids(conns)[i + 1];
    }
    var tail := conns[1..];
    forall i | 0 <= i < |tail|
      ensures Uuids(tail)[i] != u
    {
      assert tail[i] in tail;
    }
    WithoutAbsent(tail, u);
  }

  lemma PrefixApart(conns: seq<Connection>, i: nat)
    requires i <= |conns| && Distinct(Uuids(conns))
    ensures forall c | c in conns[..i] :: c !in conns[i..]
  {
    forall c | c in conns[..i]
      ensures c !in conns[i..]
    {
      var j :| 0 <= j < i && conns[j] == c;
      forall k | i <= k < |conns|
        ensures conns[k] != c
      {
        assert Uuids(conns)[j] != Uuids(conns)[k];
      }
    }
  }

  class TcpServer {
    var connections: seq<Connection>
    var events: seq<ServerEvent>  // the signals raised so far, in order
    var accepts: nat              // the async_accept operations started so far

    // Identifiers are distinct, and every registered connection has all its slots.
    ghost predicate Valid()
      reads this, connections
    {
      Distinct(Uuids(connections)) && forall c | c in connections :: c.slots == ALL_SLOTS
    }

    constructor ()
      ensures Valid() && connections == [] && events == [] && accepts == 1
    {
      connections, events, accepts := [], [], 0;
      new;
      StartAccept();
    }

    method StartAccept()
      modifies this`accepts
      ensures accepts == old(accepts) + 1
    {
      accepts := accepts + 1;
    }

    method GetConnectionByUUID(uuid: Uuid) returns (found: Connection?)
      ensures found != null <==> uuid in Uuids(connections)
      ensures found != null ==> exists i :: 0 <= i < |connections| && found == connections[i]
                                            && found.uuid == uuid && uuid !in Uuids(connections[..i])
    {
      var i := 0;
      while i < |connections|
        invariant 0 <= i <= |connections|
        invariant uuid !in Uuids(connections[..i])
      {
        if connections[i].uuid == uuid {
          assert Uuids(connections)[i] == uuid;
          return connections[i];
        }
        assert Uuids(connections[..i + 1]) == Uuids(connections[..i]) + [connections[i].uuid];
        i := i + 1;
      }
      assert connections[..i] == connections;
      return null;
    }

    // The first match is erased, and the method calls itself while there is another one.
    method RemoveConnectionByUUID(uuid: Uuid)
      modifies this`connections
      ensures connections == Without(old(connections), uuid)
      ensures uuid !in Uuids(connections)
      decreases |connections|
    {
      ghost var before := connections;
      var i := 0;
      while i < |connections|
        invariant 0 <= i <= |connections| && connections == before
        invariant uuid !in Uuids(connections[..i])
      {
        if connections[i].uuid == uuid {
          Erased(connections, i);
          connections := connections[..i] + connections[i + 1..];
          break;
        }
        assert Uuids(connections[..i + 1]) == Uuids(connections[..i]) + [connections[i].uuid];
        i := i + 1;
      }
      assert i == |before| ==> before[..i] == before;
      var again := GetConnectionByUUID(uuid);
      WithoutAbsent(connections, uuid);
      if again != null {
        assert again.uuid == uuid;
        this.RemoveConnectionByUUID(uuid);
      }
    }

    // handle_accept.  After an accept error the connection is registered all the same.  The
    // connection is started before it is announced, and the next accept follows.
    method HandleAccept(conn: Connection, error: bool)
      modifies this, conn
      ensures connections == old(connections) + [conn]
      ensures conn.slots == old(conn.slots) + ALL_SLOTS && conn.started
      ensures events == old(events) + (if error then [OnAcceptError(conn.uuid)] else []) + [OnAccepted(conn.uuid)]
      ensures accepts == old(accepts) + 1
      ensures old(Valid()) && conn.uuid !in Uuids(old(connections)) ==> Valid()
    {
      ghost var before := connections;
      if error {
        events := events + [OnAcceptError(conn.uuid)];
      }
      connections := connections + [conn];
      conn.slots := conn.slots + {DisconnectedSlot};
      conn.slots := conn.slots + {ReadMessageSlot};
      conn.slots := conn.slots + {ReadErrorSlot};
      conn.slots := conn.slots + {SendErrorSlot};
      conn.started := true;
      events := events + [OnAccepted(conn.uuid)];
      StartAccept();
      AllSlots(old(conn.slots));
      UuidsSnoc(before, conn);
    }

    method HandleDisconnected(conn: Connection)
      modifies this, conn`slots
      ensures if conn.uuid in Uuids(old(connections))
              then && connections == Without(old(connections), conn.uuid) && conn.slots == {}
                   && events == old(events) + [OnDisconnected(conn.uuid)]
              else connections == old(connections) && conn.slots == old(conn.slots) && events == old(events)
      ensures accepts == old(accepts)
    {
      var found := GetConnectionByUUID(conn.uuid);
      if found != null {
        conn.slots := conn.slots - {DisconnectedSlot};
        conn.slots := conn.slots - {ReadErrorSlot};
        conn.slots := conn.slots - {ReadMessageSlot};
        conn.slots := conn.slots - {SendErrorSlot};
        NoSlotLeft(old(conn.slots));
        RemoveConnectionByUUID(found.uuid);
        events := events + [OnDisconnected(found.uuid)];
      }
    }

    // The three other handlers pass the signal on, the first with its text.
    method HandleReadMessage(conn: Connection, message: string)
      modifies this`events
      ensures events == old(events)
                        + if conn.uuid in Uuids(connections) then [OnReadMessage(conn.uuid, message)] else []
    {
      var found := GetConnectionByUUID(conn.uuid);
      if found != null {
        events := events + [OnReadMessage(found.uuid, message)];
      }
    }

    method HandleReadError(conn: Connection)
      modifies this`events
      ensures events == old(events) + if conn.uuid in Uuids(connections) then [OnReadError(conn.uuid)] else []
    {
      var found := GetConnectionByUUID(conn.uuid);
      if found != null {
        events := events + [OnReadError(found.uuid)];
      }
    }

    method HandleSendError(conn: Connection)
      modifies this`events
      ensures events == old(events) + if conn.uuid in Uuids(connections) then [OnSendError(conn.uuid)] else []
    {
      var found := GetConnectionByUUID(conn.uuid);
      if found != null {
        events := events + [OnSendError(found.uuid)];
      }
    }

    // A connection raises a signal: the server's handler runs if its slot is connected.
    method Raise(conn: Connection, signal: Signal)
      modifies this, conn`slots
      ensures Effect(Uuids(connections), conn.slots, events)
           == var d := Deliver(Uuids(old(connections)), old(conn.slots), conn.uuid, signal);
              d.(raised := old(events) + d.raised)
      ensures connections == if signal.Disconnected? && DisconnectedSlot in old(conn.slots)
                             then Without(old(connections), conn.uuid) else old(connections)
      ensures accepts == old(accepts)
      ensures old(Valid()) ==> Valid()
    {
      WithoutUuids(connections, conn.uuid);
      WithoutMembers(connections, conn.uuid);
      WithoutAbsent(connections, conn.uuid);
      KeptDistinct(connections, conn.uuid);
      match signal
      case Disconnected =>
        if DisconnectedSlot in conn.slots {
          HandleDisconnected(conn);
        }
      case ReadMessage(message) =>
        if ReadMessageSlot in conn.slots {
          HandleReadMessage(conn, message);
        }
      case ReadError =>
        if ReadErrorSlot in conn.slots {
          HandleReadError(conn);
        }
      case SendError =>
        if SendErrorSlot in conn.slots {
          HandleSendError(conn);
        }
    }

    // disconnectByUUID, with tcp_connection::stop up to the work it posts.
    method Disconnect(uuid: Uuid)
      requires Valid()
      modifies this, connections
      ensures Valid()
      ensures connections == Without(old(connections), uuid)
      ensures events == old(events) + (if uuid in Uuids(old(connections)) then [OnDisconnected(uuid)] else [])
      ensures accepts == old(accepts)
      ensures forall c | c in old(connections) :: c.slots == if c.uuid == uuid then {} else ALL_SLOTS
    {
      WithoutMembers(connections, uuid);
      WithoutAbsent(connections, uuid);
      KeptDistinct(connections, uuid);
      SameUuid(connections);
      var found := GetConnectionByUUID(uuid);
      if found != null {
        Raise(found, Disconnected);
      }
    }

    // disconnectAll walks a copy of the list while every turn shortens the list itself.
    method DisconnectAll()
      requires Valid()
      modifies this, connections
      ensures Valid() && connections == [] && accepts == old(accepts)
      ensures events == old(events) + Disconnects(Uuids(old(connections)))
      ensures forall c | c in old(connections) :: c.slots == {}
    {
      var copy := connections;
      var i := 0;
      while i < |copy|
        invariant Distinct(Uuids(copy))
        invariant 0 <= i <= |copy|
        invariant connections == copy[i..] && Valid() && accepts == old(accepts)
        invariant events == old(events) + Disconnects(Uuids(copy[..i]))
        invariant forall c | c in copy[..i] :: c.slots == {}
      {
        ghost var u := copy[i].uuid;
        assert connections[0] == copy[i] && connections[1..] == copy[i + 1..];
        assert Uuids(connections)[0] == u;
        OnlyFirst(connections);
        PrefixApart(copy, i);
        assert Uuids(copy[..i + 1]) == Uuids(copy[..i]) + [u];
        DisconnectsSnoc(Uuids(copy[..i]), u);
        assert copy[..i + 1] == copy[..i] + [copy[i]];
        Disconnect(copy[i].uuid);
        i := i + 1;
      }
      assert copy[..i] == copy;
    }
  }
}
