/** The relay server's session registry and the callbacks that route frames through it.
    One handler call or one Close is one atomic step. In the source a handshake can fall between the
    swap of `closed` and the deletion of one Close; the last section makes those two steps. */
module Registry {
  import opened Bytes

  type PeerID = uint64

  datatype Packet =
    | HandshakeAck
    | Heartbeat(timestamp: int)
    | ProbeResponse(online: seq<PeerID>, offline: seq<PeerID>)
    | Forward(dst: PeerID, body: seq<byte>)
    | SyncPeer(dst: PeerID, body: seq<byte>)

  /** One session: its peer id (0 before the handshake), its state and its write queue. */
  datatype Record = Record(peerID: PeerID, running: bool, closed: bool, queue: seq<Packet>)

  /** Every accepted session, the sessions map of the server, and the server's closed flag. */
  datatype Registry<!Id(==)> = Registry(all: map<Id, Record>, sessions: map<PeerID, Id>, closed: bool)

  const NEW_SESSION := Record(0, false, false, [])

  // ---- the operations, on values ----

  ghost predicate Known<Id>(r: Registry<Id>) {
    forall p :: p in r.sessions ==> r.sessions[p] in r.all
  }

  ghost function CloseSession<Id>(r: Registry<Id>, id: Id): (r': Registry<Id>)
    requires id in r.all
    ensures r'.all.Keys == r.all.Keys
  {
    var s := r.all[id];
    if s.closed then r
    else r.(all := r.all[id := s.(closed := true)],
            sessions := if r.closed || s.peerID == 0 then r.sessions else r.sessions - {s.peerID})
  }

  ghost function Register<Id>(r: Registry<Id>, id: Id): (r': Registry<Id>)
    requires id in r.all && Known(r)
    ensures r'.all.Keys == r.all.Keys
  {
    var peer := r.all[id].peerID;
    if r.closed || peer == 0 then r
    else
      var r1 := if peer in r.sessions then CloseSession(r, r.sessions[peer]) else r;
      r1.(sessions := r1.sessions[peer := id])
  }

  /** A send is refused by a closed session, and by a full write buffer. */
  ghost function Send<Id>(r: Registry<Id>, id: Id, p: Packet, room: bool): (r': Registry<Id>)
    requires id in r.all
    ensures r'.all.Keys == r.all.Keys
  {
    if r.all[id].closed || !room then r
    else r.(all := r.all[id := r.all[id].(queue := r.all[id].queue + [p])])
  }

  ghost function Started<Id>(r: Registry<Id>, id: Id, peer: PeerID): Registry<Id>
    requires id in r.all
  {
    r.(all := r.all[id := r.all[id].(running := true, peerID := peer)])
  }

  ghost function Handshake<Id>(r: Registry<Id>, id: Id, peer: PeerID, room: bool): Registry<Id>
    requires id in r.all && Known(r)
  {
    Send(Register(Started(r, id, peer), id), id, HandshakeAck, room)
  }

  ghost function Route<Id>(r: Registry<Id>, dst: PeerID, p: Packet, room: bool): Registry<Id>
    requires Known(r)
  {
    if dst in r.sessions then Send(r, r.sessions[dst], p, room) else r
  }

  /** The members of `ids` that are, or are not, in `s`; in the order of `ids`. */
  ghost function Within(ids: seq<PeerID>, s: set<PeerID>, inside: bool): seq<PeerID> {
    if ids == [] then []
    else
      var n := |ids| - 1;
      Within(ids[..n], s, inside) + (if (ids[n] in s) == inside then [ids[n]] else [])
  }

  ghost function Probe<Id>(r: Registry<Id>, self: Id, ids: seq<PeerID>, room: bool): Registry<Id>
    requires self in r.all
  {
    Send(r, self, ProbeResponse(Within(ids, r.sessions.Keys, true), Within(ids, r.sessions.Keys, false)), room)
  }

  ghost function MarkClosed<Id>(r: Registry<Id>, ids: set<Id>): Registry<Id> {
    r.(closed := true, all := map id | id in r.all :: r.all[id].(closed := r.all[id].closed || id in ids))
  }

  ghost function CloseServer<Id>(r: Registry<Id>): Registry<Id> {
    if r.closed then r else MarkClosed(r, r.sessions.Values)
  }

  lemma MarkClosedOne<Id>(r: Registry<Id>, ids: set<Id>, id: Id)
    requires id in r.all
    ensures CloseSession(MarkClosed(r, ids), id) == MarkClosed(r, ids + {id})
  {
    assert CloseSession(MarkClosed(r, ids), id).all == MarkClosed(r, ids + {id}).all;
  }

  // ---- the objects ----

  class Session {
    const server: Server
    var peerID: PeerID
    var running: bool
    var closed: bool
    var queue: seq<Packet>

    ghost function Value(): Record
      reads this
    {
      Record(peerID, running, closed, queue)
    }

    constructor (server: Server)
      ensures this.server == server && Value() == NEW_SESSION
    {
      this.server := server;
      peerID, running, closed, queue := 0, false, false, [];
    }

    /** The swap of `closed` makes the hook run once. */
    method Close() returns (ok: bool)
      requires server.Valid() && this in server.all
      modifies this`closed, server`sessions
      ensures server.Valid() && server.all == old(server.all)
      ensures ok == !old(closed)
      ensures server.Value() == CloseSession(old(server.Value()), this)
    {
      if closed {
        return false;
      }
      closed := true;
      server.OnSessionClosed(this);
      ok := true;
      assert server.Value().all == old(server.Value()).all[this := old(Value()).(closed := true)];
    }

    method Enqueue(p: Packet, room: bool) returns (ok: bool)
      requires server.Valid() && this in server.all
      modifies this`queue
      ensures server.Valid()
      ensures ok == (!closed && room)
      ensures server.Value() == Send(old(server.Value()), this, p, room)
    {
      ok := !closed && room;
      if ok {
        queue := queue + [p];
        assert server.Value().all == old(server.Value()).all[this := Value()];
      } else {
        assert server.Value() == old(server.Value());
      }
    }

    /** What onHandshake does once the credential is verified and the noise reply is written. */
    method OnHandshake(peer: PeerID, room: bool)
      requires server.Valid() && this in server.all
      modifies server.all, server`sessions
      ensures server.Valid() && server.all == old(server.all)
      ensures server.Value() == Handshake(old(server.Value()), this, peer, room)
    {
      running := true;
      peerID := peer;
      assert server.Value().all == old(server.Value()).all[this := Value()];
      server.OnSessionHandshake(this);
      var _ := Enqueue(HandshakeAck, room);
    }

    method OnHeartbeat(timestamp: int, room: bool)
      requires server.Valid() && this in server.all
      modifies this`queue
      ensures server.Valid() && server.Value() == Send(old(server.Value()), this, Heartbeat(timestamp), room)
    {
      var _ := Enqueue(Heartbeat(timestamp), room);
    }
  }

  class Server {
    var sessions: map<PeerID, Session>
    var closed: bool
    ghost var all: set<Session>

    ghost predicate Valid()
      reads this, all
    {
      (forall s :: s in all ==> s.server == this) && sessions.Values <= all
    }

    ghost function Value(): Registry<Session>
      reads this, all
    {
      Registry(map s | s in all :: s.Value(), sessions, closed)
    }

    lemma KnownSessions()
      requires Valid()
      ensures Known(Value())
    {
      forall p | p in sessions ensures sessions[p] in all {
        assert sessions[p] in sessions.Values;
      }
    }

    constructor ()
      ensures Valid() && Value() == Registry(map[], map[], false)
    {
      sessions, closed, all := map[], false, {};
    }

    method Accept() returns (s: Session)
      requires Valid()
      modifies this`all
      ensures Valid() && fresh(s) && all == old(all) + {s}
      ensures Value() == old(Value()).(all := old(Value()).all[s := NEW_SESSION])
    {
      s := new Session(this);
      all := all + {s};
      assert Value().all == old(Value()).all[s := NEW_SESSION];
    }

    method OnSessionClosed(ses: Session)
      modifies this`sessions
      ensures sessions == if closed || ses.peerID == 0 then old(sessions) else old(sessions) - {ses.peerID}
    {
      if closed {
        return;
      }
      if ses.peerID == 0 {
        return;
      }
      sessions := sessions - {ses.peerID};
    }

    method OnSessionHandshake(ses: Session)
      requires Valid() && ses in all
      modifies all`closed, this`sessions
      ensures Valid()
      ensures Known(old(Value())) && Value() == Register(old(Value()), ses)
    {
      KnownSessions();
      if closed {
        return;
      }
      if ses.peerID == 0 {
        return;
      }
      if ses.peerID in sessions {
        var oldSes := sessions[ses.peerID];
        assert oldSes in sessions.Values;
        var _ := oldSes.Close();
      }
      sessions := sessions[ses.peerID := ses];
    }

    method Lookup(peer: PeerID) returns (s: Session?)
      requires Valid()
      ensures s == null <==> peer !in sessions
      ensures s != null ==> s == sessions[peer] && s in all
    {
      if peer in sessions {
        assert sessions[peer] in sessions.Values;
        s := sessions[peer];
      } else {
        s := null;
      }
    }

    /** onForward and onSyncPeer differ only in the packet they pass on. */
    method OnRouted(dst: PeerID, p: Packet, room: bool)
      requires Valid()
      modifies all`queue
      ensures Valid()
      ensures Known(old(Value())) && Value() == Route(old(Value()), dst, p, room)
    {
      KnownSessions();
      var peerSession := Lookup(dst);
      if peerSession == null {
        assert Value() == old(Value());
        return;
      }
      var _ := peerSession.Enqueue(p, room);
    }

    method OnProbe(self: Session, peers: seq<PeerID>, room: bool)
      requires Valid() && self in all
      modifies self`queue
      ensures Valid() && Value() == Probe(old(Value()), self, peers, room)
    {
      var online: seq<PeerID> := [];
      var offline: seq<PeerID> := [];
      for i := 0 to |peers|
        modifies {}
        invariant online == Within(peers[..i], sessions.Keys, true)
        invariant offline == Within(peers[..i], sessions.Keys, false)
      {
        var peerSession := Lookup(peers[i]);
        if peerSession == null {
          offline := offline + [peers[i]];
        } else {
          online := online + [peers[i]];
        }
        assert peers[..i + 1][..i] == peers[..i];
      }
      assert peers[..|peers|] == peers;
      assert Value() == old(Value());
      var _ := self.Enqueue(ProbeResponse(online, offline), room);
    }

    method Close() returns (ok: bool)
      requires Valid()
      modifies this`closed, this`sessions, all`closed
      ensures Valid() && all == old(all) && ok == !old(closed)
      ensures Value() == CloseServer(old(Value()))
    {
      if closed {
        return false;
      }
      ghost var start := Value();
      closed := true;
      var todo := sessions.Values;
      ghost var done: set<Session> := {};
      assert Value().all == MarkClosed(start, done).all;
      while todo != {}
        invariant all == old(all) && Valid() && Value() == MarkClosed(start, done)
        invariant done + todo == start.sessions.Values
        decreases todo
      {
        var s :| s in todo;
        assert s in start.all;
        MarkClosedOne(start, done, s);
        var _ := s.Close();
        todo, done := todo - {s}, done + {s};
      }
      ok := true;
    }
  }

  // ---- every run ----

  datatype Event<Id> =
    | Accepted(id: Id)
    | Handshaken(id: Id, peer: PeerID, room: bool)
    | Closed(id: Id)
    | Forwarded(id: Id, dst: PeerID, body: seq<byte>, room: bool)
    | PeerSynced(id: Id, dst: PeerID, body: seq<byte>, room: bool)
    | Probed(id: Id, peers: seq<PeerID>, room: bool)
    | Heartbeaten(id: Id, timestamp: int, room: bool)
    | Written(id: Id)
    | ServerClosed

  /** A session accepts one handshake, while it is open: it is closed in the init state only by the
      end of its own serving loop. The state gate lets nothing else through before the handshake. */
  ghost predicate Enabled<Id>(r: Registry<Id>, e: Event<Id>) {
    match e
    case Accepted(id) => id !in r.all
    case Handshaken(id, _, _) => id in r.all && !r.all[id].running && !r.all[id].closed
    case Closed(id) => id in r.all
    case Written(id) => id in r.all && r.all[id].queue != []
    case ServerClosed => true
    case _ => e.id in r.all && r.all[e.id].running
  }

  ghost function Step<Id>(r: Registry<Id>, e: Event<Id>): Registry<Id>
    requires Known(r) && Enabled(r, e)
  {
    match e
    case Accepted(id) => r.(all := r.all[id := NEW_SESSION])
    case Handshaken(id, peer, room) => Handshake(r, id, peer, room)
    case Closed(id) => CloseSession(r, id)
    case Forwarded(_, dst, body, room) => Route(r, dst, Forward(dst, body), room)
    case PeerSynced(_, dst, body, room) => Route(r, dst, SyncPeer(dst, body), room)
    case Probed(id, peers, room) => Probe(r, id, peers, room)
    case Heartbeaten(id, timestamp, room) => Send(r, id, Heartbeat(timestamp), room)
    case Written(id) => r.(all := r.all[id := r.all[id].(queue := r.all[id].queue[1..])])
    case ServerClosed => CloseServer(r)
  }

  /** The state after a run; an event that is not enabled does not happen. */
  ghost function After<Id>(es: seq<Event<Id>>): Registry<Id> {
    if es == [] then Registry(map[], map[], false)
    else
      var r := After(es[..|es| - 1]);
      var e := es[|es| - 1];
      if Known(r) && Enabled(r, e) then Step(r, e) else r
  }

  ghost predicate Live(s: Record) {
    s.running && !s.closed && s.peerID != 0
  }

  /** The map holds exactly the live sessions, each under its own peer id. */
  ghost predicate Exact<Id>(r: Registry<Id>) {
    && (forall p :: p in r.sessions ==> r.sessions[p] in r.all && Live(r.all[r.sessions[p]]) && r.all[r.sessions[p]].peerID == p)
    && (forall id :: id in r.all && Live(r.all[id]) ==> r.all[id].peerID in r.sessions && r.sessions[r.all[id].peerID] == id)
  }

  ghost predicate AddressedTo(peer: PeerID, p: Packet) {
    (p.Forward? || p.SyncPeer?) ==> p.dst == peer
  }

  ghost predicate WellAddressed(s: Record) {
    (!s.running ==> s.peerID == 0 && s.queue == [])
    && forall i :: 0 <= i < |s.queue| ==> AddressedTo(s.peerID, s.queue[i])
  }

  ghost predicate Inv<Id>(r: Registry<Id>) {
    && (forall p :: p in r.sessions ==> r.sessions[p] in r.all && r.all[r.sessions[p]].peerID == p)
    && (forall id :: id in r.all ==> WellAddressed(r.all[id]))
    && (if r.closed then forall p :: p in r.sessions ==> r.all[r.sessions[p]].closed else Exact(r))
  }

  lemma CloseKeeps<Id>(r: Registry<Id>, id: Id)
    requires Inv(r) && id in r.all
    ensures Inv(CloseSession(r, id))
  {
  }

  lemma SendKeeps<Id>(r: Registry<Id>, id: Id, p: Packet, room: bool)
    requires Inv(r) && id in r.all && r.all[id].running && AddressedTo(r.all[id].peerID, p)
    ensures Inv(Send(r, id, p, room))
  {
  }

  lemma RouteKeeps<Id>(r: Registry<Id>, dst: PeerID, p: Packet, room: bool)
    requires Inv(r) && Known(r) && AddressedTo(dst, p)
    ensures Inv(Route(r, dst, p, room))
  {
    if dst in r.sessions {
      var id := r.sessions[dst];
      if r.closed {
        assert Send(r, id, p, room) == r;
      } else {
        SendKeeps(r, id, p, room);
      }
    }
  }

  /** Storing a fresh handshake keeps the map exact once its peer has no other live session. */
  lemma StoreKeeps<Id>(r: Registry<Id>, id: Id, peer: PeerID)
    requires Inv(r) && !r.closed && peer != 0 && peer !in r.sessions
    requires id in r.all && !r.all[id].running && !r.all[id].closed
    ensures Inv(r.(all := r.all[id := r.all[id].(running := true, peerID := peer)], sessions := r.sessions[peer := id]))
  {
  }

  lemma UnregisteredKeeps<Id>(r: Registry<Id>, id: Id, peer: PeerID)
    requires Inv(r) && (r.closed || peer == 0)
    requires id in r.all && !r.all[id].running && !r.all[id].closed
    ensures Inv(r.(all := r.all[id := r.all[id].(running := true, peerID := peer)]))
  {
  }

  /** A handshake closes the peer's previous session, if any, then stores the new one. */
  lemma HandshakeKeeps<Id>(r: Registry<Id>, id: Id, peer: PeerID, room: bool)
    requires Inv(r) && Known(r) && id in r.all && !r.all[id].running && !r.all[id].closed
    ensures Inv(Handshake(r, id, peer, room))
  {
    hide Send, Inv;
    var r0 := r.(all := r.all[id := r.all[id].(running := true, peerID := peer)]);
    var r1 := Register(r0, id);
    if r.closed || peer == 0 {
      UnregisteredKeeps(r, id, peer);
      assert r1 == r0;
    } else {
      var cleared := if peer in r.sessions then CloseSession(r, r.sessions[peer]) else r;
      SupersededIsOther(r, id, peer);
      StoreKeeps(cleared, id, peer);
      assert r1 == cleared.(all := cleared.all[id := cleared.all[id].(running := true, peerID := peer)],
                            sessions := cleared.sessions[peer := id]) by {
        if peer in r.sessions {
          assert r1.all == cleared.all[id := cleared.all[id].(running := true, peerID := peer)];
        }
      }
    }
    SendKeeps(r1, id, HandshakeAck, room);
  }

  lemma SupersededIsOther<Id>(r: Registry<Id>, id: Id, peer: PeerID)
    requires Inv(r) && !r.closed && id in r.all && !r.all[id].running && peer != 0
    ensures var cleared := if peer in r.sessions then CloseSession(r, r.sessions[peer]) else r;
            Inv(cleared) && peer !in cleared.sessions && cleared.all[id] == r.all[id] && !cleared.closed
    ensures peer in r.sessions ==> r.sessions[peer] != id && r.all[r.sessions[peer]].peerID == peer
                                   && !r.all[r.sessions[peer]].closed
  {
    if peer in r.sessions {
      CloseKeeps(r, r.sessions[peer]);
    }
  }

  lemma AcceptKeeps<Id>(r: Registry<Id>, id: Id)
    requires Inv(r) && id !in r.all
    ensures Inv(r.(all := r.all[id := NEW_SESSION]))
  {
  }

  lemma WriteKeeps<Id>(r: Registry<Id>, id: Id)
    requires Inv(r) && id in r.all && r.all[id].queue != []
    ensures Inv(r.(all := r.all[id := r.all[id].(queue := r.all[id].queue[1..])]))
  {
  }

  lemma ServerCloseKeeps<Id>(r: Registry<Id>)
    requires Inv(r)
    ensures Inv(CloseServer(r))
  {
  }

  lemma StepKeeps<Id>(r: Registry<Id>, e: Event<Id>)
    requires Inv(r) && Known(r) && Enabled(r, e)
    ensures Inv(Step(r, e))
  {
    hide CloseSession, Send, Handshake, Route, Within, CloseServer, Inv;
    match e
    case Handshaken(id, peer, room) => HandshakeKeeps(r, id, peer, room);
    case Closed(id) => CloseKeeps(r, id);
    case Forwarded(_, dst, body, room) => RouteKeeps(r, dst, Forward(dst, body), room);
    case PeerSynced(_, dst, body, room) => RouteKeeps(r, dst, SyncPeer(dst, body), room);
    case Probed(id, peers, room) =>
      SendKeeps(r, id, ProbeResponse(Within(peers, r.sessions.Keys, true), Within(peers, r.sessions.Keys, false)), room);
    case Heartbeaten(id, timestamp, room) => SendKeeps(r, id, Heartbeat(timestamp), room);
    case Accepted(id) => AcceptKeeps(r, id);
    case Written(id) => WriteKeeps(r, id);
    case ServerClosed => ServerCloseKeeps(r);
  }

  lemma {:induction false} RunKeeps<Id>(es: seq<Event<Id>>)
    ensures Inv(After(es)) && Known(After(es))
  {
    if es != [] {
      var r, e := After(es[..|es| - 1]), es[|es| - 1];
      RunKeeps(es[..|es| - 1]);
      if Enabled(r, e) {
        StepKeeps(r, e);
      }
    }
  }

  /** In every reachable state of an open server the sessions map is exact; after the server closed,
      every registered session is closed. */
  lemma RegistryExact<Id>(es: seq<Event<Id>>)
    ensures !After(es).closed ==> Exact(After(es))
    ensures After(es).closed ==> forall p :: p in After(es).sessions ==>
              After(es).sessions[p] in After(es).all && After(es).all[After(es).sessions[p]].closed
  {
    RunKeeps(es);
  }

  lemma RegisterExactIff<Id>(r: Registry<Id>, id: Id, peer: PeerID)
    requires Exact(r) && Known(r) && !r.closed && id in r.all
    ensures Exact(Register(Started(r, id, peer), id)) <==> !Live(r.all[id]) && (peer == 0 || !r.all[id].closed)
  {
    var before := r.all[id];
    var r' := Register(Started(r, id, peer), id);
    assert r'.all[id].peerID == peer && (peer != 0 ==> r'.sessions[peer] == id);
    if Live(before) && before.peerID != peer {
      assert before.peerID in r'.sessions && r'.sessions[before.peerID] == id;
    }
    if !Live(before) && (peer == 0 || !before.closed) {
      forall k | k in r'.all && k != id && Live(r'.all[k]) ensures r'.all[k].peerID in r'.sessions && r'.sessions[r'.all[k].peerID] == k {
        assert Live(r.all[k]);
      }
    }
  }

  lemma ExactIgnoresQueues<Id>(r: Registry<Id>, r': Registry<Id>)
    requires QueuesOnly(r, r')
    ensures Exact(r) <==> Exact(r')
  {
  }

  /** Exactly when a handshake keeps the map exact: the session is not registered yet, and open unless
      its peer id is zero. A second handshake of a registered session leaves a stale entry. */
  lemma HandshakeExactIff<Id>(r: Registry<Id>, id: Id, peer: PeerID, room: bool)
    requires Exact(r) && Known(r) && !r.closed && id in r.all
    ensures Exact(Handshake(r, id, peer, room)) <==> !Live(r.all[id]) && (peer == 0 || !r.all[id].closed)
  {
    hide Exact, Register, Live;
    RegisterExactIff(r, id, peer);
    ExactIgnoresQueues(Register(Started(r, id, peer), id), Handshake(r, id, peer, room));
  }

  /** A session registered for peer 7 that shakes hands again for peer 8 stays registered for both. */
  lemma SecondHandshakeIsStale()
    ensures var r := Registry(map[0 := Record(7, true, false, [])], map[7 := 0], false);
            Exact(r) && Known(r) && !Exact(Handshake(r, 0, 8, true))
            && 7 in Handshake(r, 0, 8, true).sessions && Handshake(r, 0, 8, true).all[0].peerID == 8
  {
    var r := Registry(map[0 := Record(7, true, false, [])], map[7 := 0], false);
    HandshakeExactIff(r, 0, 8, true);
  }

  /** Whatever happens after a session was superseded, closing it again evicts nobody. */
  lemma SupersededCloseIsHarmless<Id>(es: seq<Event<Id>>, older: Id, newer: Id)
    requires var r := After(es);
             !r.closed && older in r.all && newer in r.all && older != newer
             && Live(r.all[newer]) && r.all[older].peerID == r.all[newer].peerID
    ensures After(es + [Closed(older)]) == After(es)
    ensures var r := After(es); r.all[newer].peerID in r.sessions && r.sessions[r.all[newer].peerID] == newer
  {
    RunKeeps(es);
    assert (es + [Closed(older)])[..|es|] == es;
    var r := After(es);
    assert !Live(r.all[older]);
  }

  /** Every frame in, or leaving, a write queue of any reachable state is addressed to the peer of
      that session, so the receiving driver's destination check accepts it. */
  lemma DestinationCheckPasses<Id>(es: seq<Event<Id>>, id: Id, i: nat)
    requires id in After(es).all && i < |After(es).all[id].queue|
    ensures AddressedTo(After(es).all[id].peerID, After(es).all[id].queue[i])
    ensures var p := After(es).all[id].queue[i];
            p.Forward? || p.SyncPeer? ==> After(es).all[id].running
  {
    RunKeeps(es);
    assert WellAddressed(After(es).all[id]);
  }

  // ---- probe replies ----

  /** The reply splits the request: nothing is lost, doubled or reordered. */
  lemma {:induction false} WithinSplits(ids: seq<PeerID>, s: set<PeerID>)
    ensures multiset(Within(ids, s, true)) + multiset(Within(ids, s, false)) == multiset(ids)
    ensures forall p :: p in Within(ids, s, true) <==> p in ids && p in s
    ensures forall p :: p in Within(ids, s, false) <==> p in ids && p !in s
  {
    if ids != [] {
      var n := |ids| - 1;
      WithinSplits(ids[..n], s);
      assert ids == ids[..n] + [ids[n]];
    }
  }

  /** `sub` picks elements of `ids` at strictly increasing positions. */
  ghost predicate InOrder(sub: seq<PeerID>, ids: seq<PeerID>, at: seq<nat>) {
    |at| == |sub| && (forall i :: 0 <= i < |at| ==> at[i] < |ids| && ids[at[i]] == sub[i])
    && (forall i, j :: 0 <= i < j < |at| ==> at[i] < at[j])
  }

  lemma {:induction false} WithinInOrder(ids: seq<PeerID>, s: set<PeerID>, inside: bool) returns (at: seq<nat>)
    ensures InOrder(Within(ids, s, inside), ids, at)
  {
    at := [];
    if ids != [] {
      var n := |ids| - 1;
      at := WithinInOrder(ids[..n], s, inside);
      if (ids[n] in s) == inside {
        at := at + [n];
      }
    }
  }

  lemma DistinctOrder(sub: seq<PeerID>, ids: seq<PeerID>, at: seq<nat>)
    requires InOrder(sub, ids, at) && Distinct(ids)
    ensures Distinct(sub)
  {
    forall i, j | 0 <= i < j < |sub| ensures sub[i] != sub[j] {
      assert ids[at[i]] != ids[at[j]];
    }
  }

  ghost predicate HasOpenSession<Id>(r: Registry<Id>, p: PeerID) {
    exists id :: id in r.all && Live(r.all[id]) && r.all[id].peerID == p
  }

  /** The packet splits the requested peers, in request order, by whether they have an open session. */
  ghost predicate IsReply<Id>(r: Registry<Id>, ids: seq<PeerID>, p: Packet) {
    p.ProbeResponse?
    && multiset(p.online) + multiset(p.offline) == multiset(ids)
    && (forall q :: q in p.online <==> q in ids && HasOpenSession(r, q))
    && (forall q :: q in p.offline <==> q in ids && !HasOpenSession(r, q))
    && (exists at :: InOrder(p.online, ids, at)) && (exists at :: InOrder(p.offline, ids, at))
    && (Distinct(ids) ==> Distinct(p.online) && Distinct(p.offline))
  }

  lemma WithinReplies<Id>(r: Registry<Id>, ids: seq<PeerID>)
    requires Exact(r)
    ensures IsReply(r, ids, ProbeResponse(Within(ids, r.sessions.Keys, true), Within(ids, r.sessions.Keys, false)))
  {
    hide Within;
    var keys := r.sessions.Keys;
    WithinSplits(ids, keys);
    forall p ensures p in keys <==> HasOpenSession(r, p) {
      if p in keys {
        assert Live(r.all[r.sessions[p]]);
      }
    }
    var at1 := WithinInOrder(ids, keys, true);
    var at2 := WithinInOrder(ids, keys, false);
    if Distinct(ids) {
      DistinctOrder(Within(ids, keys, true), ids, at1);
      DistinctOrder(Within(ids, keys, false), ids, at2);
    }
  }

  /** In every reachable state of an open server: a probe from an open running session appends exactly
      one packet, the reply to it, to that session's queue and changes nothing else. */
  lemma ProbeSound<Id>(es: seq<Event<Id>>, id: Id, ids: seq<PeerID>)
    requires var r := After(es); !r.closed && id in r.all && r.all[id].running && !r.all[id].closed
    ensures var r, r' := After(es), After(es + [Probed(id, ids, true)]);
            id in r'.all && |r'.all[id].queue| == |r.all[id].queue| + 1
            && IsReply(r, ids, r'.all[id].queue[|r.all[id].queue|])
            && r' == Queued(r, id, r'.all[id].queue[|r.all[id].queue|])
  {
    hide Within, IsReply;
    RunKeeps(es);
    AfterNext(es, Probed(id, ids, true));
    WithinReplies(After(es), ids);
  }

  // ---- what one more event does to a reachable state ----

  ghost function Queued<Id>(r: Registry<Id>, id: Id, p: Packet): Registry<Id>
    requires id in r.all
  {
    r.(all := r.all[id := r.all[id].(queue := r.all[id].queue + [p])])
  }

  lemma AfterNext<Id>(es: seq<Event<Id>>, e: Event<Id>)
    ensures After(es + [e]) == if Known(After(es)) && Enabled(After(es), e) then Step(After(es), e) else After(es)
  {
    assert (es + [e])[..|es|] == es;
  }

  /** A Forward or SyncPeer frame with room is appended, as it is, to the queue of the one live session
      of its destination; without such a session nothing happens. */
  lemma RoutedExact<Id>(es: seq<Event<Id>>, id: Id, dst: PeerID, body: seq<byte>, sync: bool)
    requires var r := After(es); !r.closed && id in r.all && r.all[id].running
    ensures var r := After(es);
            var r' := After(es + [if sync then PeerSynced(id, dst, body, true) else Forwarded(id, dst, body, true)]);
            (!HasOpenSession(r, dst) ==> r' == r)
            && forall k :: k in r.all && Live(r.all[k]) && r.all[k].peerID == dst ==>
                 r' == Queued(r, k, if sync then SyncPeer(dst, body) else Forward(dst, body))
  {
    hide Within;
    RunKeeps(es);
    AfterNext(es, if sync then PeerSynced(id, dst, body, true) else Forwarded(id, dst, body, true));
    var r := After(es);
    if dst in r.sessions {
      assert Live(r.all[r.sessions[dst]]) && r.all[r.sessions[dst]].peerID == dst;
    }
  }

  /** Without room in the write queue nothing is queued and nothing else happens. */
  lemma NoRoomNoChange<Id>(es: seq<Event<Id>>, e: Event<Id>)
    requires (e.Forwarded? || e.PeerSynced? || e.Probed? || e.Heartbeaten?) && !e.room
    ensures After(es + [e]) == After(es)
  {
    hide Within;
    RunKeeps(es);
    AfterNext(es, e);
  }

  /** Closing marks the session, takes its own entry out of an open server's map, and changes nothing else. */
  lemma CloseExact<Id>(es: seq<Event<Id>>, id: Id)
    requires id in After(es).all
    ensures var r, r' := After(es), After(es + [Closed(id)]);
            r'.all == r.all[id := r.all[id].(closed := true)] && r'.closed == r.closed
            && r'.sessions == if r.closed then r.sessions else map p | p in r.sessions && r.sessions[p] != id :: r.sessions[p]
  {
    RunKeeps(es);
    AfterNext(es, Closed(id));
    var r := After(es);
    if !r.closed {
      forall p | p in r.sessions ensures r.sessions[p] == id <==> Live(r.all[id]) && p == r.all[id].peerID {
        assert Live(r.all[r.sessions[p]]);
      }
    }
    assert r.all[id].closed ==> r.all == r.all[id := r.all[id].(closed := true)];
  }

  /** A heartbeat of an open running session is echoed to that session. */
  lemma HeartbeatExact<Id>(es: seq<Event<Id>>, id: Id, timestamp: int)
    requires id in After(es).all && After(es).all[id].running && !After(es).all[id].closed
    ensures After(es + [Heartbeaten(id, timestamp, true)]) == Queued(After(es), id, Heartbeat(timestamp))
  {
    RunKeeps(es);
    AfterNext(es, Heartbeaten(id, timestamp, true));
  }

  /** A handshake starts its session for the peer with one acknowledgement queued, closes the peer's other
      live session if there is one, and leaves all others alone. */
  lemma HandshakeExact<Id>(es: seq<Event<Id>>, id: Id, peer: PeerID)
    requires var r := After(es); !r.closed && id in r.all && !r.all[id].running && !r.all[id].closed
    ensures var r, r' := After(es), After(es + [Handshaken(id, peer, true)]);
            r'.all.Keys == r.all.Keys && r'.all[id] == Record(peer, true, false, [HandshakeAck])
            && forall k :: k in r.all && k != id ==>
                 r'.all[k] == r.all[k].(closed := r.all[k].closed || (Live(r.all[k]) && r.all[k].peerID == peer))
  {
    RunKeeps(es);
    AfterNext(es, Handshaken(id, peer, true));
    var r := After(es);
    assert WellAddressed(r.all[id]) && r.all[id].queue + [HandshakeAck] == [HandshakeAck];
    if peer in r.sessions {
      assert Live(r.all[r.sessions[peer]]) && r.sessions[peer] != id;
    }
  }

  // ---- Close in two steps ----

  /** First the flag is swapped. */
  ghost function Swap<Id>(r: Registry<Id>, id: Id): Registry<Id>
    requires id in r.all
  {
    r.(all := r.all[id := r.all[id].(closed := true)])
  }

  /** Then the hook deletes the entry of the session's peer, whoever holds it by now. */
  ghost function Hook<Id>(r: Registry<Id>, id: Id): Registry<Id>
    requires id in r.all
  {
    var peer := r.all[id].peerID;
    r.(sessions := if r.closed || peer == 0 then r.sessions else r.sessions - {peer})
  }

  lemma CloseIsSwapThenHook<Id>(r: Registry<Id>, id: Id)
    requires id in r.all
    ensures CloseSession(r, id) == if r.all[id].closed then r else Hook(Swap(r, id), id)
  {
  }

  /** A registry, and the sessions whose flag is swapped and whose hook has not run. */
  datatype Split<!Id(==)> = Split(r: Registry<Id>, pending: set<Id>)

  datatype SplitEvent<Id> = Whole(e: Event<Id>) | Swapped(id: Id) | Hooked(id: Id)

  ghost predicate SplitEnabled<Id>(s: Split<Id>, e: SplitEvent<Id>) {
    match e
    case Whole(e) => Known(s.r) && Enabled(s.r, e) && !e.Closed?
    case Swapped(id) => id in s.r.all && !s.r.all[id].closed
    case Hooked(id) => id in s.pending && id in s.r.all
  }

  ghost function SplitStep<Id>(s: Split<Id>, e: SplitEvent<Id>): Split<Id>
    requires SplitEnabled(s, e)
  {
    match e
    case Whole(e) => s.(r := Step(s.r, e))
    case Swapped(id) => Split(Swap(s.r, id), s.pending + {id})
    case Hooked(id) => Split(Hook(s.r, id), s.pending - {id})
  }

  ghost function AfterSplit<Id>(es: seq<SplitEvent<Id>>): Split<Id> {
    if es == [] then Split(Registry(map[], map[], false), {})
    else
      var s := AfterSplit(es[..|es| - 1]);
      var e := es[|es| - 1];
      if SplitEnabled(s, e) then SplitStep(s, e) else s
  }

  ghost predicate EntryFine<Id>(s: Split<Id>, p: PeerID)
    requires p in s.r.sessions
  {
    var id := s.r.sessions[p];
    id in s.r.all && s.r.all[id].running && s.r.all[id].peerID == p && p != 0 && (s.r.all[id].closed ==> id in s.pending)
  }

  /** Every live session is registered, and every entry is live or about to be deleted. */
  ghost predicate Covered<Id>(s: Split<Id>) {
    && (forall p :: p in s.r.sessions ==> EntryFine(s, p))
    && (forall id :: id in s.r.all && Live(s.r.all[id]) ==>
          s.r.all[id].peerID in s.r.sessions && s.r.sessions[s.r.all[id].peerID] == id)
    && (forall id :: id in s.r.all && !s.r.all[id].running ==> s.r.all[id].peerID == 0)
    && (forall id :: id in s.pending ==> id in s.r.all && s.r.all[id].closed)
  }

  ghost predicate HasSuccessor<Id>(s: Split<Id>, id: Id)
    requires id in s.r.all
  {
    exists k :: k in s.r.all && Live(s.r.all[k]) && s.r.all[k].peerID == s.r.all[id].peerID
  }

  /** With nothing pending this is exactness. */
  lemma CoveredIsExact<Id>(s: Split<Id>)
    requires Covered(s) && s.pending == {}
    ensures Exact(s.r)
  {
    forall p | p in s.r.sessions ensures s.r.sessions[p] in s.r.all && Live(s.r.all[s.r.sessions[p]]) && s.r.all[s.r.sessions[p]].peerID == p {
      assert EntryFine(s, p);
    }
  }

  /** Exactly when a delayed hook leaves every live session registered: its peer has no live session,
      that is, none that shook hands since the swap and is still open. */
  lemma HookExactIff<Id>(s: Split<Id>, id: Id)
    requires Covered(s) && !s.r.closed && id in s.pending
    ensures Covered(SplitStep(s, Hooked(id))) <==> !HasSuccessor(s, id)
  {
    var s' := SplitStep(s, Hooked(id));
    var peer := s.r.all[id].peerID;
    if !HasSuccessor(s, id) {
      forall p | p in s'.r.sessions ensures EntryFine(s', p) {
        assert EntryFine(s, p);
      }
      assert Covered(s');
    } else {
      var k :| k in s.r.all && Live(s.r.all[k]) && s.r.all[k].peerID == peer;
      assert Live(s'.r.all[k]) && peer !in s'.r.sessions;
    }
  }

  /** A step that touches only write queues. */
  ghost predicate QueuesOnly<Id>(r: Registry<Id>, r': Registry<Id>) {
    r'.sessions == r.sessions && r'.closed == r.closed && r'.all.Keys == r.all.Keys
    && forall id :: id in r.all ==> r'.all[id] == r.all[id].(queue := r'.all[id].queue)
  }

  lemma QueuesKeep<Id>(s: Split<Id>, r': Registry<Id>)
    requires Covered(s) && QueuesOnly(s.r, r')
    ensures Covered(s.(r := r'))
  {
    forall p | p in r'.sessions ensures EntryFine(s.(r := r'), p) {
      assert EntryFine(s, p);
    }
  }

  lemma SwapCovers<Id>(s: Split<Id>, id: Id)
    requires Covered(s) && SplitEnabled(s, Swapped(id))
    ensures Covered(SplitStep(s, Swapped(id)))
  {
    var s' := SplitStep(s, Swapped(id));
    forall p | p in s'.r.sessions ensures EntryFine(s', p) {
      assert EntryFine(s, p);
    }
  }

  lemma AcceptCovers<Id>(s: Split<Id>, id: Id)
    requires Covered(s) && id !in s.r.all
    ensures Covered(s.(r := s.r.(all := s.r.all[id := NEW_SESSION])))
  {
    var s' := s.(r := s.r.(all := s.r.all[id := NEW_SESSION]));
    forall p | p in s'.r.sessions ensures EntryFine(s', p) {
      assert EntryFine(s, p);
    }
  }

  lemma CloseOldCovers<Id>(s: Split<Id>, peer: PeerID)
    requires Covered(s) && !s.r.closed && peer in s.r.sessions
    ensures var t := s.(r := CloseSession(s.r, s.r.sessions[peer]));
            Covered(t) && (peer in t.r.sessions ==> t.r == s.r && t.r.all[t.r.sessions[peer]].closed)
  {
    var t := s.(r := CloseSession(s.r, s.r.sessions[peer]));
    assert EntryFine(s, peer);
    forall p | p in t.r.sessions ensures EntryFine(t, p) {
      assert EntryFine(s, p);
    }
  }

  /** Storing a fresh session over a missing entry or over one with a pending hook. */
  lemma StoreCovers<Id>(s: Split<Id>, id: Id, peer: PeerID)
    requires Covered(s) && id in s.r.all && !s.r.all[id].running && !s.r.all[id].closed
    requires peer in s.r.sessions ==> s.r.sessions[peer] in s.r.all && s.r.all[s.r.sessions[peer]].closed
    ensures Covered(s.(r := if peer == 0 then Started(s.r, id, peer)
                            else Started(s.r, id, peer).(sessions := s.r.sessions[peer := id])))
  {
    var s' := s.(r := if peer == 0 then Started(s.r, id, peer)
                      else Started(s.r, id, peer).(sessions := s.r.sessions[peer := id]));
    forall p | p in s'.r.sessions ensures EntryFine(s', p) {
      if p != peer || peer == 0 {
        assert EntryFine(s, p);
      }
    }
  }

  /** A handshake that finds the entry of a session with a pending hook just replaces it. */
  lemma RegisterCovers<Id>(s: Split<Id>, id: Id, peer: PeerID)
    requires Covered(s) && Known(s.r) && !s.r.closed && id in s.r.all && !s.r.all[id].running && !s.r.all[id].closed
    ensures Covered(s.(r := Register(Started(s.r, id, peer), id)))
  {
    hide Covered;
    if peer in s.r.sessions {
      var older := s.r.sessions[peer];
      assert EntryFine(s, peer) by {
        EntriesFine(s, peer);
      }
      CloseOldCovers(s, peer);
      var t := s.(r := CloseSession(s.r, older));
      StoreCovers(t, id, peer);
      assert Register(Started(s.r, id, peer), id).all == Started(t.r, id, peer).all;
    } else {
      StoreCovers(s, id, peer);
    }
  }

  lemma EntriesFine<Id>(s: Split<Id>, p: PeerID)
    requires Covered(s) && p in s.r.sessions
    ensures EntryFine(s, p)
  {
  }

  lemma HandshakeCovers<Id>(s: Split<Id>, id: Id, peer: PeerID, room: bool)
    requires Covered(s) && Known(s.r) && !s.r.closed && id in s.r.all && !s.r.all[id].running && !s.r.all[id].closed
    ensures Covered(s.(r := Handshake(s.r, id, peer, room)))
  {
    hide Covered, Register, CloseSession;
    RegisterCovers(s, id, peer);
    var r1 := Register(Started(s.r, id, peer), id);
    QueuesKeep(s.(r := r1), Send(r1, id, HandshakeAck, room));
  }

  lemma WholeCovers<Id>(s: Split<Id>, e: Event<Id>)
    requires Covered(s) && !s.r.closed && SplitEnabled(s, Whole(e)) && !e.ServerClosed?
    ensures Covered(SplitStep(s, Whole(e)))
  {
    hide Covered, Handshake, Within;
    if e.Accepted? {
      AcceptCovers(s, e.id);
    } else if e.Handshaken? {
      HandshakeCovers(s, e.id, e.peer, e.room);
    } else {
      QueuesKeep(s, Step(s.r, e));
    }
  }

  /** No hook of the run was overtaken by a live successor of its session. */
  ghost predicate NeverOvertaken<Id>(es: seq<SplitEvent<Id>>) {
    forall i :: 0 <= i < |es| ==> !Overtaken(AfterSplit(es[..i]), es[i])
  }

  ghost predicate Overtaken<Id>(s: Split<Id>, e: SplitEvent<Id>) {
    e.Hooked? && SplitEnabled(s, e) && HasSuccessor(s, e.id)
  }

  /** Over every run with Close split in two: while no hook was overtaken, every live session of an open
      server is registered and every entry is live or about to go; between closes the map is exact. */
  lemma {:induction false} SplitExact<Id>(es: seq<SplitEvent<Id>>)
    requires NeverOvertaken(es)
    ensures !AfterSplit(es).r.closed ==> Covered(AfterSplit(es))
    ensures !AfterSplit(es).r.closed && AfterSplit(es).pending == {} ==> Exact(AfterSplit(es).r)
  {
    hide Covered, Overtaken, SplitStep;
    if es == [] {
      FreshCovered<Id>();
    } else {
      var init, e := es[..|es| - 1], es[|es| - 1];
      forall i | 0 <= i < |init| ensures !Overtaken(AfterSplit(init[..i]), init[i]) {
        assert init[..i] == es[..i];
      }
      SplitExact(init);
      assert !Overtaken(AfterSplit(init), e);
      if SplitEnabled(AfterSplit(init), e) {
        SplitStepCovers(AfterSplit(init), e);
      }
    }
    if Covered(AfterSplit(es)) && AfterSplit(es).pending == {} {
      CoveredIsExact(AfterSplit(es));
    }
  }

  lemma FreshCovered<Id>()
    ensures Covered(AfterSplit<Id>([]))
  {
  }

  lemma SplitStepCovers<Id>(s: Split<Id>, e: SplitEvent<Id>)
    requires SplitEnabled(s, e) && !Overtaken(s, e) && (!s.r.closed ==> Covered(s))
    ensures !SplitStep(s, e).r.closed ==> Covered(SplitStep(s, e))
  {
    hide Covered, HasSuccessor;
    match e
    case Whole(w) =>
      ClosedStays(s.r, w);
      if !s.r.closed && !w.ServerClosed? {
        WholeCovers(s, w);
      }
    case Swapped(id) =>
      if !s.r.closed {
        SwapCovers(s, id);
      }
    case Hooked(id) =>
      if !s.r.closed {
        HookExactIff(s, id);
      }
  }

  lemma ClosedStays<Id>(r: Registry<Id>, e: Event<Id>)
    requires Known(r) && Enabled(r, e)
    ensures Step(r, e).closed == (r.closed || e.ServerClosed?)
  {
    hide Within;
  }

  const FIRST := Record(7, true, false, [HandshakeAck])

  lemma FirstHandshake(r: Registry<nat>)
    requires r == Registry(map[0 := NEW_SESSION], map[], false)
    ensures Handshake(r, 0, 7, true) == Registry(map[0 := FIRST], map[7 := 0], false)
  {
    assert NEW_SESSION.queue + [HandshakeAck] == [HandshakeAck];
    assert Handshake(r, 0, 7, true).all == map[0 := FIRST];
    assert Handshake(r, 0, 7, true).sessions == map[7 := 0];
  }

  lemma SecondHandshake(r: Registry<nat>)
    requires r == Registry(map[0 := FIRST.(closed := true), 1 := NEW_SESSION], map[7 := 0], false)
    ensures Handshake(r, 1, 7, true) == Registry(map[0 := FIRST.(closed := true), 1 := FIRST], map[7 := 1], false)
  {
    assert NEW_SESSION.queue + [HandshakeAck] == [HandshakeAck];
    assert Handshake(r, 1, 7, true).all == map[0 := FIRST.(closed := true), 1 := FIRST];
    assert Handshake(r, 1, 7, true).sessions == map[7 := 1];
  }

  /** A close interrupted by its successor's handshake evicts that live successor. */
  lemma OvertakenCloseEvicts(es: seq<SplitEvent<nat>>)
    requires es == [Whole(Accepted(0)), Whole(Handshaken(0, 7, true)), Swapped(0),
                    Whole(Accepted(1)), Whole(Handshaken(1, 7, true)), Hooked(0)]
    ensures var s := AfterSplit(es);
            1 in s.r.all && Live(s.r.all[1]) && s.r.sessions == map[] && s.pending == {}
  {
    hide AfterSplit, Handshake;
    Unroll(es, 5);
    assert es[..6] == es;
    UpToHook(es);
    assert map[7 := 1] - {7} == map[];
  }

  lemma UpToHook(es: seq<SplitEvent<nat>>)
    requires |es| == 6 && es[..5] == [Whole(Accepted(0)), Whole(Handshaken(0, 7, true)), Swapped(0),
                                     Whole(Accepted(1)), Whole(Handshaken(1, 7, true))]
    ensures AfterSplit(es[..5]) == Split(Registry(map[0 := FIRST.(closed := true), 1 := FIRST], map[7 := 1], false), {0})
  {
    hide Handshake;
    var s1: Registry<nat> := Registry(map[0 := NEW_SESSION], map[], false);
    var s2: Registry<nat> := Registry(map[0 := FIRST], map[7 := 0], false);
    var s4: Registry<nat> := Registry(map[0 := FIRST.(closed := true), 1 := NEW_SESSION], map[7 := 0], false);
    assert es[0] == es[..5][0] && es[1] == es[..5][1] && es[2] == es[..5][2] && es[3] == es[..5][3] && es[4] == es[..5][4];
    assert AfterSplit(es[..0]) == Split(Registry(map[], map[], false), {});
    Unroll(es, 0);
    assert AfterSplit(es[..1]) == Split(s1, {});
    Unroll(es, 1);
    FirstHandshake(s1);
    assert AfterSplit(es[..2]) == Split(s2, {});
    Unroll(es, 2);
    Unroll(es, 3);
    assert Swap(s2, 0).all[1 := NEW_SESSION] == s4.all;
    assert AfterSplit(es[..4]) == Split(s4, {0});
    Unroll(es, 4);
    SecondHandshake(s4);
  }

  lemma Unroll<Id>(es: seq<SplitEvent<Id>>, k: nat)
    requires k < |es|
    ensures var s := AfterSplit(es[..k]);
            AfterSplit(es[..k + 1]) == if SplitEnabled(s, es[k]) then SplitStep(s, es[k]) else s
  {
    assert es[..k + 1][..k] == es[..k];
  }
}
