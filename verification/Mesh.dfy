/** The mesh manager of one node, on values: the peer table, its address index, the installed routes,
    the stored endpoints, and what Update, PeerCatchup, PeerCatchupAck, ProbeResult and SyncEndpoints
    do to them. One call is one atomic step. */
module Mesh {
  import opened Bytes
  import T = Tunnel
  import P = Peer
  import R = Router

  type PeerID = P.PeerID

  /** The node itself: id, address, key pair, and the parser of addresses. */
  datatype Local = Local(id: PeerID, ipv4: string, secret: nat, suite: T.Suite, parse: string -> Option<R.Prefix>)

  datatype SyncPeer =
    | Catchup(dst: PeerID, peer: P.Info, publicKey: nat)
    | CatchupAck(dst: PeerID, peerID: PeerID, publicKey: nat)

  function CatchupTo(l: Local, server: nat, dst: PeerID): SyncPeer {
    Catchup(dst, P.Info(l.id, l.ipv4, server), l.suite.pub(l.secret))
  }

  function AckTo(l: Local, dst: PeerID): SyncPeer {
    CatchupAck(dst, l.id, l.suite.pub(l.secret))
  }

  datatype Node = Node(peers: map<PeerID, P.Record>, index: map<string, PeerID>,
                       endpoints: Option<seq<string>>, installed: set<R.Prefix>)

  const NEW_NODE := Node(map[], map[], None, {})

  // ---- Update ----

  ghost predicate Parses(l: Local, latest: seq<P.Info>) {
    forall i :: 0 <= i < |latest| && latest[i].id != l.id ==> l.parse(latest[i].ipv4).Some?
  }

  ghost function Routes(l: Local, latest: seq<P.Info>): set<R.Prefix>
    requires Parses(l, latest)
  {
    set i | 0 <= i < |latest| && latest[i].id != l.id :: l.parse(latest[i].ipv4).value
  }

  ghost predicate Listed(latest: seq<P.Info>, id: PeerID) {
    exists i :: 0 <= i < |latest| && latest[i].id == id
  }

  /** Peers already in the table keep their record; of repeated new ones the last counts. */
  ghost function MergePeers(peers: map<PeerID, P.Record>, latest: seq<P.Info>): map<PeerID, P.Record> {
    if latest == [] then map[]
    else
      var i := latest[|latest| - 1];
      MergePeers(peers, latest[..|latest| - 1])[i.id := if i.id in peers then peers[i.id] else P.NewRecord(i)]
  }

  /** Every address of a tabled peer is indexed, and every entry is a tabled peer with that address. */
  ghost predicate IndexFor(peers: map<PeerID, P.Record>, index: map<string, PeerID>) {
    && (forall a :: a in index ==> index[a] in peers && peers[index[a]].info.ipv4 == a)
    && (forall id :: id in peers ==> peers[id].info.ipv4 in index)
  }

  /** The order in which the index is filled is the runtime's choice, so this is a relation. */
  ghost predicate Updated(l: Local, n: Node, latest: seq<P.Info>, n': Node) {
    && Parses(l, latest)
    && n'.peers == MergePeers(n.peers, latest)
    && IndexFor(n'.peers, n'.index)
    && n'.installed == Routes(l, latest)
    && n'.endpoints == n.endpoints
  }

  /** Some dropped tunnels are closed and nothing else changed. */
  ghost predicate PartlyClosed(peers: map<PeerID, P.Record>, peers': map<PeerID, P.Record>, latest: seq<P.Info>) {
    peers'.Keys == peers.Keys
    && forall id :: id in peers ==>
         peers'[id] == peers[id] || (!Listed(latest, id) && peers'[id] == P.ClosedRecord(peers[id]))
  }

  /** An update that panicked on a dropped peer without a tunnel. */
  ghost predicate Interrupted(n: Node, n': Node, latest: seq<P.Info>) {
    n' == n.(peers := n'.peers) && PartlyClosed(n.peers, n'.peers, latest)
  }

  // ---- catch-ups ----

  ghost function WithTunnel(l: Local, endpoints: Option<seq<string>>, r: P.Record, publicKey: nat, now: int): P.Record {
    var link := T.Link(l.suite, l.id, r.info.id, l.suite.dh(l.secret, publicKey));
    r.(tunnel := Some(P.Wire(link, T.NEW_TUNNEL.(localEndpoints := endpoints))),
       catchup := P.CatchupCompleted(r.catchup, now))
  }

  /** The record of an unknown peer: it counts as probed. */
  ghost function Discovered(info: P.Info, now: int): P.Record {
    var r := P.NewRecord(info);
    r.(probe := r.probe.(online := true, lastResponseAt := now))
  }

  /** An unknown peer is tabled and indexed before the key exchange, and routed only after it. */
  ghost function CaughtUp(l: Local, n: Node, info: P.Info, publicKey: nat, now: int, exchanged: bool): Node
    requires info.id in n.peers || l.parse(info.ipv4).Some?
  {
    var id := info.id;
    var known := id in n.peers;
    var r := if known then n.peers[id] else Discovered(info, now);
    var n1 := if known then n else n.(peers := n.peers[id := r], index := n.index[info.ipv4 := id]);
    if !exchanged then n1
    else n1.(peers := n1.peers[id := WithTunnel(l, n.endpoints, r, publicKey, now)],
             installed := if known then n.installed else n.installed + {l.parse(info.ipv4).value})
  }

  ghost function Acked(l: Local, n: Node, id: PeerID, publicKey: nat, now: int, exchanged: bool): Node {
    if id !in n.peers || !exchanged then n
    else n.(peers := n.peers[id := WithTunnel(l, n.endpoints, n.peers[id], publicKey, now)])
  }

  // ---- probe results ----

  /** One online entry of a response: when its peer is checked, when its catch-up is sent, and whether
      there is a client for it that accepts the send. */
  datatype Entry = Entry(id: PeerID, checkedAt: int, sentAt: int, sent: bool)

  ghost function Mark(peers: map<PeerID, P.Record>, ids: seq<PeerID>, online: bool, at: int): map<PeerID, P.Record> {
    if ids == [] then peers
    else
      var m := Mark(peers, ids[..|ids| - 1], online, at);
      var id := ids[|ids| - 1];
      if id in m then m[id := m[id].(probe := m[id].probe.(online := online, lastResponseAt := at))] else m
  }

  /** The positions of the online entries whose peer needs a catch-up; no send has happened yet. */
  ghost function Candidates(peers: map<PeerID, P.Record>, online: seq<Entry>): (cs: seq<nat>)
    ensures forall i :: 0 <= i < |cs| ==> cs[i] < |online| && online[cs[i]].id in peers
  {
    if online == [] then []
    else
      var k := |online| - 1;
      var e := online[k];
      Candidates(peers, online[..k])
      + (if e.id in peers && P.NeedsCatchup(peers[e.id].catchup, e.checkedAt) then [k] else [])
  }

  ghost function SendAll(peers: map<PeerID, P.Record>, online: seq<Entry>, cs: seq<nat>): (r: map<PeerID, P.Record>)
    requires forall i :: 0 <= i < |cs| ==> cs[i] < |online| && online[cs[i]].id in peers
    ensures r.Keys == peers.Keys
  {
    if cs == [] then peers
    else
      var m := SendAll(peers, online, cs[..|cs| - 1]);
      var e := online[cs[|cs| - 1]];
      if e.sent then m[e.id := m[e.id].(catchup := P.CatchupSent(m[e.id].catchup, e.sentAt))] else m
  }

  /** The catch-ups that were sent, announcing this node and its primary server. */
  ghost function SentBy(l: Local, server: nat, online: seq<Entry>, cs: seq<nat>): seq<SyncPeer>
    requires forall i :: 0 <= i < |cs| ==> cs[i] < |online|
  {
    if cs == [] then []
    else
      var e := online[cs[|cs| - 1]];
      SentBy(l, server, online, cs[..|cs| - 1]) + if e.sent then [CatchupTo(l, server, e.id)] else []
  }

  /** What leaves on a probe response; nothing while the primary relay server is not connected. */
  ghost function CatchupsSent(l: Local, n: Node, online: seq<Entry>, primary: Option<nat>): seq<SyncPeer> {
    if primary.None? then [] else SentBy(l, primary.value, online, Candidates(n.peers, online))
  }

  ghost function EntryIds(online: seq<Entry>): seq<PeerID> {
    seq(|online|, i requires 0 <= i < |online| => online[i].id)
  }

  /** Nothing is sent while the primary relay server is not connected. */
  ghost function Probed(n: Node, online: seq<Entry>, offline: seq<PeerID>, at: int, connected: bool): Node {
    var marked := Mark(Mark(n.peers, EntryIds(online), true, at), offline, false, at);
    MarkKeys(n.peers, EntryIds(online), true, at);
    MarkKeys(Mark(n.peers, EntryIds(online), true, at), offline, false, at);
    n.(peers := if connected then SendAll(marked, online, Candidates(n.peers, online)) else marked)
  }

  lemma {:induction false} MarkKeys(peers: map<PeerID, P.Record>, ids: seq<PeerID>, online: bool, at: int)
    ensures Mark(peers, ids, online, at).Keys == peers.Keys
    ensures forall id :: id in peers ==>
              Mark(peers, ids, online, at)[id] == peers[id].(probe := Mark(peers, ids, online, at)[id].probe)
  {
    if ids != [] {
      MarkKeys(peers, ids[..|ids| - 1], online, at);
    }
  }

  // ---- endpoints ----

  predicate LessEq(a: string, b: string) {
    a == "" || (b != "" && (a[0] < b[0] || (a[0] == b[0] && LessEq(a[1..], b[1..]))))
  }

  ghost predicate Sorted(s: seq<string>) {
    forall i, j :: 0 <= i < j < |s| ==> LessEq(s[i], s[j])
  }

  function Insert(x: string, s: seq<string>): seq<string> {
    if s == [] then [x]
    else if LessEq(x, s[0]) then [x] + s
    else [s[0]] + Insert(x, s[1..])
  }

  /** The library's sort of strings; SortUnique shows that any other one gives the same result. */
  function SortStrings(s: seq<string>): seq<string> {
    if s == [] then [] else Insert(s[0], SortStrings(s[1..]))
  }

  ghost function WithEndpoints(r: P.Record, endpoints: seq<string>): P.Record {
    if r.tunnel.None? then r
    else r.(tunnel := Some(r.tunnel.value.(state := r.tunnel.value.state.(localEndpoints := Some(endpoints)))))
  }

  ghost function SetEndpoints(peers: map<PeerID, P.Record>, endpoints: seq<string>): map<PeerID, P.Record> {
    map id | id in peers :: WithEndpoints(peers[id], endpoints)
  }

  ghost function EndpointsSynced(n: Node, endpoints: seq<string>): Node {
    var sorted := SortStrings(endpoints);
    if n.endpoints == Some(sorted) then n
    else n.(endpoints := Some(sorted), peers := SetEndpoints(n.peers, sorted))
  }

  // ---- endpoint changes are detected exactly ----

  lemma {:induction false} LessEqTotal(a: string, b: string)
    ensures LessEq(a, b) || LessEq(b, a)
    ensures LessEq(a, b) && LessEq(b, a) ==> a == b
  {
    if a != "" && b != "" && a[0] == b[0] {
      LessEqTotal(a[1..], b[1..]);
    }
  }

  lemma {:induction false} LessEqTransitive(a: string, b: string, c: string)
    requires LessEq(a, b) && LessEq(b, c)
    ensures LessEq(a, c)
  {
    if a != "" && a[0] == b[0] == c[0] {
      LessEqTransitive(a[1..], b[1..], c[1..]);
    }
  }

  lemma SortedCons(x: string, s: seq<string>)
    requires Sorted(s) && forall y :: y in s ==> LessEq(x, y)
    ensures Sorted([x] + s) && multiset([x] + s) == multiset(s) + multiset{x}
  {
    hide LessEq;
  }

  lemma {:induction false} InsertSorts(x: string, s: seq<string>)
    requires Sorted(s)
    ensures Sorted(Insert(x, s)) && multiset(Insert(x, s)) == multiset(s) + multiset{x}
  {
    hide LessEq;
    if s == [] {
      assert Insert(x, s) == [x];
    } else {
      LessEqTotal(x, s[0]);
      if LessEq(x, s[0]) {
        forall y | y in s ensures LessEq(x, y) {
          FirstIsLeast(s, y);
          LessEqTransitive(x, s[0], y);
        }
        SortedCons(x, s);
      } else {
        InsertSorts(x, s[1..]);
        InsertBehind(x, s);
      }
    }
  }

  lemma InsertBehind(x: string, s: seq<string>)
    requires s != [] && Sorted(s) && LessEq(s[0], x)
    requires var t := Insert(x, s[1..]); Sorted(t) && multiset(t) == multiset(s[1..]) + multiset{x}
    ensures var t := [s[0]] + Insert(x, s[1..]); Sorted(t) && multiset(t) == multiset(s) + multiset{x}
  {
    hide LessEq, Insert;
    var t := Insert(x, s[1..]);
    assert s == [s[0]] + s[1..];
    forall y | y in t ensures LessEq(s[0], y) {
      assert y in multiset(t);
      if y != x {
        FirstIsLeast(s, y);
      }
    }
    SortedCons(s[0], t);
  }

  lemma {:induction false} SortSorts(s: seq<string>)
    ensures Sorted(SortStrings(s)) && multiset(SortStrings(s)) == multiset(s)
  {
    if s != [] {
      SortSorts(s[1..]);
      InsertSorts(s[0], SortStrings(s[1..]));
      assert s == [s[0]] + s[1..];
    }
  }

  /** A list has one sorted permutation. */
  lemma {:induction false} SortUnique(s: seq<string>, t: seq<string>)
    requires Sorted(s) && Sorted(t) && multiset(s) == multiset(t)
    ensures s == t
  {
    if s == [] {
      assert |multiset(t)| == 0;
    } else {
      SameHead(s, t);
      assert s == [s[0]] + s[1..] && t == [t[0]] + t[1..];
      assert multiset(s[1..]) == multiset(s) - multiset{s[0]} && multiset(t[1..]) == multiset(t) - multiset{t[0]};
      SortUnique(s[1..], t[1..]);
    }
  }

  lemma FirstIsLeast(s: seq<string>, x: string)
    requires Sorted(s) && x in s
    ensures LessEq(s[0], x)
  {
    LessEqRefl(s[0]);
  }

  lemma SameHead(s: seq<string>, t: seq<string>)
    requires Sorted(s) && Sorted(t) && multiset(s) == multiset(t) && s != []
    ensures t != [] && s[0] == t[0]
  {
    hide Sorted, LessEq;
    assert s[0] in multiset(t);
    assert t[0] in multiset(s);
    FirstIsLeast(s, t[0]);
    FirstIsLeast(t, s[0]);
    LessEqTotal(s[0], t[0]);
  }

  lemma {:induction false} LessEqRefl(a: string)
    ensures LessEq(a, a)
  {
    if a != "" {
      LessEqRefl(a[1..]);
    }
  }

  /** A call changes nothing if and only if its endpoints are a permutation, with multiplicity, of the
      stored ones; otherwise their sorted list is stored and handed to every tunnel. */
  lemma EndpointChangeExact(n: Node, endpoints: seq<string>)
    requires n.endpoints.Some? ==> Sorted(n.endpoints.value)
    ensures EndpointsSynced(n, endpoints) == n <==>
            n.endpoints.Some? && multiset(endpoints) == multiset(n.endpoints.value)
    ensures EndpointsSynced(n, endpoints) != n ==>
              var n' := EndpointsSynced(n, endpoints);
              n'.endpoints.Some? && Sorted(n'.endpoints.value) && multiset(n'.endpoints.value) == multiset(endpoints)
              && EndpointsAgree(n')
  {
    hide SortStrings, Sorted;
    SortSorts(endpoints);
    if n.endpoints.Some? && multiset(endpoints) == multiset(n.endpoints.value) {
      SortUnique(n.endpoints.value, SortStrings(endpoints));
    }
  }

  // ---- what every run keeps ----

  ghost predicate EndpointsAgree(n: Node) {
    && (n.endpoints.Some? ==> Sorted(n.endpoints.value))
    && (forall id :: id in n.peers && n.peers[id].tunnel.Some? && n.endpoints.Some? ==>
          n.peers[id].tunnel.value.state.localEndpoints == n.endpoints)
  }

  /** The prefixes of the remote peers in the table. */
  ghost function PeerRoutes(l: Local, peers: map<PeerID, P.Record>): set<R.Prefix>
    requires Routable(l, peers)
  {
    set id | id in peers && id != l.id :: l.parse(peers[id].info.ipv4).value
  }

  ghost predicate Routable(l: Local, peers: map<PeerID, P.Record>) {
    forall id :: id in peers && id != l.id ==> l.parse(peers[id].info.ipv4).Some?
  }

  /** Keys are peer ids, the index is exact, and the installed routes are exactly the remote peers'. */
  ghost predicate TablesAgree(l: Local, n: Node) {
    && (forall id :: id in n.peers ==> n.peers[id].info.id == id)
    && IndexFor(n.peers, n.index)
    && Routable(l, n.peers) && n.installed == PeerRoutes(l, n.peers)
  }

  datatype Event =
    | Updates(latest: seq<P.Info>)
    | CatchesUp(info: P.Info, publicKey: nat, now: int, exchanged: bool)
    | Acks(id: PeerID, publicKey: nat, now: int, exchanged: bool)
    | Probes(online: seq<Entry>, offline: seq<PeerID>, at: int, primary: Option<nat>)
    | SyncsEndpoints(endpoints: seq<string>)

  /** Addresses are assigned once and for all, parse, and catch-ups come from remote peers; the key
      exchange of an unknown peer fails only when its prefix is installed already. */
  ghost predicate Orderly(l: Local, addressOf: PeerID -> string, n: Node, e: Event) {
    match e
    case Updates(latest) => Parses(l, latest) && forall i :: 0 <= i < |latest| ==> latest[i].ipv4 == addressOf(latest[i].id)
    case CatchesUp(info, _, _, exchanged) =>
      info.id != l.id && info.ipv4 == addressOf(info.id) && l.parse(info.ipv4).Some?
      && (exchanged || info.id in n.peers || l.parse(info.ipv4).value in n.installed)
    case _ => true
  }

  ghost predicate Next(l: Local, n: Node, e: Event, n': Node) {
    match e
    case Updates(latest) => Updated(l, n, latest, n')
    case CatchesUp(info, publicKey, now, exchanged) =>
      (info.id in n.peers || l.parse(info.ipv4).Some?) && n' == CaughtUp(l, n, info, publicKey, now, exchanged)
    case Acks(id, publicKey, now, exchanged) => n' == Acked(l, n, id, publicKey, now, exchanged)
    case Probes(online, offline, at, primary) => n' == Probed(n, online, offline, at, primary.Some?)
    case SyncsEndpoints(endpoints) => n' == EndpointsSynced(n, endpoints)
  }

  ghost predicate Run(l: Local, es: seq<Event>, ns: seq<Node>) {
    |ns| == |es| + 1 && ns[0] == NEW_NODE && forall i :: 0 <= i < |es| ==> Next(l, ns[i], es[i], ns[i + 1])
  }

  /** Records keep the assigned addresses; together with the agreement this is inductive. */
  ghost predicate Inv(l: Local, addressOf: PeerID -> string, n: Node) {
    && TablesAgree(l, n) && EndpointsAgree(n)
    && (forall id :: id in n.peers ==> n.peers[id].info.ipv4 == addressOf(id))
  }

  /** The new table lists exactly the latest peers. */
  lemma {:induction false} MergedKeys(peers: map<PeerID, P.Record>, latest: seq<P.Info>)
    ensures forall id :: id in MergePeers(peers, latest) <==> Listed(latest, id)
  {
    if latest != [] {
      var k := |latest| - 1;
      var init := latest[..k];
      MergedKeys(peers, init);
      forall id ensures Listed(latest, id) <==> Listed(init, id) || id == latest[k].id {
        if i :| 0 <= i < k && latest[i].id == id {
          assert init[i].id == id;
        }
      }
    }
  }

  /** The last information listed for a peer. */
  ghost function LastInfo(latest: seq<P.Info>, id: PeerID): (i: P.Info)
    requires Listed(latest, id)
    ensures i.id == id
  {
    var k := |latest| - 1;
    if latest[k].id == id then latest[k]
    else
      assert Listed(latest[..k], id) by {
        var i :| 0 <= i < |latest| && latest[i].id == id;
        assert latest[..k][i].id == id;
      }
      LastInfo(latest[..k], id)
  }

  /** The merged table, peer by peer. */
  lemma {:induction false} MergedAt(peers: map<PeerID, P.Record>, latest: seq<P.Info>, id: PeerID)
    requires Listed(latest, id)
    ensures id in MergePeers(peers, latest)
    ensures MergePeers(peers, latest)[id] == if id in peers then peers[id] else P.NewRecord(LastInfo(latest, id))
  {
    hide P.NewRecord;
    var k := |latest| - 1;
    if latest[k].id != id {
      assert Listed(latest[..k], id) by {
        var i :| 0 <= i < |latest| && latest[i].id == id;
        assert latest[..k][i].id == id;
      }
      MergedAt(peers, latest[..k], id);
    }
  }

  lemma ListedSnoc(latest: seq<P.Info>, k: nat, id: PeerID)
    requires k < |latest|
    ensures Listed(latest[..k + 1], id) <==> Listed(latest[..k], id) || id == latest[k].id
    ensures Listed(latest[..k + 1], id) ==>
              LastInfo(latest[..k + 1], id) == if id == latest[k].id then latest[k] else LastInfo(latest[..k], id)
  {
    var b := latest[..k + 1];
    assert b[..k] == latest[..k] && b[k] == latest[k];
    if i :| 0 <= i < k && b[i].id == id {
      assert latest[..k][i].id == id;
    }
    if i :| 0 <= i < k && latest[..k][i].id == id {
      assert b[i].id == id;
    }
  }

  lemma {:induction false} MergeRecords(peers: map<PeerID, P.Record>, latest: seq<P.Info>, addressOf: PeerID -> string)
    requires forall id :: id in peers ==> peers[id].info.id == id && peers[id].info.ipv4 == addressOf(id)
    requires forall i :: 0 <= i < |latest| ==> latest[i].ipv4 == addressOf(latest[i].id)
    ensures var m := MergePeers(peers, latest);
            (forall id :: id in m ==> m[id].info.id == id && m[id].info.ipv4 == addressOf(id))
            && (forall id :: id in m ==> if id in peers then m[id] == peers[id] else m[id].tunnel.None?)
  {
    if latest != [] {
      MergeRecords(peers, latest[..|latest| - 1], addressOf);
    }
  }

  /** The routes computed from the list are those of the peers it leaves in the table. */
  lemma ListedRoutes(l: Local, addressOf: PeerID -> string, latest: seq<P.Info>, peers: map<PeerID, P.Record>)
    requires Parses(l, latest) && forall id :: id in peers <==> Listed(latest, id)
    requires forall i :: 0 <= i < |latest| ==> latest[i].ipv4 == addressOf(latest[i].id)
    requires forall id :: id in peers ==> peers[id].info.ipv4 == addressOf(id)
    ensures Routable(l, peers) && PeerRoutes(l, peers) == Routes(l, latest)
  {
    forall p | p in Routes(l, latest) ensures p in PeerRoutes(l, peers) {
      var i :| 0 <= i < |latest| && latest[i].id != l.id && p == l.parse(latest[i].ipv4).value;
      assert latest[i].id in peers;
    }
    forall p | p in PeerRoutes(l, peers) ensures p in Routes(l, latest) {
      var id :| id in peers && id != l.id && p == l.parse(peers[id].info.ipv4).value;
      assert Listed(latest, id);
      var i :| 0 <= i < |latest| && latest[i].id == id;
    }
  }

  lemma UpdateKeeps(l: Local, addressOf: PeerID -> string, n: Node, latest: seq<P.Info>, n': Node)
    requires Inv(l, addressOf, n) && Orderly(l, addressOf, n, Updates(latest)) && Updated(l, n, latest, n')
    ensures Inv(l, addressOf, n')
  {
    hide MergePeers, Sorted, Routes, PeerRoutes, Routable, Listed, Parses, IndexFor;
    MergeRecords(n.peers, latest, addressOf);
    MergedKeys(n.peers, latest);
    ListedRoutes(l, addressOf, latest, n'.peers);
  }

  lemma CatchupKeeps(l: Local, addressOf: PeerID -> string, n: Node, info: P.Info, publicKey: nat, now: int, exchanged: bool)
    requires Inv(l, addressOf, n) && Orderly(l, addressOf, n, CatchesUp(info, publicKey, now, exchanged))
    ensures Inv(l, addressOf, CaughtUp(l, n, info, publicKey, now, exchanged))
  {
    hide Sorted, CaughtUp, PeerRoutes, Routable, IndexFor;
    CatchupShape(l, n, info, publicKey, now, exchanged);
    CatchupRoutesExact(l, n, info, publicKey, now, exchanged);
    CatchupIndex(n, CaughtUp(l, n, info, publicKey, now, exchanged), info);
  }

  lemma CatchupIndex(n: Node, n': Node, info: P.Info)
    requires IndexFor(n.peers, n.index) && n'.peers.Keys == n.peers.Keys + {info.id}
    requires forall k :: k in n.peers && k != info.id ==> n'.peers[k].info == n.peers[k].info
    requires n'.peers[info.id].info == if info.id in n.peers then n.peers[info.id].info else info
    requires n'.index == if info.id in n.peers then n.index else n.index[info.ipv4 := info.id]
    ensures IndexFor(n'.peers, n'.index)
  {
  }

  /** What a catch-up does to the table, the index and the routes. */
  lemma CatchupShape(l: Local, n: Node, info: P.Info, publicKey: nat, now: int, exchanged: bool)
    requires info.id in n.peers || l.parse(info.ipv4).Some?
    ensures var n' := CaughtUp(l, n, info, publicKey, now, exchanged);
            var id := info.id;
            n'.peers.Keys == n.peers.Keys + {id} && n'.endpoints == n.endpoints
            && (forall k :: k in n.peers && k != id ==> n'.peers[k] == n.peers[k])
            && n'.peers[id].info == (if id in n.peers then n.peers[id].info else info)
            && n'.index == (if id in n.peers then n.index else n.index[info.ipv4 := id])
            && n'.installed == (if id in n.peers || !exchanged then n.installed else n.installed + {l.parse(info.ipv4).value})
            && (exchanged ==> n'.peers[id].tunnel.Some? && n'.peers[id].tunnel.value.state.localEndpoints == n.endpoints)
            && (!exchanged ==> n'.peers[id].tunnel == if id in n.peers then n.peers[id].tunnel else None)
  {
  }

  /** An operation that keeps the keys, the information, the index and the routes keeps the agreement. */
  lemma OnlyStatusKeeps(l: Local, addressOf: PeerID -> string, n: Node, n': Node)
    requires Inv(l, addressOf, n) && n'.index == n.index && n'.installed == n.installed
    requires n'.peers.Keys == n.peers.Keys
    requires forall id :: id in n.peers ==> n'.peers[id].info == n.peers[id].info
    requires EndpointsAgree(n')
    ensures Inv(l, addressOf, n')
  {
    hide EndpointsAgree;
    assert PeerRoutes(l, n'.peers) == PeerRoutes(l, n.peers);
  }

  lemma {:induction false} SendKeepsRest(peers: map<PeerID, P.Record>, online: seq<Entry>, cs: seq<nat>)
    requires forall i :: 0 <= i < |cs| ==> cs[i] < |online| && online[cs[i]].id in peers
    ensures forall id :: id in peers ==>
              SendAll(peers, online, cs)[id] == peers[id].(catchup := SendAll(peers, online, cs)[id].catchup)
  {
    if cs != [] {
      SendKeepsRest(peers, online, cs[..|cs| - 1]);
    }
  }

  /** A probe result changes only probe and catch-up status. */
  lemma ProbeKeepsRest(n: Node, online: seq<Entry>, offline: seq<PeerID>, at: int, connected: bool)
    ensures var n' := Probed(n, online, offline, at, connected);
            n'.peers.Keys == n.peers.Keys && n' == n.(peers := n'.peers)
            && forall id :: id in n.peers ==>
                 n'.peers[id].info == n.peers[id].info && n'.peers[id].tunnel == n.peers[id].tunnel
  {
    hide Mark, SendAll, Candidates;
    var m1 := Mark(n.peers, EntryIds(online), true, at);
    MarkKeys(n.peers, EntryIds(online), true, at);
    MarkKeys(m1, offline, false, at);
    var m2 := Mark(m1, offline, false, at);
    if connected {
      SendKeepsRest(m2, online, Candidates(n.peers, online));
    }
  }

  lemma StepKeeps(l: Local, addressOf: PeerID -> string, n: Node, e: Event, n': Node)
    requires Inv(l, addressOf, n) && Orderly(l, addressOf, n, e) && Next(l, n, e, n')
    ensures Inv(l, addressOf, n')
  {
    match e
    case Updates(latest) => UpdateKeeps(l, addressOf, n, latest, n');
    case CatchesUp(info, publicKey, now, exchanged) => CatchupKeeps(l, addressOf, n, info, publicKey, now, exchanged);
    case Acks(_, _, _, _) => AckKeeps(l, addressOf, n, e, n');
    case Probes(_, _, _, _) => ProbeStepKeeps(l, addressOf, n, e, n');
    case SyncsEndpoints(endpoints) => SyncKeeps(l, addressOf, n, endpoints);
  }

  lemma AckKeeps(l: Local, addressOf: PeerID -> string, n: Node, e: Event, n': Node)
    requires Inv(l, addressOf, n) && e.Acks? && Next(l, n, e, n')
    ensures Inv(l, addressOf, n')
  {
    hide Sorted;
    OnlyStatusKeeps(l, addressOf, n, n');
  }

  lemma ProbeStepKeeps(l: Local, addressOf: PeerID -> string, n: Node, e: Event, n': Node)
    requires Inv(l, addressOf, n) && e.Probes? && Next(l, n, e, n')
    ensures Inv(l, addressOf, n')
  {
    hide Probed, Sorted;
    ProbeKeepsRest(n, e.online, e.offline, e.at, e.primary.Some?);
    OnlyStatusKeeps(l, addressOf, n, n');
  }

  lemma SyncKeeps(l: Local, addressOf: PeerID -> string, n: Node, endpoints: seq<string>)
    requires Inv(l, addressOf, n)
    ensures Inv(l, addressOf, EndpointsSynced(n, endpoints))
  {
    hide Sorted, SortStrings;
    EndpointChangeExact(n, endpoints);
    OnlyStatusKeeps(l, addressOf, n, EndpointsSynced(n, endpoints));
  }

  /** Over every orderly run, in every state: table keys equal peer ids, the index holds exactly the
      addresses of the tabled peers and points at one of them, the installed routes are exactly the
      remote peers', and every tunnel's endpoints are the stored ones. */
  lemma {:induction false} RunAgrees(l: Local, addressOf: PeerID -> string, es: seq<Event>, ns: seq<Node>, k: nat)
    requires Run(l, es, ns) && k < |ns|
    requires forall i :: 0 <= i < |es| ==> Orderly(l, addressOf, ns[i], es[i])
    ensures TablesAgree(l, ns[k]) && EndpointsAgree(ns[k]) && Inv(l, addressOf, ns[k])
  {
    hide Next, Orderly, Sorted;
    if k == 0 {
      FreshInv(l, addressOf);
    } else {
      RunAgrees(l, addressOf, es, ns, k - 1);
      assert Next(l, ns[k - 1], es[k - 1], ns[k - 1 + 1]);
      StepKeeps(l, addressOf, ns[k - 1], es[k - 1], ns[k]);
    }
  }

  lemma FreshInv(l: Local, addressOf: PeerID -> string)
    ensures Inv(l, addressOf, NEW_NODE)
  {
    assert PeerRoutes(l, NEW_NODE.peers) == {};
  }

  /** With distinct addresses the index is a bijection: a lookup finds the one peer with the address. */
  lemma IndexFindsPeer(l: Local, n: Node, id: PeerID)
    requires TablesAgree(l, n) && id in n.peers
    requires forall a, b :: a in n.peers && b in n.peers && n.peers[a].info.ipv4 == n.peers[b].info.ipv4 ==> a == b
    ensures n.peers[id].info.ipv4 in n.index && n.index[n.peers[id].info.ipv4] == id
  {
  }

  /** Exactly when a catch-up from a remote peer keeps the routes in step with the table: the peer was
      known, or the key exchange succeeded, or its prefix was installed already. */
  lemma CatchupRoutesExact(l: Local, n: Node, info: P.Info, publicKey: nat, now: int, exchanged: bool)
    requires TablesAgree(l, n) && info.id != l.id && l.parse(info.ipv4).Some?
    ensures var n' := CaughtUp(l, n, info, publicKey, now, exchanged);
            Routable(l, n'.peers)
            && (n'.installed == PeerRoutes(l, n'.peers) <==>
                info.id in n.peers || exchanged || l.parse(info.ipv4).value in n.installed)
  {
    hide CaughtUp, IndexFor;
    var n' := CaughtUp(l, n, info, publicKey, now, exchanged);
    var p := l.parse(info.ipv4).value;
    CatchupShape(l, n, info, publicKey, now, exchanged);
    if info.id in n.peers {
      assert PeerRoutes(l, n'.peers) == PeerRoutes(l, n.peers);
    } else {
      assert PeerRoutes(l, n'.peers) == PeerRoutes(l, n.peers) + {p};
    }
  }

  /** One catch-up whose key exchange fails leaves a new node with a peer and without its route. */
  lemma FailedExchangeLosesRoute(l: Local)
    requires l.id == 1 && l.parse("10.0.0.2") == Some(5)
    ensures var n' := CaughtUp(l, NEW_NODE, P.Info(2, "10.0.0.2", 3), 9, 0, false);
            Routable(l, n'.peers) && n'.installed == {} && PeerRoutes(l, n'.peers) == {5}
  {
    var n' := CaughtUp(l, NEW_NODE, P.Info(2, "10.0.0.2", 3), 9, 0, false);
    assert n'.peers.Keys == {2} && n'.peers[2].info.ipv4 == "10.0.0.2";
    assert 5 in PeerRoutes(l, n'.peers);
  }

  // ---- probe results and the back-off of each record ----

  ghost predicate DistinctEntries(online: seq<Entry>) {
    forall i, j :: 0 <= i < j < |online| ==> online[i].id != online[j].id
  }

  lemma {:induction false} CandidatesExact(peers: map<PeerID, P.Record>, online: seq<Entry>)
    ensures var cs := Candidates(peers, online);
            (forall k :: k in cs <==> 0 <= k < |online| && online[k].id in peers
                                      && P.NeedsCatchup(peers[online[k].id].catchup, online[k].checkedAt))
            && (forall i, j :: 0 <= i < j < |cs| ==> cs[i] < cs[j])
  {
    hide P.NeedsCatchup;
    if online != [] {
      CandidatesExact(peers, online[..|online| - 1]);
    }
  }

  lemma {:induction false} SendElsewhere(peers: map<PeerID, P.Record>, online: seq<Entry>, cs: seq<nat>, id: PeerID)
    requires id in peers
    requires forall i :: 0 <= i < |cs| ==> cs[i] < |online| && online[cs[i]].id in peers && online[cs[i]].id != id
    ensures SendAll(peers, online, cs)[id] == peers[id]
  {
    if cs != [] {
      SendElsewhere(peers, online, cs[..|cs| - 1], id);
    }
  }

  /** Without repeated ids each candidate's send is the only one to its record. */
  lemma {:induction false} SendOnce(peers: map<PeerID, P.Record>, online: seq<Entry>, cs: seq<nat>, k: nat)
    requires DistinctEntries(online) && k in cs
    requires forall i :: 0 <= i < |cs| ==> cs[i] < |online| && online[cs[i]].id in peers
    requires forall i, j :: 0 <= i < j < |cs| ==> cs[i] < cs[j]
    ensures var e := online[k];
            SendAll(peers, online, cs)[e.id].catchup ==
            if e.sent then P.CatchupSent(peers[e.id].catchup, e.sentAt) else peers[e.id].catchup
  {
    var m := |cs| - 1;
    var init := cs[..m];
    if cs[m] == k {
      SendElsewhere(peers, online, init, online[k].id);
    } else {
      SendOnce(peers, online, init, k);
    }
  }

  /** A response without repeated ids is, for each record it names as online, one check and at most
      one send, the event whose rate Peer.CatchupRate bounds; other records keep their status. */
  lemma ProbeIsOneEvent(n: Node, online: seq<Entry>, offline: seq<PeerID>, at: int, k: nat)
    requires DistinctEntries(online) && k < |online| && online[k].id in n.peers
    ensures var e := online[k];
            Probed(n, online, offline, at, true).peers.Keys == n.peers.Keys
            && Probed(n, online, offline, at, true).peers[e.id].catchup ==
               P.Step(n.peers[e.id].catchup, P.ProbedOnline(e.checkedAt, e.sentAt, e.sent))
  {
    hide P.NeedsCatchup, Mark, SendAll, Candidates;
    var m1 := Mark(n.peers, EntryIds(online), true, at);
    MarkKeys(n.peers, EntryIds(online), true, at);
    MarkKeys(m1, offline, false, at);
    var m2 := Mark(m1, offline, false, at);
    var cs := Candidates(n.peers, online);
    CandidatesExact(n.peers, online);
    if k in cs {
      SendOnce(m2, online, cs, k);
    } else {
      SendElsewhere(m2, online, cs, online[k].id);
    }
  }

  lemma ProbeElsewhere(n: Node, online: seq<Entry>, offline: seq<PeerID>, at: int, id: PeerID)
    requires id in n.peers && forall i :: 0 <= i < |online| ==> online[i].id != id
    ensures Probed(n, online, offline, at, true).peers.Keys == n.peers.Keys
    ensures Probed(n, online, offline, at, true).peers[id].catchup == n.peers[id].catchup
  {
    hide Mark, SendAll, Candidates;
    var m1 := Mark(n.peers, EntryIds(online), true, at);
    MarkKeys(n.peers, EntryIds(online), true, at);
    MarkKeys(m1, offline, false, at);
    SendElsewhere(Mark(m1, offline, false, at), online, Candidates(n.peers, online), id);
  }

  // ---- one record through the runs of its node ----

  ghost function EntryOf(online: seq<Entry>, id: PeerID): (k: int)
    ensures -1 <= k < |online|
    ensures k >= 0 ==> online[k].id == id
    ensures k < 0 ==> forall i :: 0 <= i < |online| ==> online[i].id != id
  {
    if online == [] then -1
    else if online[|online| - 1].id == id then |online| - 1
    else EntryOf(online[..|online| - 1], id)
  }

  /** What an event of the node means for the catch-up status of one record. */
  ghost function Concerning(e: Event, id: PeerID): seq<P.Event> {
    match e
    case CatchesUp(info, _, now, exchanged) => if info.id == id && exchanged then [P.CaughtUp(now)] else []
    case Acks(i, _, now, exchanged) => if i == id && exchanged then [P.CaughtUp(now)] else []
    case Probes(online, _, _, primary) =>
      var k := EntryOf(online, id);
      if primary.Some? && k >= 0 then [P.ProbedOnline(online[k].checkedAt, online[k].sentAt, online[k].sent)] else []
    case _ => []
  }

  ghost function AllConcerning(es: seq<Event>, id: PeerID): seq<P.Event> {
    if es == [] then [] else AllConcerning(es[..|es| - 1], id) + Concerning(es[|es| - 1], id)
  }

  lemma {:induction false} MergeKeepsRecords(peers: map<PeerID, P.Record>, latest: seq<P.Info>)
    ensures var m := MergePeers(peers, latest);
            forall id :: id in m ==>
              if id in peers then m[id] == peers[id]
              else m[id].catchup == P.NO_CATCHUP && m[id].tunnel.None? && m[id].info.id == id
  {
    if latest != [] {
      MergeKeepsRecords(peers, latest[..|latest| - 1]);
    }
  }

  lemma RecordStep(l: Local, n: Node, e: Event, n': Node, id: PeerID)
    requires Next(l, n, e, n') && id in n.peers && id in n'.peers
    requires e.Probes? ==> DistinctEntries(e.online)
    ensures var c := Concerning(e, id);
            n'.peers[id].catchup == if c == [] then n.peers[id].catchup else P.Step(n.peers[id].catchup, c[0])
  {
    hide Probed, P.NeedsCatchup, MergePeers, Mark, SendAll, Candidates;
    match e
    case Updates(latest) => MergeKeepsRecords(n.peers, latest);
    case Probes(online, offline, at, primary) =>
      if primary.Some? {
        var k := EntryOf(online, id);
        if k >= 0 {
          ProbeIsOneEvent(n, online, offline, at, k);
        } else {
          ProbeElsewhere(n, online, offline, at, id);
        }
      } else {
        ProbeDisconnected(n, online, offline, at, id);
      }
    case _ =>
  }

  lemma ProbeDisconnected(n: Node, online: seq<Entry>, offline: seq<PeerID>, at: int, id: PeerID)
    requires id in n.peers
    ensures Probed(n, online, offline, at, false).peers.Keys == n.peers.Keys
    ensures Probed(n, online, offline, at, false).peers[id].catchup == n.peers[id].catchup
  {
    hide Mark;
    MarkKeys(n.peers, EntryIds(online), true, at);
    MarkKeys(Mark(n.peers, EntryIds(online), true, at), offline, false, at);
  }

  /** A record starts out in the state its first event leaves; a probe response creates none. */
  lemma RecordCreated(l: Local, n: Node, e: Event, n': Node, id: PeerID)
    requires Next(l, n, e, n') && id !in n.peers && id in n'.peers
    ensures !e.Probes? && |Concerning(e, id)| <= 1
    ensures n'.peers[id].catchup == P.After(Concerning(e, id)).c && P.After(Concerning(e, id)).sentAt == []
  {
    hide MergePeers, Probed, SortStrings;
    match e
    case Updates(latest) => MergeKeepsRecords(n.peers, latest);
    case Probes(online, offline, at, primary) => ProbeKeepsRest(n, online, offline, at, primary.Some?);
    case _ =>
  }

  /** From the event that created a record, for as long as it stays in the table, its catch-up status
      is that of the events concerning it. */
  lemma {:induction false} RecordFollows(l: Local, es: seq<Event>, ns: seq<Node>, from: nat, to: nat, id: PeerID)
    requires Tabled(l, es, ns, from, to, id)
    ensures ns[to].peers[id].catchup == P.After(AllConcerning(es[from..to], id)).c
  {
    hide Concerning, P.Step, Next, DistinctEntries, P.After;
    var seg := es[from..to];
    assert seg[..|seg| - 1] == es[from..to - 1] && seg[|seg| - 1] == es[to - 1];
    assert Next(l, ns[to - 1], es[to - 1], ns[to - 1 + 1]);
    if to == from + 1 {
      RecordCreated(l, ns[from], es[from], ns[to], id);
      assert AllConcerning(seg, id) == [] + Concerning(es[from], id) == Concerning(es[from], id);
    } else {
      RecordFollows(l, es, ns, from, to - 1, id);
      RecordStep(l, ns[to - 1], es[to - 1], ns[to], id);
      AfterConcerning(AllConcerning(es[from..to - 1], id), es[to - 1], id);
    }
  }

  /** Event `from` of the run creates the record of `id`, which then stays in the table up to state
      `to`; no probe response names a peer twice. */
  ghost predicate Tabled(l: Local, es: seq<Event>, ns: seq<Node>, from: nat, to: nat, id: PeerID) {
    && Run(l, es, ns) && from < to < |ns| && id !in ns[from].peers
    && (forall i :: from < i <= to ==> id in ns[i].peers)
    && (forall i :: from <= i < to && es[i].Probes? ==> DistinctEntries(es[i].online))
  }

  lemma AfterConcerning(before: seq<P.Event>, e: Event, id: PeerID)
    ensures |Concerning(e, id)| <= 1
    ensures var c := Concerning(e, id);
            P.After(before + c).c == if c == [] then P.After(before).c else P.Step(P.After(before).c, c[0])
    ensures var c := Concerning(e, id);
            P.After(before + c).sentAt == P.After(before).sentAt + if Sends(P.After(before).c, e, id) then [c[0].sentAt] else []
  {
    hide P.Step, P.NeedsCatchup;
    var c := Concerning(e, id);
    if c == [] {
      assert before + c == before;
    } else {
      assert (before + c)[..|before|] == before;
    }
  }

  // ---- the messages behind the sends ----

  /** The event finds the record in need of a catch-up, and the send is accepted. */
  ghost predicate Sends(c: P.Catchup, e: Event, id: PeerID) {
    var p := Concerning(e, id);
    p != [] && p[0].ProbedOnline? && P.NeedsCatchup(c, p[0].checkedAt) && p[0].sent
  }

  /** A catch-up addressed to `id` leaves the node. */
  ghost predicate Leaves(l: Local, n: Node, e: Event, id: PeerID) {
    e.Probes? && exists m :: m in CatchupsSent(l, n, e.online, e.primary) && m.dst == id
  }

  /** The messages sent are those of the accepted candidates. */
  lemma {:induction false} SentByExact(l: Local, server: nat, online: seq<Entry>, cs: seq<nat>, m: SyncPeer)
    requires forall i :: 0 <= i < |cs| ==> cs[i] < |online|
    ensures m in SentBy(l, server, online, cs) <==>
            exists k :: k in cs && online[k].sent && m == CatchupTo(l, server, online[k].id)
  {
    if cs != [] {
      var i := |cs| - 1;
      SentByExact(l, server, online, cs[..i], m);
      assert forall k :: k in cs <==> k in cs[..i] || k == cs[i];
    }
  }

  /** Exactly when a catch-up to a tabled peer leaves: its event counts a send. */
  lemma LeavesExact(l: Local, n: Node, e: Event, id: PeerID)
    requires e.Probes? ==> DistinctEntries(e.online)
    ensures Leaves(l, n, e, id) <==> id in n.peers && Sends(n.peers[id].catchup, e, id)
    ensures Leaves(l, n, e, id) ==>
              forall m :: m in CatchupsSent(l, n, e.online, e.primary) && m.dst == id ==>
                m == Catchup(id, P.Info(l.id, l.ipv4, e.primary.value), l.suite.pub(l.secret))
  {
    hide P.NeedsCatchup, Candidates, SentBy;
    if e.Probes? && e.primary.Some? {
      var cs := Candidates(n.peers, e.online);
      CandidatesExact(n.peers, e.online);
      var k := EntryOf(e.online, id);
      forall m | m in CatchupsSent(l, n, e.online, e.primary) && m.dst == id
        ensures k >= 0 && k in cs && e.online[k].sent
        ensures m == Catchup(id, P.Info(l.id, l.ipv4, e.primary.value), l.suite.pub(l.secret))
      {
        SentByExact(l, e.primary.value, e.online, cs, m);
        var i :| i in cs && e.online[i].sent && m == CatchupTo(l, e.primary.value, e.online[i].id);
        assert i == k;
      }
      if k >= 0 && k in cs && e.online[k].sent {
        SentByExact(l, e.primary.value, e.online, cs, CatchupTo(l, e.primary.value, id));
      }
    }
  }

  lemma {:induction false} SentByOnce(l: Local, server: nat, online: seq<Entry>, cs: seq<nat>)
    requires DistinctEntries(online) && Distinct(cs)
    requires forall i :: 0 <= i < |cs| ==> cs[i] < |online|
    ensures forall i, j :: 0 <= i < j < |SentBy(l, server, online, cs)| ==>
              SentBy(l, server, online, cs)[i].dst != SentBy(l, server, online, cs)[j].dst
  {
    if cs != [] {
      var n := |cs| - 1;
      var init := SentBy(l, server, online, cs[..n]);
      SentByOnce(l, server, online, cs[..n]);
      forall m | m in init ensures m.dst != online[cs[n]].id {
        SentByExact(l, server, online, cs[..n], m);
      }
    }
  }

  /** No response makes a node send two catch-ups to one peer. */
  lemma SentOnce(l: Local, n: Node, online: seq<Entry>, primary: Option<nat>)
    requires DistinctEntries(online)
    ensures var sent := CatchupsSent(l, n, online, primary);
            forall i, j :: 0 <= i < j < |sent| ==> sent[i].dst != sent[j].dst
  {
    hide DistinctEntries, SentBy, Candidates;
    if primary.Some? {
      CandidatesExact(n.peers, online);
      SentByOnce(l, primary.value, online, Candidates(n.peers, online));
    }
  }

  /** The time at which the catch-up to `id`, if one leaves, is recorded as sent. */
  ghost function LeavesAt(l: Local, n: Node, e: Event, id: PeerID): seq<int> {
    if Leaves(l, n, e, id) && EntryOf(e.online, id) >= 0 then [e.online[EntryOf(e.online, id)].sentAt] else []
  }

  /** The times at which catch-ups to `id` left, over events `from` to `to` of a run. */
  ghost function LeftAt(l: Local, es: seq<Event>, ns: seq<Node>, from: nat, to: nat, id: PeerID): seq<int>
    requires from <= to <= |es| <= |ns|
  {
    if to == from then [] else LeftAt(l, es, ns, from, to - 1, id) + LeavesAt(l, ns[to - 1], es[to - 1], id)
  }

  lemma LeavesAtExact(l: Local, n: Node, e: Event, id: PeerID)
    requires e.Probes? ==> DistinctEntries(e.online)
    ensures LeavesAt(l, n, e, id) ==
            if id in n.peers && Sends(n.peers[id].catchup, e, id) then [Concerning(e, id)[0].sentAt] else []
  {
    hide Leaves, P.NeedsCatchup;
    LeavesExact(l, n, e, id);
  }

  lemma {:induction false} LeftAtFollows(l: Local, es: seq<Event>, ns: seq<Node>, from: nat, to: nat, id: PeerID)
    requires Tabled(l, es, ns, from, to, id)
    ensures LeftAt(l, es, ns, from, to, id) == P.After(AllConcerning(es[from..to], id)).sentAt
  {
    hide Next, LeavesAt, Sends, Concerning, DistinctEntries, P.After;
    var seg := es[from..to];
    assert seg[..|seg| - 1] == es[from..to - 1] && seg[|seg| - 1] == es[to - 1];
    LeavesAtExact(l, ns[to - 1], es[to - 1], id);
    if to == from + 1 {
      assert Next(l, ns[from], es[from], ns[from + 1]);
      RecordCreated(l, ns[from], es[from], ns[to], id);
      assert AllConcerning(seg, id) == [] + Concerning(es[from], id) == Concerning(es[from], id);
    } else {
      RecordFollows(l, es, ns, from, to - 1, id);
      LeftAtFollows(l, es, ns, from, to - 1, id);
      AfterConcerning(AllConcerning(es[from..to - 1], id), es[to - 1], id);
    }
  }

  /** The sends of a response lie within the range of a Duration and are recorded after their checks. */
  ghost predicate OnTime(e: Event, start: int) {
    e.Probes? ==> forall k :: 0 <= k < |e.online| ==>
      e.online[k].checkedAt <= e.online[k].sentAt && start <= e.online[k].sentAt < start + 0x8000_0000_0000_0000
  }

  lemma {:induction false} TimelyEvents(es: seq<Event>, id: PeerID, start: int)
    requires forall i :: 0 <= i < |es| ==> OnTime(es[i], start)
    ensures P.Timely(AllConcerning(es, id), start)
  {
    if es != [] {
      TimelyEvents(es[..|es| - 1], id, start);
    }
  }

  /** Over every run of a node, for every record and however it was created: the catch-ups that leave
      for it are spaced by the quadratic back-off. */
  lemma NodeCatchupRate(l: Local, es: seq<Event>, ns: seq<Node>, from: nat, to: nat, id: PeerID, start: int)
    requires Tabled(l, es, ns, from, to, id) && forall i :: from <= i < to ==> OnTime(es[i], start)
    ensures var leftAt := LeftAt(l, es, ns, from, to, id);
            var n := |leftAt|;
            P.Spaced(leftAt)
            && (n >= 2 ==> 6 * (leftAt[n - 1] - leftAt[0]) > (n * (n + 1) * (2 * n + 1) - 6) * P.CATCHUP_INTERVAL)
  {
    hide P.After, AllConcerning, P.Spaced, P.Timely, Next, LeftAt, OnTime;
    LeftAtFollows(l, es, ns, from, to, id);
    TimelyEvents(es[from..to], id, start);
    P.CatchupRate(AllConcerning(es[from..to], id), start);
  }

  /** The event completes the record's catch-up. */
  ghost predicate Completes(e: Event, id: PeerID) {
    Concerning(e, id) != [] && Concerning(e, id)[0].CaughtUp?
  }

  lemma {:induction false} DoneStays(l: Local, es: seq<Event>, ns: seq<Node>, from: nat, to: nat, id: PeerID, i: nat, j: nat)
    requires Tabled(l, es, ns, from, to, id) && from <= i < j <= to && Completes(es[i], id)
    ensures ns[j].peers[id].catchup.done
  {
    hide Next, DistinctEntries, Concerning, P.NeedsCatchup;
    assert Next(l, ns[j - 1], es[j - 1], ns[j - 1 + 1]);
    if j > i + 1 {
      DoneStays(l, es, ns, from, to, id, i, j - 1);
      RecordStep(l, ns[j - 1], es[j - 1], ns[j], id);
    } else if i == from {
      RecordCreated(l, ns[from], es[from], ns[j], id);
      CompletedAlone(es[from], id);
    } else {
      RecordStep(l, ns[i], es[i], ns[j], id);
    }
  }

  lemma CompletedAlone(e: Event, id: PeerID)
    requires Completes(e, id)
    ensures P.After(Concerning(e, id)).c.done
  {
    var c := Concerning(e, id);
    assert c == [c[0]] && c[..0] == [];
  }

  /** Once a catch-up with the peer has completed, by its catch-up or by its acknowledgement, no
      catch-up to it leaves for as long as its record stays in the table. */
  lemma NodeCatchupStops(l: Local, es: seq<Event>, ns: seq<Node>, from: nat, to: nat, id: PeerID, i: nat, j: nat)
    requires Tabled(l, es, ns, from, to, id) && from <= i < j < to && Completes(es[i], id)
    ensures !Leaves(l, ns[j], es[j], id)
  {
    hide Next, DistinctEntries, Concerning, Leaves;
    DoneStays(l, es, ns, from, to, id, i, j);
    LeavesExact(l, ns[j], es[j], id);
  }

  lemma {:induction false} NotCompleted(es: seq<Event>, id: PeerID)
    requires forall i :: 0 <= i < |es| ==> !Completes(es[i], id)
    ensures !P.Completed(AllConcerning(es, id))
  {
    if es != [] {
      NotCompleted(es[..|es| - 1], id);
      ConcerningOne(es[|es| - 1], id);
    }
  }

  lemma ConcerningOne(e: Event, id: PeerID)
    ensures |Concerning(e, id)| <= 1
  {
  }

  /** Exactly when a catch-up to a peer that has not completed one leaves: a response read while connected
      names the peer online, the send is accepted, and the back-off since the last that left is over. */
  lemma LeavesIff(l: Local, es: seq<Event>, ns: seq<Node>, from: nat, to: nat, id: PeerID, start: int)
    requires Tabled(l, es, ns, from, to, id) && to < |es| && (es[to].Probes? ==> DistinctEntries(es[to].online))
    requires forall i :: from <= i < to ==> OnTime(es[i], start) && !Completes(es[i], id)
    ensures Leaves(l, ns[to], es[to], id) <==>
            es[to].Probes? && es[to].primary.Some?
            && exists k :: 0 <= k < |es[to].online| && es[to].online[k].id == id && es[to].online[k].sent
                           && P.Overdue(LeftAt(l, es, ns, from, to, id), es[to].online[k].checkedAt)
  {
    hide Next, Leaves, AllConcerning, P.After, P.Overdue, P.Completed, P.NeedsCatchup, LeftAt, Completes, OnTime, P.Timely;
    var e, seg := es[to], es[from..to];
    LeavesExact(l, ns[to], e, id);
    RecordFollows(l, es, ns, from, to, id);
    LeftAtFollows(l, es, ns, from, to, id);
    TimelyEvents(seg, id, start);
    NotCompleted(seg, id);
    if e.Probes? && e.primary.Some? {
      var k := EntryOf(e.online, id);
      if k >= 0 {
        P.DueIff(AllConcerning(seg, id), start, e.online[k].checkedAt);
        assert forall j :: 0 <= j < |e.online| && e.online[j].id == id ==> j == k;
      }
    }
  }

  // ---- what else the operations write ----

  lemma {:induction false} MarkExact(peers: map<PeerID, P.Record>, ids: seq<PeerID>, online: bool, at: int, id: PeerID)
    requires id in peers
    ensures id in Mark(peers, ids, online, at)
    ensures Mark(peers, ids, online, at)[id].probe ==
            if id in ids then P.Probe(peers[id].probe.lastRequestAt, at, online) else peers[id].probe
  {
    if ids != [] {
      var n := |ids| - 1;
      MarkExact(peers, ids[..n], online, at, id);
      assert id in ids <==> id in ids[..n] || id == ids[n];
    }
  }

  /** After a response every peer it names offline is offline, every other it names online is online, both
      as of now, and nothing else about any status changed. */
  lemma ProbeStatusExact(n: Node, online: seq<Entry>, offline: seq<PeerID>, at: int, connected: bool, id: PeerID)
    requires id in n.peers
    ensures id in Probed(n, online, offline, at, connected).peers
    ensures Probed(n, online, offline, at, connected).peers[id].probe ==
            if id in offline then P.Probe(n.peers[id].probe.lastRequestAt, at, false)
            else if exists k :: 0 <= k < |online| && online[k].id == id then P.Probe(n.peers[id].probe.lastRequestAt, at, true)
            else n.peers[id].probe
  {
    hide Mark, SendAll, Candidates;
    var ids := EntryIds(online);
    var m1 := Mark(n.peers, ids, true, at);
    MarkKeys(n.peers, ids, true, at);
    MarkExact(n.peers, ids, true, at, id);
    MarkKeys(m1, offline, false, at);
    MarkExact(m1, offline, false, at, id);
    assert id in ids <==> exists k :: 0 <= k < |online| && online[k].id == id by {
      if k :| 0 <= k < |online| && online[k].id == id {
        assert ids[k] == id;
      }
    }
    if connected {
      SendKeepsRest(Mark(m1, offline, false, at), online, Candidates(n.peers, online));
    }
  }

  /** The record a catch-up leaves, field by field: an unknown peer counts as probed now; a successful
      exchange completes the catch-up and brings a new tunnel under the exchanged key. */
  lemma CatchupRecordExact(l: Local, n: Node, info: P.Info, publicKey: nat, now: int, exchanged: bool)
    requires info.id in n.peers || l.parse(info.ipv4).Some?
    ensures var known, n' := info.id in n.peers, CaughtUp(l, n, info, publicKey, now, exchanged);
            info.id in n'.peers
            && var r := n'.peers[info.id];
            r.info == (if known then n.peers[info.id].info else info)
            && r.probe == (if known then n.peers[info.id].probe else P.Probe(T.ZERO_TIME, now, true))
            && (!exchanged ==> r.catchup == (if known then n.peers[info.id].catchup else P.NO_CATCHUP))
            && (exchanged ==> r.catchup.done && r.catchup.noAck == 0 && r.catchup.completedAt == now
                              && r.catchup.lastSendAt == (if known then n.peers[info.id].catchup.lastSendAt else T.ZERO_TIME))
            && (exchanged ==> r.tunnel.Some? && r.tunnel.value.link.key == l.suite.dh(l.secret, publicKey)
                              && r.tunnel.value.link.local == l.id && r.tunnel.value.link.peer == r.info.id
                              && r.tunnel.value.state == T.State(false, false, n.endpoints, 0, T.ZERO_TIME, T.ZERO_TIME))
  {
  }

  /** The order of the sorted endpoints is the lexicographic one. */
  lemma {:induction false} LessEqIff(a: string, b: string)
    ensures LessEq(a, b) <==> a <= b || exists k :: 0 <= k < |a| && k < |b| && a[..k] == b[..k] && a[k] < b[k]
  {
    if a != "" && b != "" {
      if a[0] == b[0] {
        LessEqIff(a[1..], b[1..]);
        assert a <= b <==> a[1..] <= b[1..];
        if k :| 0 <= k < |a| && k < |b| && a[..k] == b[..k] && a[k] < b[k] {
          assert a[1..][..k - 1] == b[1..][..k - 1] && a[1..][k - 1] < b[1..][k - 1];
        }
        if k :| 0 <= k < |a[1..]| && k < |b[1..]| && a[1..][..k] == b[1..][..k] && a[1..][k] < b[1..][k] {
          assert a[..k + 1] == [a[0]] + a[1..][..k] && b[..k + 1] == [b[0]] + b[1..][..k] && a[k + 1] < b[k + 1];
        }
      } else if a[0] < b[0] {
        assert a[..0] == b[..0];
      } else if k :| 0 < k < |a| && k < |b| && a[..k] == b[..k] {
        SameStart(a, b, k);
      }
    }
  }

  lemma SameStart(a: string, b: string, k: nat)
    requires 0 < k <= |a| && k <= |b| && a[..k] == b[..k]
    ensures a[0] == b[0]
  {
    assert a[..k][0] == b[..k][0];
  }

  /** An acknowledgement of a tabled peer with a successful exchange does to its record what a catch-up of a
      known peer does, and to nothing else; any other changes nothing. */
  lemma AckExact(l: Local, n: Node, id: PeerID, publicKey: nat, now: int, exchanged: bool, info: P.Info)
    requires info.id == id
    ensures Acked(l, n, id, publicKey, now, exchanged) ==
            if id in n.peers && exchanged then CaughtUp(l, n, info, publicKey, now, true) else n
  {
  }

  /** A change of endpoints touches nothing but the stored list and the tunnels' copies of it. */
  lemma EndpointsOnly(n: Node, endpoints: seq<string>, id: PeerID)
    requires id in n.peers
    ensures var n' := EndpointsSynced(n, endpoints);
            n'.peers.Keys == n.peers.Keys && n'.index == n.index && n'.installed == n.installed
            && var r, r' := n.peers[id], n'.peers[id];
            r'.info == r.info && r'.probe == r.probe && r'.catchup == r.catchup && (r'.tunnel.Some? <==> r.tunnel.Some?)
            && (r.tunnel.Some? ==> r'.tunnel.value.link == r.tunnel.value.link
                                   && r'.tunnel.value.state == r.tunnel.value.state.(localEndpoints := r'.tunnel.value.state.localEndpoints))
  {
    hide SortStrings;
  }

  /** A newly listed peer enters the table under its last listing, never probed, never asked, without a tunnel. */
  lemma NewlyListed(peers: map<PeerID, P.Record>, latest: seq<P.Info>, k: nat)
    requires k < |latest| && latest[k].id !in peers && forall j :: k < j < |latest| ==> latest[j].id != latest[k].id
    ensures latest[k].id in MergePeers(peers, latest)
    ensures MergePeers(peers, latest)[latest[k].id] ==
            P.Record(latest[k], P.Probe(T.ZERO_TIME, T.ZERO_TIME, false), P.Catchup(T.ZERO_TIME, T.ZERO_TIME, false, 0), None)
  {
    hide MergePeers;
    MergedAt(peers, latest, latest[k].id);
    LastInfoIs(latest, k);
  }

  lemma {:induction false} LastInfoIs(latest: seq<P.Info>, k: nat)
    requires k < |latest| && forall j :: k < j < |latest| ==> latest[j].id != latest[k].id
    ensures Listed(latest, latest[k].id) && LastInfo(latest, latest[k].id) == latest[k]
  {
    var n := |latest| - 1;
    if k < n {
      LastInfoIs(latest[..n], k);
      assert latest[..n][k] == latest[k];
    }
  }
}
