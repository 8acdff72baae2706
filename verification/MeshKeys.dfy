/** Any number of nodes exchanging catch-ups and data. Messages may be lost, repeated and reordered:
    what was ever sent stays deliverable. Each node's steps are those of its mesh manager. */
module MeshKeys {
  import opened Bytes
  import T = Tunnel
  import P = Peer
  import R = Router
  import M = Mesh
  import D = Driver
  import PeerCodec

  type PeerID = P.PeerID

  /** The nodes: one static key pair and one address per peer id. */
  datatype Cast = Cast(suite: T.Suite, secretOf: PeerID -> nat, addressOf: PeerID -> string, parse: string -> Option<R.Prefix>)

  ghost function LocalOf(c: Cast, x: PeerID): M.Local {
    M.Local(x, c.addressOf(x), c.secretOf(x), c.suite, c.parse)
  }

  ghost function PublicOf(c: Cast, x: PeerID): nat {
    c.suite.pub(c.secretOf(x))
  }

  /** Messages also record who sent them, and data messages what was written, to say what should arrive. */
  datatype Letter =
    | Sync(src: PeerID, message: M.SyncPeer)
    | Datagram(src: PeerID, dst: PeerID, bytes: seq<byte>, written: seq<byte>)
    | Forward(src: PeerID, dst: PeerID, nonce: uint32, fragment: seq<byte>, written: seq<byte>)

  datatype World = World(nodes: map<PeerID, M.Node>, net: set<Letter>)

  datatype Event =
    | Joins(x: PeerID)
    | Updates(x: PeerID, latest: seq<P.Info>)
    | Probes(x: PeerID, online: seq<M.Entry>, offline: seq<PeerID>, at: int, primary: Option<nat>)
    | SyncsEndpoints(x: PeerID, endpoints: seq<string>)
    | Delivers(src: PeerID, message: M.SyncPeer, now: int, exchanged: bool, accepted: bool)
    | Writes(x: PeerID, y: PeerID, data: seq<byte>, env: T.Env)

  // ---- one step ----

  ghost function Syncs(src: PeerID, messages: seq<M.SyncPeer>): set<Letter> {
    set m | m in messages :: Sync(src, m)
  }

  ghost function Posted(src: PeerID, dst: PeerID, out: T.Outgoing, data: seq<byte>): set<Letter> {
    match out
    case Direct(bytes) => {Datagram(src, dst, bytes, data)}
    case Relayed(s, d, nonce, fragment) => {Forward(s, d, nonce, fragment, data)}
    case PairRequest(_, _, _) => {}
  }

  ghost function AllPosted(src: PeerID, dst: PeerID, out: seq<T.Outgoing>, data: seq<byte>): set<Letter> {
    if out == [] then {} else Posted(src, dst, out[0], data) + AllPosted(src, dst, out[1..], data)
  }

  ghost predicate HasTunnel(w: World, x: PeerID, y: PeerID) {
    x in w.nodes && y in w.nodes[x].peers && w.nodes[x].peers[y].tunnel.Some?
  }

  ghost function TunnelOf(w: World, x: PeerID, y: PeerID): P.Wire
    requires HasTunnel(w, x, y)
  {
    w.nodes[x].peers[y].tunnel.value
  }

  ghost function AfterWrite(w: World, x: PeerID, y: PeerID, data: seq<byte>, env: T.Env): World
    requires HasTunnel(w, x, y)
  {
    var n := w.nodes[x];
    var t := TunnelOf(w, x, y);
    var t' := t.(state := T.WriteState(t.state, env));
    World(w.nodes[x := n.(peers := n.peers[y := n.peers[y].(tunnel := Some(t'))])],
          w.net + AllPosted(x, y, T.WriteOut(t.link, t.state, data, env), data))
  }

  ghost predicate Next(c: Cast, w: World, e: Event, w': World) {
    match e
    case Joins(x) => x !in w.nodes && w' == w.(nodes := w.nodes[x := M.NEW_NODE])
    case Updates(x, latest) =>
      x in w.nodes && x in w'.nodes && M.Updated(LocalOf(c, x), w.nodes[x], latest, w'.nodes[x])
      && w' == w.(nodes := w.nodes[x := w'.nodes[x]])
    case Probes(x, online, offline, at, primary) =>
      x in w.nodes
      && w' == World(w.nodes[x := M.Probed(w.nodes[x], online, offline, at, primary.Some?)],
                     w.net + Syncs(x, M.CatchupsSent(LocalOf(c, x), w.nodes[x], online, primary)))
    case SyncsEndpoints(x, endpoints) =>
      x in w.nodes && w' == w.(nodes := w.nodes[x := M.EndpointsSynced(w.nodes[x], endpoints)])
    case Delivers(src, m, now, exchanged, accepted) =>
      Sync(src, m) in w.net && m.dst in w.nodes && D.Acceptable(LocalOf(c, m.dst), w.nodes[m.dst], m)
      && w' == World(w.nodes[m.dst := D.Synced(LocalOf(c, m.dst), w.nodes[m.dst], m, now, exchanged)],
                     w.net + Syncs(m.dst, D.Replies(LocalOf(c, m.dst), m, exchanged, accepted)))
    case Writes(x, y, data, env) => HasTunnel(w, x, y) && w' == AfterWrite(w, x, y, data, env)
  }

  ghost predicate Run(c: Cast, es: seq<Event>, ws: seq<World>) {
    |ws| == |es| + 1 && ws[0] == World(map[], {}) && forall i :: 0 <= i < |es| ==> Next(c, ws[i], es[i], ws[i + 1])
  }

  // ---- the invariant ----

  ghost function KeyOf(c: Cast, x: PeerID, y: PeerID): nat {
    c.suite.dh(c.secretOf(x), PublicOf(c, y))
  }

  ghost function LinkOf(c: Cast, x: PeerID, y: PeerID): T.Link {
    T.Link(c.suite, x, y, KeyOf(c, x, y))
  }

  /** Every tunnel X holds for Y uses the exchange of X's secret with Y's public key. */
  ghost predicate NodeKeyed(c: Cast, x: PeerID, n: M.Node) {
    forall y :: y in n.peers ==>
      n.peers[y].info.id == y && (n.peers[y].tunnel.Some? ==> n.peers[y].tunnel.value.link == LinkOf(c, x, y))
  }

  ghost function SenderOf(m: M.SyncPeer): PeerID {
    if m.Catchup? then m.peer.id else m.peerID
  }

  /** A catch-up or acknowledgement carries its sender's own id, address and public key; a data message
      is sealed under the key of its two ends. */
  ghost predicate Honest(c: Cast, l: Letter) {
    match l
    case Sync(src, m) =>
      SenderOf(m) == src && m.publicKey == PublicOf(c, src) && (m.Catchup? ==> m.peer.ipv4 == c.addressOf(src))
    case Datagram(src, dst, bytes, written) =>
      exists nonce :: bytes == PeerCodec.Layout(nonce, T.FRAGMENT_TYPE, src, c.suite.seal(KeyOf(c, src, dst), nonce, written))
    case Forward(src, dst, nonce, fragment, written) => fragment == c.suite.seal(KeyOf(c, src, dst), nonce, written)
  }

  ghost predicate Inv(c: Cast, w: World) {
    (forall x :: x in w.nodes ==> NodeKeyed(c, x, w.nodes[x])) && (forall l :: l in w.net ==> Honest(c, l))
  }

  lemma UpdateKeyed(c: Cast, x: PeerID, n: M.Node, latest: seq<P.Info>, n': M.Node)
    requires NodeKeyed(c, x, n) && M.Updated(LocalOf(c, x), n, latest, n')
    ensures NodeKeyed(c, x, n')
  {
    hide M.MergePeers, M.IndexFor, M.Routes;
    M.MergeKeepsRecords(n.peers, latest);
  }

  lemma {:induction false} SentHonest(c: Cast, x: PeerID, server: nat, online: seq<M.Entry>, cs: seq<nat>)
    requires forall i :: 0 <= i < |cs| ==> cs[i] < |online|
    ensures forall m :: m in M.SentBy(LocalOf(c, x), server, online, cs) ==> Honest(c, Sync(x, m))
  {
    if cs != [] {
      SentHonest(c, x, server, online, cs[..|cs| - 1]);
    }
  }

  lemma ProbeKeyed(c: Cast, x: PeerID, n: M.Node, online: seq<M.Entry>, offline: seq<PeerID>, at: int, connected: bool)
    requires NodeKeyed(c, x, n)
    ensures NodeKeyed(c, x, M.Probed(n, online, offline, at, connected))
  {
    hide M.Probed;
    M.ProbeKeepsRest(n, online, offline, at, connected);
  }

  lemma SyncKeyed(c: Cast, x: PeerID, n: M.Node, endpoints: seq<string>)
    requires NodeKeyed(c, x, n)
    ensures NodeKeyed(c, x, M.EndpointsSynced(n, endpoints))
  {
    hide M.SortStrings;
  }

  lemma SyncPeerKeyed(c: Cast, x: PeerID, n: M.Node, m: M.SyncPeer, now: int, exchanged: bool)
    requires NodeKeyed(c, x, n) && D.Acceptable(LocalOf(c, x), n, m) && Honest(c, Sync(SenderOf(m), m))
    ensures NodeKeyed(c, x, D.Synced(LocalOf(c, x), n, m, now, exchanged))
  {
  }

  lemma {:induction false} PostedHonest(c: Cast, x: PeerID, y: PeerID, s: T.State, data: seq<byte>, env: T.Env)
    ensures forall l :: l in AllPosted(x, y, T.WriteOut(LinkOf(c, x, y), s, data, env), data) ==> Honest(c, l)
  {
    hide PeerCodec.Layout;
    var out := T.WriteOut(LinkOf(c, x, y), s, data, env);
    var all := AllPosted(x, y, out, data);
    assert |out| <= 2;
    if |out| > 0 {
      assert all == Posted(x, y, out[0], data) + AllPosted(x, y, out[1..], data);
      if |out| > 1 {
        assert out[1..] == [out[1]] && [out[1]][1..] == [];
        assert AllPosted(x, y, out[1..], data) == Posted(x, y, out[1], data);
      }
    }
  }

  lemma WriteKeeps(c: Cast, w: World, x: PeerID, y: PeerID, data: seq<byte>, env: T.Env)
    requires Inv(c, w) && HasTunnel(w, x, y)
    ensures Inv(c, AfterWrite(w, x, y, data, env))
  {
    hide Honest, T.WriteOut, T.WriteState, AllPosted;
    PostedHonest(c, x, y, TunnelOf(w, x, y).state, data, env);
  }

  lemma StepKeeps(c: Cast, w: World, e: Event, w': World)
    requires Inv(c, w) && Next(c, w, e, w')
    ensures Inv(c, w')
  {
    hide NodeKeyed, M.Updated, M.Probed, D.Synced, D.Acceptable, M.EndpointsSynced, AfterWrite, M.SentBy, M.Candidates;
    match e
    case Joins(x) => FreshKeyed(c, x);
    case Updates(x, latest) => UpdateKeyed(c, x, w.nodes[x], latest, w'.nodes[x]);
    case Probes(x, online, offline, at, primary) =>
      ProbeKeyed(c, x, w.nodes[x], online, offline, at, primary.Some?);
      if primary.Some? {
        SentHonest(c, x, primary.value, online, M.Candidates(w.nodes[x].peers, online));
      }
    case SyncsEndpoints(x, endpoints) => SyncKeyed(c, x, w.nodes[x], endpoints);
    case Delivers(src, m, now, exchanged, _) =>
      assert Honest(c, Sync(src, m));
      SyncPeerKeyed(c, m.dst, w.nodes[m.dst], m, now, exchanged);
    case Writes(x, y, data, env) => WriteKeeps(c, w, x, y, data, env);
  }

  lemma FreshKeyed(c: Cast, x: PeerID)
    ensures NodeKeyed(c, x, M.NEW_NODE)
  {
  }

  lemma {:induction false} RunKeeps(c: Cast, es: seq<Event>, ws: seq<World>, k: nat)
    requires Run(c, es, ws) && k < |ws|
    ensures Inv(c, ws[k])
  {
    hide Next;
    if k > 0 {
      RunKeeps(c, es, ws, k - 1);
      assert Next(c, ws[k - 1], es[k - 1], ws[k - 1 + 1]);
      StepKeeps(c, ws[k - 1], es[k - 1], ws[k]);
    }
  }

  // ---- what every run keeps ----

  /** In every state of every run: each catch-up and acknowledgement carries its sender's own id and
      public key, and when two nodes hold tunnels for each other their keys are the same. */
  lemma TunnelKeysAgree(c: Cast, es: seq<Event>, ws: seq<World>, k: nat, x: PeerID, y: PeerID)
    requires T.Lawful(c.suite) && Run(c, es, ws) && k < |ws|
    ensures forall l :: l in ws[k].net ==> Honest(c, l)
    ensures HasTunnel(ws[k], x, y) ==> TunnelOf(ws[k], x, y).link == LinkOf(c, x, y)
    ensures HasTunnel(ws[k], x, y) && HasTunnel(ws[k], y, x) ==>
              TunnelOf(ws[k], x, y).link.key == TunnelOf(ws[k], y, x).link.key
  {
    hide Run, Honest;
    RunKeeps(c, es, ws, k);
    if HasTunnel(ws[k], x, y) {
      assert NodeKeyed(c, x, ws[k].nodes[x]);
    }
    if HasTunnel(ws[k], y, x) {
      assert NodeKeyed(c, y, ws[k].nodes[y]);
    }
  }

  /** A fragment sent directly, whenever and however often it arrives while the receiver holds a tunnel
      for the sender, is decrypted to the bytes that were written. */
  lemma DatagramsArrive(c: Cast, es: seq<Event>, ws: seq<World>, k: nat, l: Letter)
    requires T.Lawful(c.suite) && Run(c, es, ws) && k < |ws|
    requires l in ws[k].net && l.Datagram? && HasTunnel(ws[k], l.dst, l.src)
    ensures T.Receive(c.suite, TunnelOf(ws[k], l.dst, l.src).link.key, l.bytes) == T.Fragment(l.written)
  {
    hide Run, T.Receive, PeerCodec.Layout;
    TunnelKeysAgree(c, es, ws, k, l.dst, l.src);
    assert Honest(c, l);
    var nonce :| l.bytes == PeerCodec.Layout(nonce, T.FRAGMENT_TYPE, l.src, c.suite.seal(KeyOf(c, l.src, l.dst), nonce, l.written));
    assert KeyOf(c, l.dst, l.src) == KeyOf(c, l.src, l.dst);
    T.DirectArrives(LinkOf(c, l.src, l.dst), l.written, nonce);
  }

  /** A relayed fragment reaching its destination is never rejected for its address or its key: it
      is delivered byte for byte as soon as the receiver holds a tunnel for the sender. */
  lemma ForwardsArrive(c: Cast, es: seq<Event>, ws: seq<World>, k: nat, l: Letter)
    requires T.Lawful(c.suite) && Run(c, es, ws) && k < |ws|
    requires l in ws[k].net && l.Forward? && l.dst in ws[k].nodes
    ensures D.Forwarded(l.dst, ws[k].nodes[l.dst], l.src, l.dst, l.nonce, l.fragment) ==
            if l.src !in ws[k].nodes[l.dst].peers then D.PeerClosed
            else if !HasTunnel(ws[k], l.dst, l.src) then D.NoTunnel
            else D.Delivered(l.written)
  {
    hide Run;
    TunnelKeysAgree(c, es, ws, k, l.dst, l.src);
    assert Honest(c, l);
    assert KeyOf(c, l.dst, l.src) == KeyOf(c, l.src, l.dst);
  }

  /** Two nodes with tunnels for each other can talk: what x writes and a socket or a relay takes reaches
      y byte for byte. */
  lemma TunnelsTalk(c: Cast, w: World, x: PeerID, y: PeerID, data: seq<byte>, env: T.Env)
    requires T.Lawful(c.suite) && HasTunnel(w, x, y) && HasTunnel(w, y, x) && x != y
    requires TunnelOf(w, x, y).link == LinkOf(c, x, y) && TunnelOf(w, y, x).link == LinkOf(c, y, x)
    requires env.reachable || (env.client && env.forwardSent)
    ensures var w' := AfterWrite(w, x, y, data, env);
            HasTunnel(w', y, x)
            && exists l :: l in w'.net && Reaches(w', y, l, data)
  {
    hide T.Receive, PeerCodec.Layout, AllPosted, T.WriteState;
    var w' := AfterWrite(w, x, y, data, env);
    var link := LinkOf(c, x, y);
    var out := T.WriteOut(link, TunnelOf(w, x, y).state, data, env);
    var sealed := c.suite.seal(link.key, env.nonce, data);
    assert KeyOf(c, y, x) == link.key;
    FirstPosted(x, y, out, data);
    if env.reachable {
      T.DirectArrives(link, data, env.nonce);
      assert Reaches(w', y, Datagram(x, y, PeerCodec.Layout(env.nonce, T.FRAGMENT_TYPE, x, sealed), data), data);
    } else {
      assert Reaches(w', y, Forward(x, y, env.nonce, sealed, data), data);
    }
  }

  lemma FirstPosted(src: PeerID, dst: PeerID, out: seq<T.Outgoing>, data: seq<byte>)
    requires out != []
    ensures Posted(src, dst, out[0], data) <= AllPosted(src, dst, out, data)
  {
  }

  /** The data message is opened by node y to exactly these bytes. */
  ghost predicate Reaches(w: World, y: PeerID, l: Letter, data: seq<byte>) {
    match l
    case Datagram(src, dst, bytes, _) =>
      dst == y && HasTunnel(w, y, src)
      && T.Receive(TunnelOf(w, y, src).link.suite, TunnelOf(w, y, src).link.key, bytes) == T.Fragment(data)
    case Forward(src, dst, nonce, fragment, _) =>
      y in w.nodes && D.Forwarded(y, w.nodes[y], src, dst, nonce, fragment) == D.Delivered(data)
    case Sync(_, _) => false
  }

  /** The exchange completes: a catch-up from x that reaches y is acknowledged, and once the acknowledgement
      gets back while x still lists y, each holds a tunnel for the other with the same key, and what x
      writes reaches y byte for byte. */
  lemma ExchangeCompletes(c: Cast, w0: World, w1: World, w2: World, x: PeerID, y: PeerID, server: nat,
                          now: int, later: int, accepted: bool, data: seq<byte>, env: T.Env)
    requires T.Lawful(c.suite) && Inv(c, w0) && x != y && x in w0.nodes && y in w0.nodes[x].peers
    requires Next(c, w0, Delivers(x, M.CatchupTo(LocalOf(c, x), server, y), now, true, true), w1)
    ensures Sync(y, M.AckTo(LocalOf(c, y), x)) in w1.net
    ensures Next(c, w1, Delivers(y, M.AckTo(LocalOf(c, y), x), later, true, accepted), w2) ==>
              HasTunnel(w2, x, y) && HasTunnel(w2, y, x)
              && TunnelOf(w2, x, y).link.key == TunnelOf(w2, y, x).link.key == KeyOf(c, x, y)
              && (env.reachable || (env.client && env.forwardSent) ==>
                    var w3 := AfterWrite(w2, x, y, data, env);
                    exists l :: l in w3.net && Reaches(w3, y, l, data))
  {
    hide Inv, AfterWrite, Reaches;
    var e1 := Delivers(x, M.CatchupTo(LocalOf(c, x), server, y), now, true, true);
    var e2 := Delivers(y, M.AckTo(LocalOf(c, y), x), later, true, accepted);
    StepKeeps(c, w0, e1, w1);
    if Next(c, w1, e2, w2) {
      StepKeeps(c, w1, e2, w2);
      LinksOf(c, w2, x, y);
      LinksOf(c, w2, y, x);
      if env.reachable || (env.client && env.forwardSent) {
        TunnelsTalk(c, w2, x, y, data, env);
      }
    }
  }

  lemma LinksOf(c: Cast, w: World, x: PeerID, y: PeerID)
    requires Inv(c, w) && HasTunnel(w, x, y)
    ensures TunnelOf(w, x, y).link == LinkOf(c, x, y)
  {
    hide Honest;
    assert NodeKeyed(c, x, w.nodes[x]);
  }
}
