/** The node driver's callbacks for frames that arrive through a relay. */
module Driver {
  import opened Bytes
  import P = Peer
  import M = Mesh
  import Manager
  import Registry

  type PeerID = P.PeerID

  datatype Outcome = Delivered(data: seq<byte>) | WrongDestination | PeerClosed | NoTunnel | DecryptFailed

  /** A relayed fragment meets the tunnel the node holds for its sender. */
  ghost function Forwarded(self: PeerID, n: M.Node, src: PeerID, dst: PeerID, nonce: uint32, fragment: seq<byte>): Outcome {
    if dst != self then WrongDestination
    else if src !in n.peers then PeerClosed
    else if n.peers[src].tunnel.None? then NoTunnel
    else
      var link := n.peers[src].tunnel.value.link;
      match link.suite.unseal(link.key, nonce, fragment)
      case None => DecryptFailed
      case Some(data) => Delivered(data)
  }

  /** A catch-up of an unknown peer needs an address that parses. */
  ghost predicate Acceptable(l: M.Local, n: M.Node, m: M.SyncPeer) {
    m.dst == l.id && (m.Catchup? ==> m.peer.id in n.peers || l.parse(m.peer.ipv4).Some?)
  }

  ghost function Synced(l: M.Local, n: M.Node, m: M.SyncPeer, now: int, exchanged: bool): M.Node
    requires Acceptable(l, n, m)
  {
    match m
    case Catchup(_, peer, publicKey) => M.CaughtUp(l, n, peer, publicKey, now, exchanged)
    case CatchupAck(_, peerID, publicKey) => M.Acked(l, n, peerID, publicKey, now, exchanged)
  }

  ghost function Replies(l: M.Local, m: M.SyncPeer, exchanged: bool, accepted: bool): seq<M.SyncPeer> {
    if m.Catchup? && exchanged && accepted then [M.AckTo(l, m.peer.id)] else []
  }

  /** What becomes of any relayed fragment: refused for another destination, else for an unknown sender,
      else for a sender without a tunnel, else delivered exactly when the tunnel's key opens it. */
  lemma ForwardedIff(self: PeerID, n: M.Node, src: PeerID, dst: PeerID, nonce: uint32, fragment: seq<byte>, data: seq<byte>)
    ensures Forwarded(self, n, src, dst, nonce, fragment) == WrongDestination <==> dst != self
    ensures Forwarded(self, n, src, dst, nonce, fragment) == PeerClosed <==> dst == self && src !in n.peers
    ensures Forwarded(self, n, src, dst, nonce, fragment) == NoTunnel <==>
            dst == self && src in n.peers && n.peers[src].tunnel.None?
    ensures Forwarded(self, n, src, dst, nonce, fragment) == Delivered(data) <==>
            dst == self && src in n.peers && n.peers[src].tunnel.Some?
            && var link := n.peers[src].tunnel.value.link; link.suite.unseal(link.key, nonce, fragment) == Some(data)
  {
  }

  /** A probe request names no peer twice, and then neither does the online part of the relay's reply. */
  lemma ProbeReplyDistinct<Id>(es: seq<Registry.Event<Id>>, id: Id, ids: seq<PeerID>, online: seq<M.Entry>)
    requires var r := Registry.After(es); !r.closed && id in r.all && r.all[id].running && !r.all[id].closed
    requires Distinct(ids)
    requires var r := Registry.After(es + [Registry.Probed(id, ids, true)]);
             id in r.all && r.all[id].queue != []
             && var reply := r.all[id].queue[|r.all[id].queue| - 1]; reply.ProbeResponse? && M.EntryIds(online) == reply.online
    ensures M.DistinctEntries(online)
  {
    hide Registry.After;
    Registry.ProbeSound(es, id, ids);
    var on := M.EntryIds(online);
    forall i, j | 0 <= i < j < |online| ensures online[i].id != online[j].id {
      assert on[i] != on[j];
    }
  }

  /** Whatever a relay in any reachable state has queued for the session of a node, that node's driver
      does not reject for its destination. */
  lemma RelayedIsAccepted<Id>(es: seq<Registry.Event<Id>>, id: Id, i: nat, self: PeerID, n: M.Node,
                              src: PeerID, nonce: uint32, fragment: seq<byte>)
    requires var r := Registry.After(es);
             id in r.all && r.all[id].peerID == self && i < |r.all[id].queue| && r.all[id].queue[i].Forward?
    ensures Forwarded(self, n, src, Registry.After(es).all[id].queue[i].dst, nonce, fragment) != WrongDestination
  {
    hide Registry.After;
    Registry.DestinationCheckPasses(es, id, i);
  }

  /** The same for a queued sync message `m`, carried by a SyncPeer frame to its own destination. */
  lemma RelayedSyncIsAccepted<Id>(es: seq<Registry.Event<Id>>, id: Id, i: nat, l: M.Local, n: M.Node, m: M.SyncPeer)
    requires var r := Registry.After(es);
             id in r.all && r.all[id].peerID == l.id && i < |r.all[id].queue|
             && r.all[id].queue[i].SyncPeer? && r.all[id].queue[i].dst == m.dst
    ensures Acceptable(l, n, m) <==> m.CatchupAck? || m.peer.id in n.peers || l.parse(m.peer.ipv4).Some?
  {
    hide Registry.After;
    Registry.DestinationCheckPasses(es, id, i);
  }

  class NodeDriver {
    const mm: Manager.Manager
    var toDevice: seq<seq<byte>>

    constructor (mm: Manager.Manager)
      ensures this.mm == mm && toDevice == []
    {
      this.mm, toDevice := mm, [];
    }

    method OnForward(src: PeerID, dst: PeerID, nonce: uint32, fragment: seq<byte>) returns (o: Outcome)
      requires mm.Valid()
      modifies `toDevice
      ensures o == Forwarded(mm.local.id, old(mm.Value()), src, dst, nonce, fragment)
      ensures toDevice == old(toDevice) + if o.Delivered? then [o.data] else []
      ensures dst != mm.local.id ==> o == WrongDestination
    {
      if dst != mm.local.id {
        return WrongDestination;
      }
      if src !in mm.peers {
        return PeerClosed;
      }
      var t := mm.peers[src].tunnel;
      if t == null {
        return NoTunnel;
      }
      var decrypted := t.link.suite.unseal(t.link.key, nonce, fragment);
      if decrypted.None? {
        return DecryptFailed;
      }
      toDevice := toDevice + [decrypted.value];
      o := Delivered(decrypted.value);
    }

    method OnSyncPeer(m: M.SyncPeer, now: int, exchanged: bool, client: bool, accepted: bool)
      returns (ok: bool, sent: seq<M.SyncPeer>)
      requires mm.Valid() && !mm.locked
      modifies mm, mm.router, mm.peers.Values, Manager.TunnelsOf(mm.peers)
      ensures mm.Valid() && toDevice == old(toDevice)
      ensures m.dst != mm.local.id ==> !ok && mm.Value() == old(mm.Value()) && sent == []
      ensures old(Acceptable(mm.local, mm.Value(), m)) ==>
                !mm.locked && mm.Value() == Synced(mm.local, old(mm.Value()), m, now, exchanged)
                && sent == Replies(mm.local, m, exchanged, client && accepted)
      ensures !old(Acceptable(mm.local, mm.Value(), m)) ==> !ok && mm.Value() == old(mm.Value()) && sent == []
    {
      hide M.CaughtUp, M.Acked;
      sent := [];
      if m.dst != mm.local.id {
        return false, [];
      }
      match m
      case Catchup(_, peer, publicKey) =>
        ok, sent := mm.PeerCatchup(peer, publicKey, now, exchanged, client, accepted);
      case CatchupAck(_, peerID, publicKey) =>
        mm.PeerCatchupAck(peerID, publicKey, now, exchanged);
        ok := true;
    }
  }
}
