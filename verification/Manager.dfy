/** The mesh manager as the source keeps it: maps of peer objects that share tunnels and records,
    changed in place. Each method is the corresponding operation of the value model. */
module Manager {
  import opened Bytes
  import T = Tunnel
  import P = Peer
  import R = Router
  import M = Mesh

  type PeerID = M.PeerID

  ghost function TunnelsOf(peers: map<PeerID, P.Peer>): set<T.Tunnel?>
    reads peers.Values
  {
    set id | id in peers :: peers[id].tunnel
  }

  /** The table by value. */
  ghost function Records(peers: map<PeerID, P.Peer>): (m: map<PeerID, P.Record>)
    reads peers.Values, TunnelsOf(peers)
    ensures m.Keys == peers.Keys && forall id :: id in peers ==> m[id] == peers[id].Value()
  {
    map id | id in peers :: peers[id].Value()
  }

  /** The index by value; a peer's information never changes. */
  ghost function IdsOf(index: map<string, P.Peer>): (m: map<string, PeerID>)
    ensures m.Keys == index.Keys && forall a :: a in index ==> m[a] == index[a].info.id
  {
    map a | a in index :: index[a].info.id
  }

  lemma IdsGrow(index: map<string, P.Peer>, a: string, p: P.Peer)
    ensures IdsOf(index[a := p]) == IdsOf(index)[a := p.info.id]
  {
  }

  lemma ValuesGrow(peers: map<PeerID, P.Peer>, index: map<string, P.Peer>, id: PeerID, a: string, p: P.Peer)
    requires index.Values <= peers.Values && id !in peers
    ensures index[a := p].Values <= peers[id := p].Values
  {
    var bigger := peers[id := p];
    forall q | q in index[a := p].Values ensures q in bigger.Values {
      var k :| k in index[a := p] && index[a := p][k] == q;
      if k == a {
        assert bigger[id] == q;
      } else {
        assert q in index.Values;
        var i :| i in peers && peers[i] == q;
        assert bigger[i] == q;
      }
    }
  }

  /** Keys are peer ids, so the objects are distinct; no two peers share a tunnel. */
  ghost predicate Separate(peers: map<PeerID, P.Peer>)
    reads peers.Values
  {
    && (forall id :: id in peers ==> peers[id].info.id == id)
    && (forall a, b :: a in peers && b in peers && a != b && peers[a].tunnel != null ==> peers[a].tunnel != peers[b].tunnel)
  }

  /** An address that does not parse, and a dropped peer that never got a tunnel, end Update early. */
  datatype Outcome = Done | Unparsable | Panicked

  class Manager {
    const local: M.Local
    const router: R.Router
    var peers: map<PeerID, P.Peer>
    var index: map<string, P.Peer>
    var endpoints: Option<seq<string>>
    var locked: bool

    ghost predicate Valid()
      reads this, peers.Values, router
    {
      router.Valid() && Separate(peers) && index.Values <= peers.Values
    }

    ghost function Value(): M.Node
      reads this, peers.Values, TunnelsOf(peers), router
    {
      M.Node(Records(peers), IdsOf(index), endpoints, router.Installed())
    }

    constructor (local: M.Local, router: R.Router)
      requires router.Valid() && router.Installed() == {}
      ensures this.local == local && this.router == router && !locked
      ensures Valid() && Value() == M.NEW_NODE
    {
      this.local, this.router := local, router;
      peers, index, endpoints, locked := map[], map[], None, false;
      new;
      assert Records(peers) == map[] && IdsOf(index) == map[];
    }

    // ---- Update ----

    /** The new table lists the latest peers: the tabled objects, and new ones without a tunnel. */
    ghost predicate Merging(merged: map<PeerID, P.Peer>, latest: seq<P.Info>)
      reads this, merged.Values, TunnelsOf(merged)
    {
      && (forall id :: id in merged <==> M.Listed(latest, id))
      && (forall id :: id in merged ==> merged[id].info.id == id)
      && (forall id :: id in merged && id in peers ==> merged[id] == peers[id])
      && (forall id :: id in merged && id !in peers ==>
            merged[id].tunnel == null && merged[id].Value() == P.NewRecord(M.LastInfo(latest, id)))
    }

    /** Builds the new table; an address that does not parse aborts. */
    method MergeLatest(latest: seq<P.Info>) returns (merged: map<PeerID, P.Peer>, routes: seq<R.Prefix>, ok: bool)
      requires Valid()
      ensures ok <==> M.Parses(local, latest)
      ensures ok ==> Merging(merged, latest) && (set p | p in routes) == M.Routes(local, latest)
      ensures ok ==> forall id :: id in merged <==> M.Listed(latest, id)
      ensures Value() == old(Value())
      ensures forall id :: id in merged && id !in peers ==> fresh(merged[id])
    {
      hide M.Routes, P.NewRecord, M.LastInfo, Records, IdsOf, R.Router.Valid, R.Router.Installed;
      merged, routes, ok := map[], [], true;
      NoRoutes();
      for k := 0 to |latest|
        modifies {}
        invariant M.Parses(local, latest[..k]) && Merging(merged, latest[..k])
        invariant (set p | p in routes) == M.Routes(local, latest[..k])
        invariant forall id :: id in merged && id !in peers ==> fresh(merged[id])
      {
        var l := latest[k];
        var p: P.Peer;
        if l.id in peers {
          p := peers[l.id];
        } else {
          p := new P.Peer(l);
        }
        MergingSnoc(merged, latest, k, p);
        merged := merged[l.id := p];
        if l.id != local.id {
          var addr := local.parse(l.ipv4);
          if addr.None? {
            RoutesOnly();
            return merged, routes, false;
          }
          routes := routes + [addr.value];
        }
        RoutesSnoc(latest, k);
      }
      assert latest[..|latest|] == latest;
      RoutesOnly();
    }

    lemma MergingSnoc(merged: map<PeerID, P.Peer>, latest: seq<P.Info>, k: nat, p: P.Peer)
      requires k < |latest| && Merging(merged, latest[..k]) && p.info.id == latest[k].id
      requires if p.info.id in peers then p == peers[p.info.id] else p.tunnel == null && p.Value() == P.NewRecord(latest[k])
      ensures Merging(merged[p.info.id := p], latest[..k + 1])
    {
      hide M.Listed, M.LastInfo, P.NewRecord;
      forall id {
        M.ListedSnoc(latest, k, id);
      }
    }

    lemma NoRoutes()
      ensures M.Parses(local, []) && M.Routes(local, []) == {}
    {
    }

    lemma RoutesSnoc(latest: seq<P.Info>, k: nat)
      requires k < |latest| && M.Parses(local, latest[..k])
      requires latest[k].id != local.id ==> local.parse(latest[k].ipv4).Some?
      ensures M.Parses(local, latest[..k + 1])
      ensures M.Routes(local, latest[..k + 1]) ==
              M.Routes(local, latest[..k]) + if latest[k].id == local.id then {} else {local.parse(latest[k].ipv4).value}
    {
      var a, b := latest[..k], latest[..k + 1];
      assert forall i :: 0 <= i < k ==> a[i] == b[i];
      assert b[k] == latest[k];
      forall p | p in M.Routes(local, a) ensures p in M.Routes(local, b) {
        var i :| 0 <= i < |a| && a[i].id != local.id && p == local.parse(a[i].ipv4).value;
        assert b[i].id != local.id;
      }
    }

    method BuildIndex(merged: map<PeerID, P.Peer>) returns (byAddress: map<string, P.Peer>)
      ensures byAddress.Values <= merged.Values
      ensures forall a :: a in byAddress ==> byAddress[a].info.ipv4 == a
      ensures forall id :: id in merged ==> merged[id].info.ipv4 in byAddress
    {
      byAddress := map[];
      var todo := merged.Keys;
      while todo != {}
        invariant todo <= merged.Keys && byAddress.Values <= merged.Values
        invariant forall a :: a in byAddress ==> byAddress[a].info.ipv4 == a
        invariant forall id :: id in merged && id !in todo ==> merged[id].info.ipv4 in byAddress
        decreases todo
      {
        var id :| id in todo;
        byAddress := byAddress[merged[id].info.ipv4 := merged[id]];
        todo := todo - {id};
      }
    }

    ghost predicate AllHaveTunnels(ids: set<PeerID>)
      reads this, peers.Values
    {
      forall id :: id in ids && id in peers ==> peers[id].tunnel != null
    }

    /** Closes the tunnels of the peers that are no longer listed, in any order, up to the first that
        never got one. */
    method CloseDropped(merged: map<PeerID, P.Peer>) returns (ok: bool)
      requires Valid()
      modifies set id | id in peers && id !in merged :: peers[id].tunnel
      ensures ok == AllHaveTunnels(peers.Keys - merged.Keys)
      ensures ok ==> forall id :: id in peers && id !in merged ==> peers[id].tunnel.closed
      ensures forall id :: id in peers && id !in merged && peers[id].tunnel != null ==>
                peers[id].tunnel.Value() == old(peers[id].tunnel.Value()).(closed := peers[id].tunnel.closed)
                && (old(peers[id].tunnel.closed) ==> peers[id].tunnel.closed)
    {
      hide R.Router.Valid, Separate;
      var todo := peers.Keys - merged.Keys;
      while todo != {}
        invariant todo <= peers.Keys - merged.Keys
        invariant forall id :: id in peers && id !in merged && id !in todo ==> peers[id].tunnel != null && peers[id].tunnel.closed
        invariant forall id :: id in peers && id !in merged && peers[id].tunnel != null ==>
                    peers[id].tunnel.Value() == old(peers[id].tunnel.Value()).(closed := peers[id].tunnel.closed)
                    && (old(peers[id].tunnel.closed) ==> peers[id].tunnel.closed)
        decreases todo
      {
        var id :| id in todo;
        ok := peers[id].Close();
        if !ok {
          return;
        }
        todo := todo - {id};
      }
      ok := true;
    }

    /** Closes the dropped peers and makes the new maps current; a panic leaves the old maps. */
    method Replace(merged: map<PeerID, P.Peer>, latest: seq<P.Info>) returns (ok: bool)
      requires Valid() && Merging(merged, latest)
      modifies `peers, `index, set id | id in peers && id !in merged :: peers[id].tunnel
      ensures ok == old(AllHaveTunnels(peers.Keys - merged.Keys)) && Valid()
      ensures ok ==> peers == merged && Indexed() && TableOf(peers, old(Records(peers)), latest)
      ensures ok ==> forall id :: id in old(peers) && id !in peers ==> old(peers[id].tunnel).closed
      ensures !ok ==> peers == old(peers) && index == old(index)
      ensures !ok ==> M.PartlyClosed(old(Records(peers)), Records(peers), latest)
    {
      hide P.NewRecord, M.PartlyClosed, M.Listed, M.LastInfo, TableOf, Records, Separate, R.Router.Valid;
      SeparateMerged(merged, latest);
      ok := CloseKeeping(merged, latest);
      if ok {
        Adopt(merged, old(Records(peers)), latest);
      }
    }

    method Adopt(merged: map<PeerID, P.Peer>, ghost records: map<PeerID, P.Record>, ghost latest: seq<P.Info>)
      requires router.Valid() && Separate(merged) && TableOf(merged, records, latest)
      modifies `peers, `index
      ensures peers == merged && Valid() && Indexed() && TableOf(peers, records, latest)
    {
      hide P.NewRecord, M.Listed, M.LastInfo, R.Router.Valid;
      var byAddress := BuildIndex(merged);
      peers := merged;
      index := byAddress;
    }

    lemma SeparateMerged(merged: map<PeerID, P.Peer>, latest: seq<P.Info>)
      requires Valid() && Merging(merged, latest)
      ensures Separate(merged)
    {
      hide P.NewRecord, M.Listed, M.LastInfo, R.Router.Valid;
    }

    method CloseKeeping(merged: map<PeerID, P.Peer>, latest: seq<P.Info>) returns (ok: bool)
      requires Valid() && Merging(merged, latest)
      modifies set id | id in peers && id !in merged :: peers[id].tunnel
      ensures ok == AllHaveTunnels(peers.Keys - merged.Keys)
      ensures TableOf(merged, old(Records(peers)), latest)
      ensures ok ==> forall id :: id in peers && id !in merged ==> peers[id].tunnel.closed
      ensures M.PartlyClosed(old(Records(peers)), Records(peers), latest)
    {
      hide P.NewRecord, M.Listed, M.LastInfo, R.Router.Valid;
      MergedRecords(merged, latest);
      ok := CloseDropped(merged);
      KeptUnchanged(merged, latest);
    }

    /** The tunnels of kept peers are none of the closed ones. */
    twostate lemma KeptUnchanged(new merged: map<PeerID, P.Peer>, latest: seq<P.Info>)
      requires forall id :: id in merged ==> old(allocated(merged[id]))
      requires old(Valid() && Merging(merged, latest)) && unchanged(this)
      requires forall id :: id in merged ==> unchanged(merged[id])
      requires forall id :: id in peers ==> unchanged(peers[id])
      requires forall id :: id in merged && old(merged[id].tunnel) != null
                 && (forall k :: k in peers && k !in merged ==> old(peers[k].tunnel) != old(merged[id].tunnel))
                 ==> unchanged(old(merged[id].tunnel))
      ensures forall id :: id in merged ==> merged[id].Value() == old(merged[id].Value())
    {
      hide P.NewRecord, M.Listed, M.LastInfo, R.Router.Valid;
    }

    lemma MergedRecords(merged: map<PeerID, P.Peer>, latest: seq<P.Info>)
      requires Valid() && Merging(merged, latest)
      ensures TableOf(merged, Records(peers), latest)
    {
      hide P.NewRecord, M.Listed, M.LastInfo, R.Router.Valid;
    }

    ghost predicate Indexed()
      reads this
    {
      && (forall a :: a in index ==> index[a].info.ipv4 == a)
      && (forall id :: id in peers ==> peers[id].info.ipv4 in index)
    }

    /** The table lists the latest peers, with the given records or new ones. */
    ghost predicate TableOf(table: map<PeerID, P.Peer>, records: map<PeerID, P.Record>, latest: seq<P.Info>)
      reads table.Values, TunnelsOf(table)
    {
      && (forall id :: id in table <==> M.Listed(latest, id))
      && (forall id :: id in table ==>
            table[id].Value() == if id in records then records[id] else P.NewRecord(M.LastInfo(latest, id)))
    }

    method Install(merged: map<PeerID, P.Peer>, routes: seq<R.Prefix>, latest: seq<P.Info>) returns (ok: bool)
      requires Valid() && M.Parses(local, latest) && Merging(merged, latest)
      requires (set p | p in routes) == M.Routes(local, latest)
      modifies `peers, `index, router, set id | id in peers && id !in merged :: peers[id].tunnel
      ensures ok == old(AllHaveTunnels(peers.Keys - merged.Keys)) && Valid()
      ensures ok ==> peers == merged && M.Updated(local, old(Value()), latest, Value())
      ensures ok ==> forall id :: id in old(peers) && id !in peers ==> old(peers[id].tunnel).closed
      ensures !ok ==> M.Interrupted(old(Value()), Value(), latest)
    {
      hide M.Routes, M.Updated, M.Parses, M.PartlyClosed, Merging, TableOf, R.Router.Installed, R.Router.Valid, Separate, Records;
      ghost var n := Value();
      ok := Replace(merged, latest);
      if ok {
        label replaced:
        router.Set(routes);
        SameTable@replaced(n.peers, latest);
        UpdatedByValue(n, latest);
      }
    }

    /** Setting the routes leaves the table alone. */
    twostate lemma SameTable(new records: map<PeerID, P.Record>, latest: seq<P.Info>)
      requires old(TableOf(peers, records, latest) && Separate(peers)) && unchanged(this)
      requires forall id :: id in peers ==> unchanged(peers[id]) && (peers[id].tunnel != null ==> unchanged(peers[id].tunnel))
      ensures TableOf(peers, records, latest) && Separate(peers)
    {
    }

    /** Every peer that the list drops has a tunnel. */
    ghost predicate CanDrop(latest: seq<P.Info>)
      reads this, peers.Values
    {
      forall id :: id in peers && !M.Listed(latest, id) ==> peers[id].tunnel != null
    }

    /** What happens under the lock. */
    method UpdateLocked(latest: seq<P.Info>) returns (r: Outcome)
      requires Valid()
      modifies `peers, `index, router, TunnelsOf(peers)
      ensures Valid()
      ensures r == if !M.Parses(local, latest) then Unparsable else if old(CanDrop(latest)) then Done else Panicked
      ensures r.Done? ==> M.Updated(local, old(Value()), latest, Value())
      ensures r.Done? ==> forall id :: id in old(peers) && id !in peers ==> old(peers[id].tunnel) != null && old(peers[id].tunnel).closed
      ensures r.Unparsable? ==> Value() == old(Value())
      ensures r.Panicked? ==> M.Interrupted(old(Value()), Value(), latest)
    {
      hide M.Routes, M.Updated, M.Listed, M.LastInfo, M.Parses, P.NewRecord, M.Interrupted,
           R.Router.Installed, R.Router.Valid, Separate, IdsOf, Merging, Records;
      var merged, routes, parsed := MergeLatest(latest);
      if !parsed {
        return Unparsable;
      }
      var ok := Install(merged, routes, latest);
      r := if ok then Done else Panicked;
    }

    /** Taking or releasing the lock changes nothing else. */
    twostate lemma LockOnly()
      requires old(Valid()) && peers == old(peers) && index == old(index) && endpoints == old(endpoints) && unchanged(router)
      requires forall id :: id in peers ==> unchanged(peers[id]) && (peers[id].tunnel != null ==> unchanged(peers[id].tunnel))
      ensures Valid() && Value() == old(Value())
    {
      hide R.Router.Valid, R.Router.Installed;
    }

    /** Update fails exactly on an address that does not parse, with nothing changed, and on a dropped
        peer without a tunnel, with at most some dropped tunnels closed; both leave the lock held. */
    method Update(latest: seq<P.Info>) returns (r: Outcome)
      requires Valid() && !locked
      modifies this, router, TunnelsOf(peers)
      ensures Valid() && locked == !r.Done?
      ensures r == if !M.Parses(local, latest) then Unparsable else if old(CanDrop(latest)) then Done else Panicked
      ensures r.Done? ==> M.Updated(local, old(Value()), latest, Value())
      ensures r.Done? ==> forall id :: id in old(peers) && id !in peers ==> old(peers[id].tunnel) != null && old(peers[id].tunnel).closed
      ensures r.Unparsable? ==> Value() == old(Value())
      ensures r.Panicked? ==> M.Interrupted(old(Value()), Value(), latest)
    {
      hide M.Updated, M.Listed, M.Parses, M.Interrupted, R.Router.Installed, R.Router.Valid, Separate, IdsOf, Records;
      locked := true;
      LockOnly();
      r := UpdateLocked(latest);
      label updated:
      if r.Done? {
        locked := false;
        LockOnly@updated();
      }
    }

    lemma UpdatedByValue(n: M.Node, latest: seq<P.Info>)
      requires Valid() && M.Parses(local, latest) && endpoints == n.endpoints
      requires router.Installed() == M.Routes(local, latest)
      requires TableOf(peers, n.peers, latest) && Indexed()
      ensures M.Updated(local, n, latest, Value())
    {
      hide M.Routes, M.MergePeers, M.IndexFor, M.Listed, M.LastInfo, M.Parses, P.NewRecord, R.Router.Installed, R.Router.Valid;
      RecordsMerged(peers, n.peers, latest);
      IndexByValue(peers, index);
    }

    // ---- catch-ups ----

    /** A new tunnel for a tabled peer, whose previous one is closed. */
    method SetUpTunnel(p: P.Peer, publicKey: nat, now: int)
      requires Valid() && p in peers.Values
      modifies p, p.tunnel
      ensures Valid() && fresh(p.tunnel)
      ensures Records(peers) == old(Records(peers))[p.info.id := M.WithTunnel(local, endpoints, old(p.Value()), publicKey, now)]
      ensures old(p.tunnel) != null ==> old(p.tunnel).closed
    {
      hide R.Router.Valid;
      var link := T.Link(local.suite, local.id, p.info.id, local.suite.dh(local.secret, publicKey));
      var t := new T.Tunnel(link);
      p.SetTunnel(t);
      p.SetCatchupAt(now);
      if endpoints.Some? {
        t.SetLocalEndpoints(endpoints.value);
      }
      assert p.Value() == M.WithTunnel(local, endpoints, old(p.Value()), publicKey, now);
      OthersUnchanged(p);
    }

    /** Tables and indexes an unknown peer, which counts as probed. */
    method Discover(info: P.Info, now: int) returns (p: P.Peer)
      requires Valid() && info.id !in peers
      modifies `peers, `index
      ensures Valid() && fresh(p) && p.tunnel == null && p.info == info
      ensures peers == old(peers)[info.id := p] && IdsOf(index) == IdsOf(old(index))[info.ipv4 := info.id]
      ensures Records(peers) == old(Records(peers))[info.id := M.Discovered(info, now)]
    {
      hide R.Router.Valid, IdsOf;
      p := new P.Peer(info);
      IdsGrow(index, info.ipv4, p);
      ValuesGrow(peers, index, info.id, info.ipv4, p);
      peers := peers[info.id := p];
      index := index[info.ipv4 := p];
      p.SetProbeStatus(true, now);
      RecordAdded(info.id, p);
    }

    twostate lemma RecordAdded(id: PeerID, new p: P.Peer)
      requires old(Valid()) && id !in old(peers) && peers == old(peers)[id := p] && fresh(p) && p.tunnel == null && p.info.id == id
      requires forall k :: k in old(peers) ==> unchanged(old(peers)[k])
      requires forall k :: k in old(peers) && old(peers)[k].tunnel != null ==> unchanged(old(peers)[k].tunnel)
      ensures Separate(peers) && Records(peers) == old(Records(peers))[id := p.Value()]
    {
      hide R.Router.Valid;
    }

    method CatchupKnown(info: P.Info, publicKey: nat, now: int, exchanged: bool)
      requires Valid() && info.id in peers
      modifies peers.Values, TunnelsOf(peers)
      ensures Valid() && Value() == M.CaughtUp(local, old(Value()), info, publicKey, now, exchanged)
    {
      hide R.Router.Valid, M.WithTunnel, M.Discovered;
      if exchanged {
        assert peers[info.id] in peers.Values;
        SetUpTunnel(peers[info.id], publicKey, now);
      } else {
        assert Value() == old(Value());
      }
    }

    method Introduce(info: P.Info, publicKey: nat, now: int)
      requires Valid() && info.id !in peers
      modifies `peers, `index
      ensures Valid() && IdsOf(index) == IdsOf(old(index))[info.ipv4 := info.id]
      ensures Records(peers) ==
              old(Records(peers))[info.id := M.WithTunnel(local, endpoints, M.Discovered(info, now), publicKey, now)]
    {
      hide R.Router.Valid, M.WithTunnel, M.Discovered, Separate, IdsOf;
      var p := Discover(info, now);
      assert peers[info.id] == p;
      SetUpTunnel(p, publicKey, now);
    }

    method AddRoute(prefix: R.Prefix)
      requires Valid()
      modifies router
      ensures Valid() && Value() == old(Value()).(installed := old(Value().installed) + {prefix})
    {
      hide R.Router.Valid, R.Router.Installed, Separate, Records, IdsOf;
      router.Add([prefix]);
      RoutesOnly();
    }

    /** The route is added only after the key exchange. */
    method CatchupUnknown(info: P.Info, prefix: R.Prefix, publicKey: nat, now: int, exchanged: bool)
      requires Valid() && info.id !in peers && local.parse(info.ipv4) == Some(prefix)
      modifies `peers, `index, router
      ensures Valid() && Value() == M.CaughtUp(local, old(Value()), info, publicKey, now, exchanged)
    {
      hide R.Router.Valid, M.WithTunnel, M.Discovered, Separate, R.Router.Installed, Records, IdsOf, Valid;
      if exchanged {
        Introduce(info, publicKey, now);
        AddRoute(prefix);
      } else {
        var p := Discover(info, now);
      }
    }

    twostate lemma RoutesOnly()
      requires old(Separate(peers)) && unchanged(this)
      requires forall id :: id in peers ==> unchanged(peers[id]) && (peers[id].tunnel != null ==> unchanged(peers[id].tunnel))
      ensures Separate(peers) && Records(peers) == old(Records(peers))
    {
    }

    /** An address that does not parse leaves the lock held; a failed key exchange leaves the peer tabled.
        The acknowledgement needs a client for the peer's server that accepts it; only a refusal fails. */
    method PeerCatchup(info: P.Info, publicKey: nat, now: int, exchanged: bool, client: bool, accepted: bool)
      returns (ok: bool, sent: seq<M.SyncPeer>)
      requires Valid() && !locked
      modifies this, router, peers.Values, TunnelsOf(peers)
      ensures Valid()
      ensures locked <==> info.id !in old(peers) && local.parse(info.ipv4).None?
      ensures locked ==> Value() == old(Value())
      ensures !locked ==> Value() == M.CaughtUp(local, old(Value()), info, publicKey, now, exchanged)
      ensures ok <==> !locked && exchanged && (client ==> accepted)
      ensures sent == if !locked && exchanged && client && accepted then [M.AckTo(local, info.id)] else []
    {
      hide R.Router.Valid, R.Router.Installed, M.CaughtUp, Separate;
      ok, sent := false, [];
      if info.id in peers {
        CatchupKnown(info, publicKey, now, exchanged);
      } else {
        var addr := local.parse(info.ipv4);
        if addr.None? {
          locked := true;
          assert Value() == old(Value());
          return;
        }
        CatchupUnknown(info, addr.value, publicKey, now, exchanged);
      }
      if !exchanged {
        return;
      }
      if client && accepted {
        sent := [M.AckTo(local, info.id)];
      }
      ok := client ==> accepted;
    }

    method PeerCatchupAck(id: PeerID, publicKey: nat, now: int, exchanged: bool)
      requires Valid() && !locked
      modifies peers.Values, TunnelsOf(peers)
      ensures Valid() && Value() == M.Acked(local, old(Value()), id, publicKey, now, exchanged)
    {
      hide R.Router.Valid, M.WithTunnel;
      if id !in peers || !exchanged {
        assert Value() == old(Value());
        return;
      }
      assert peers[id] in peers.Values;
      SetUpTunnel(peers[id], publicKey, now);
    }

    twostate lemma OthersUnchanged(new p: P.Peer)
      requires old(Valid()) && unchanged(this) && p in peers.Values && fresh(p.tunnel)
      requires forall id :: id in peers && peers[id] != p ==> unchanged(peers[id])
      requires forall id :: id in peers && peers[id] != p && peers[id].tunnel != null && peers[id].tunnel != old(p.tunnel)
                 ==> unchanged(peers[id].tunnel)
      ensures Separate(peers)
      ensures Records(peers) == old(Records(peers))[p.info.id := p.Value()]
    {
    }

    // ---- endpoints ----

    /** Hands the endpoints to every tunnel; `notify` are the discovered ones. */
    method ShareEndpoints(latest: seq<string>) returns (notify: set<PeerID>)
      requires Valid()
      modifies TunnelsOf(peers)
      ensures Valid() && Records(peers) == M.SetEndpoints(old(Records(peers)), latest)
      ensures forall id :: id in notify <==> id in peers && peers[id].tunnel != null && peers[id].tunnel.disco
    {
      hide R.Router.Valid;
      notify := {};
      var todo := peers.Keys;
      while todo != {}
        invariant todo <= peers.Keys && Separate(peers)
        invariant forall id :: id in peers ==>
                    peers[id].Value() == if id in todo then old(peers[id].Value()) else M.WithEndpoints(old(peers[id].Value()), latest)
        invariant forall id :: id in notify <==> id in peers && id !in todo && peers[id].tunnel != null && peers[id].tunnel.disco
        decreases todo
      {
        var id :| id in todo;
        todo := todo - {id};
        var t := peers[id].tunnel;
        if t != null {
          t.SetLocalEndpoints(latest);
          if t.disco {
            notify := notify + {id};
          }
        }
      }
    }

    method SyncEndpoints(latest: seq<string>) returns (notify: set<PeerID>)
      requires Valid() && !locked
      modifies `endpoints, TunnelsOf(peers)
      ensures Valid() && Value() == M.EndpointsSynced(old(Value()), latest)
      ensures forall id :: id in notify <==>
                Value() != old(Value()) && id in peers && peers[id].tunnel != null && peers[id].tunnel.disco
    {
      hide R.Router.Valid, R.Router.Installed, Separate, M.SetEndpoints, Records, M.SortStrings;
      var sorted := M.SortStrings(latest);
      if endpoints.Some? && |endpoints.value| == |sorted| {
        var cached := endpoints.value;
        var noChanged := true;
        for i := 0 to |cached|
          modifies {}
          invariant noChanged <==> cached[..i] == sorted[..i]
        {
          if cached[i] != sorted[i] {
            noChanged := false;
          }
          assert cached[..i + 1] == cached[..i] + [cached[i]] && sorted[..i + 1] == sorted[..i] + [sorted[i]];
        }
        assert cached[..|cached|] == cached && sorted[..|cached|] == sorted;
        if noChanged {
          return {};
        }
      }
      endpoints := Some(sorted);
      notify := ShareEndpoints(sorted);
    }

    // ---- probing ----

    method MarkOne(id: PeerID, online: bool, at: int)
      requires Valid() && id in peers
      modifies peers[id]
      ensures Valid()
      ensures var r := old(Records(peers))[id];
              Records(peers) == old(Records(peers))[id := r.(probe := r.probe.(online := online, lastResponseAt := at))]
    {
      hide R.Router.Valid;
      peers[id].SetProbeStatus(online, at);
    }

    method SendOne(id: PeerID, at: int)
      requires Valid() && id in peers
      modifies peers[id]
      ensures Valid()
      ensures var r := old(Records(peers))[id];
              Records(peers) == old(Records(peers))[id := r.(catchup := P.CatchupSent(r.catchup, at))]
    {
      hide R.Router.Valid;
      peers[id].SetLastSendCatchupAt(at);
    }

    method NoteOnline(online: seq<M.Entry>, at: int) returns (candidates: seq<nat>)
      requires Valid()
      modifies peers.Values
      ensures Valid() && Records(peers) == M.Mark(old(Records(peers)), M.EntryIds(online), true, at)
      ensures candidates == M.Candidates(old(Records(peers)), online)
    {
      hide R.Router.Valid, Separate, Records, P.NeedsCatchup;
      ghost var records, ids := Records(peers), M.EntryIds(online);
      candidates := [];
      for i := 0 to |online|
        invariant Valid()
        invariant Records(peers) == M.Mark(records, ids[..i], true, at)
        invariant candidates == M.Candidates(records, online[..i])
      {
        assert ids[..i + 1][..i] == ids[..i] && ids[..i + 1][i] == online[i].id;
        assert online[..i + 1][..i] == online[..i];
        M.MarkKeys(records, ids[..i], true, at);
        var id := online[i].id;
        if id in peers {
          assert peers[id].catchup == records[id].catchup;
          MarkOne(id, true, at);
          assert peers[id].catchup == records[id].catchup;
          if peers[id].IsNeedCatchup(online[i].checkedAt) {
            candidates := candidates + [i];
          }
        }
      }
      assert ids[..|online|] == ids && online[..|online|] == online;
    }

    method NoteOffline(offline: seq<PeerID>, at: int)
      requires Valid()
      modifies peers.Values
      ensures Valid() && Records(peers) == M.Mark(old(Records(peers)), offline, false, at)
    {
      hide R.Router.Valid, Separate, Records;
      ghost var records := Records(peers);
      for i := 0 to |offline|
        invariant Valid()
        invariant Records(peers) == M.Mark(records, offline[..i], false, at)
      {
        assert offline[..i + 1][..i] == offline[..i];
        M.MarkKeys(records, offline[..i], false, at);
        if offline[i] in peers {
          MarkOne(offline[i], false, at);
        }
      }
      assert offline[..|offline|] == offline;
    }

    method SendCatchups(online: seq<M.Entry>, candidates: seq<nat>, server: nat) returns (sent: seq<M.SyncPeer>)
      requires Valid()
      requires forall i :: 0 <= i < |candidates| ==> candidates[i] < |online| && online[candidates[i]].id in peers
      modifies peers.Values
      ensures Valid() && Records(peers) == M.SendAll(old(Records(peers)), online, candidates)
      ensures sent == M.SentBy(local, server, online, candidates)
    {
      hide R.Router.Valid, Separate, Records;
      ghost var records := Records(peers);
      sent := [];
      for i := 0 to |candidates|
        invariant Valid()
        invariant Records(peers) == M.SendAll(records, online, candidates[..i])
        invariant sent == M.SentBy(local, server, online, candidates[..i])
      {
        assert candidates[..i + 1][..i] == candidates[..i];
        var e := online[candidates[i]];
        if e.sent {
          SendOne(e.id, e.sentAt);
          sent := sent + [M.CatchupTo(local, server, e.id)];
        }
      }
      assert candidates[..|candidates|] == candidates;
    }

    /** `primary` is the primary relay server, if it is connected. */
    method ProbeResult(online: seq<M.Entry>, offline: seq<PeerID>, at: int, primary: Option<nat>) returns (sent: seq<M.SyncPeer>)
      requires Valid() && !locked
      modifies peers.Values
      ensures Valid() && Value() == M.Probed(old(Value()), online, offline, at, primary.Some?)
      ensures sent == M.CatchupsSent(local, old(Value()), online, primary)
    {
      hide R.Router.Valid, R.Router.Installed, Separate, Records, M.Mark, M.Candidates;
      var candidates := NoteOnline(online, at);
      NoteOffline(offline, at);
      sent := [];
      if candidates == [] {
        return;
      }
      if primary.None? {
        return;
      }
      sent := SendCatchups(online, candidates, primary.value);
    }

    /** A remote peer not probed within ten minutes. */
    ghost predicate Due(id: PeerID, now: int)
      reads this, peers.Values
    {
      id in peers && id != local.id && now - peers[id].probe.lastRequestAt > 600_000_000_000
    }

    /** Exactly the peers of server `s` that are due and already visited, once each. */
    ghost predicate GroupFor(s: nat, ids: seq<PeerID>, todo: set<PeerID>, now: int)
      reads this, peers.Values
    {
      && Distinct(ids)
      && (forall id :: id in ids <==> Due(id, now) && id !in todo && peers[id].info.serverID == s)
    }

    /** The probe requests, grouped by relay server: every remote peer that is due, in the group of its
        own server, once. */
    method ProbeGroups(now: int) returns (groups: map<nat, seq<PeerID>>)
      requires Valid()
      ensures forall s :: s in groups ==> GroupFor(s, groups[s], {}, now)
      ensures forall id :: Due(id, now) ==> peers[id].info.serverID in groups
    {
      hide R.Router.Valid, Separate, Distinct;
      groups := map[];
      var todo := peers.Keys;
      while todo != {}
        invariant todo <= peers.Keys
        invariant forall s :: s in groups ==> GroupFor(s, groups[s], todo, now)
        invariant forall id :: Due(id, now) && id !in todo ==> peers[id].info.serverID in groups
        decreases todo
      {
        var id :| id in todo;
        P.SinceExceeds(now, peers[id].probe.lastRequestAt, 600_000_000_000);
        if id != local.id && peers[id].IsNeedProbe(now) {
          var s := peers[id].info.serverID;
          var group := if s in groups then groups[s] else [];
          GroupGrows(s, group, id, todo, now);
          groups := groups[s := group + [id]];
        }
        todo := todo - {id};
      }
    }

    lemma GroupGrows(s: nat, group: seq<PeerID>, id: PeerID, todo: set<PeerID>, now: int)
      requires GroupFor(s, group, todo, now) && Due(id, now) && id in todo && peers[id].info.serverID == s
      ensures GroupFor(s, group + [id], todo - {id}, now)
    {
    }
  }

  lemma RecordsMerged(peers: map<PeerID, P.Peer>, records: map<PeerID, P.Record>, latest: seq<P.Info>)
    requires forall id :: id in peers <==> M.Listed(latest, id)
    requires forall id :: id in peers ==>
               peers[id].Value() == if id in records then records[id] else P.NewRecord(M.LastInfo(latest, id))
    ensures Records(peers) == M.MergePeers(records, latest)
  {
    hide M.Listed, M.LastInfo, P.NewRecord, M.MergePeers;
    M.MergedKeys(records, latest);
    forall id | id in peers ensures Records(peers)[id] == M.MergePeers(records, latest)[id] {
      M.MergedAt(records, latest, id);
    }
  }

  lemma IndexByValue(peers: map<PeerID, P.Peer>, index: map<string, P.Peer>)
    requires Separate(peers) && index.Values <= peers.Values
    requires forall a :: a in index ==> index[a].info.ipv4 == a
    requires forall id :: id in peers ==> peers[id].info.ipv4 in index
    ensures M.IndexFor(Records(peers), IdsOf(index))
  {
    forall a | a in index
      ensures index[a].info.id in peers && peers[index[a].info.id].info.ipv4 == a
    {
      assert index[a] in peers.Values;
    }
  }
}
