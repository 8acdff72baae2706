/** Merging the networks a peer announces into the stored ones. The source holds pointers to the
    elements of a slice while it appends to that slice, so an append that reallocates detaches them;
    slots are objects here, and an append beyond the capacity copies every slot. */
module Topology {
  import opened Bytes

  type PeerID = uint64
  type NetworkID = uint64

  datatype Network = Network(id: NetworkID, name: string, peers: seq<PeerID>)
  datatype Announced = Announced(id: NetworkID, name: string)

  // ---- the merge, on values ----

  /** The last network with the given id, as the pointer map keeps it. */
  ghost function IndexOf(nets: seq<Network>, id: NetworkID): (i: int)
    ensures -1 <= i < |nets|
    ensures i >= 0 ==> nets[i].id == id && forall j :: i < j < |nets| ==> nets[j].id != id
    ensures i < 0 ==> forall j :: 0 <= j < |nets| ==> nets[j].id != id
  {
    if nets == [] then -1
    else if nets[|nets| - 1].id == id then |nets| - 1
    else IndexOf(nets[..|nets| - 1], id)
  }

  lemma IndexOfNext(nets: seq<Network>, k: nat, id: NetworkID)
    requires k < |nets|
    ensures IndexOf(nets[..k + 1], id) == if nets[k].id == id then k else IndexOf(nets[..k], id)
  {
    var upto := nets[..k + 1];
    assert upto[..k] == nets[..k] && upto[k] == nets[k];
  }

  ghost function AddPeer(n: Network, peer: PeerID): Network {
    if peer in n.peers then n else n.(peers := n.peers + [peer])
  }

  ghost function RemoveFirst(peers: seq<PeerID>, peer: PeerID): seq<PeerID> {
    if peers == [] then []
    else if peers[0] == peer then peers[1..]
    else [peers[0]] + RemoveFirst(peers[1..], peer)
  }

  /** `spare` slots are left before an append reallocates; `attached` while none has. */
  datatype Merge = Merge(nets: seq<Network>, spare: nat, attached: bool)

  ghost function JoinOne(stored: seq<Network>, m: Merge, a: Announced, peer: PeerID, growth: nat): Merge
    requires |stored| <= |m.nets|
  {
    var i := IndexOf(stored, a.id);
    if i >= 0 then
      if m.attached then m.(nets := m.nets[i := AddPeer(m.nets[i], peer)]) else m
    else if m.spare > 0 then m.(nets := m.nets + [Network(a.id, a.name, [peer])], spare := m.spare - 1)
    else Merge(m.nets + [Network(a.id, a.name, [peer])], growth, false)
  }

  ghost function Join(stored: seq<Network>, announced: seq<Announced>, peer: PeerID, spare: nat, growth: nat): (m: Merge)
    ensures |stored| <= |m.nets|
  {
    if announced == [] then Merge(stored, spare, true)
    else
      var n := |announced| - 1;
      JoinOne(stored, Join(stored, announced[..n], peer, spare, growth), announced[n], peer, growth)
  }

  ghost function Ids(announced: seq<Announced>): set<NetworkID> {
    set i | 0 <= i < |announced| :: announced[i].id
  }

  ghost function Leave(n: Network, ids: set<NetworkID>, peer: PeerID): Network {
    if n.id in ids then n else n.(peers := RemoveFirst(n.peers, peer))
  }

  ghost function LeaveAll(nets: seq<Network>, ids: set<NetworkID>, peer: PeerID): seq<Network> {
    seq(|nets|, i requires 0 <= i < |nets| => Leave(nets[i], ids, peer))
  }

  ghost function Merged(stored: seq<Network>, announced: seq<Announced>, peer: PeerID, spare: nat, growth: nat): seq<Network> {
    LeaveAll(Join(stored, announced, peer, spare, growth).nets, Ids(announced), peer)
  }

  // ---- the objects ----

  class Slot {
    var net: Network

    constructor (net: Network)
      ensures this.net == net
    {
      this.net := net;
    }
  }

  ghost function Nets(slots: seq<Slot>): (nets: seq<Network>)
    reads slots
    ensures |nets| == |slots| && forall i :: 0 <= i < |slots| ==> nets[i] == slots[i].net
  {
    seq(|slots|, i requires 0 <= i < |slots| reads slots => slots[i].net)
  }

  /** The whole slice moves: every element is copied to a new slot. */
  method Reallocate(slots: seq<Slot>) returns (moved: seq<Slot>)
    ensures Distinct(moved) && (forall s :: s in moved ==> fresh(s))
    ensures Nets(moved) == Nets(slots)
  {
    moved := [];
    for i := 0 to |slots|
      invariant |moved| == i && Distinct(moved)
      invariant forall k :: 0 <= k < i ==> fresh(moved[k]) && moved[k].net == slots[k].net
    {
      var s := new Slot(slots[i].net);
      moved := moved + [s];
    }
  }

  method Contains(peers: seq<PeerID>, peer: PeerID) returns (found: bool)
    ensures found <==> peer in peers
  {
    found := false;
    for i := 0 to |peers|
      invariant !found ==> peer !in peers[..i]
    {
      if peers[i] == peer {
        return true;
      }
    }
  }

  method Remove(peers: seq<PeerID>, peer: PeerID) returns (left: seq<PeerID>)
    ensures left == RemoveFirst(peers, peer)
  {
    var removeIndex := -1;
    var i := 0;
    while i < |peers| && removeIndex < 0
      invariant 0 <= i <= |peers|
      invariant removeIndex < 0 ==> peer !in peers[..i]
      invariant removeIndex >= 0 ==> removeIndex < |peers| && peers[removeIndex] == peer && peer !in peers[..removeIndex]
      decreases |peers| - i
    {
      if peers[i] == peer {
        removeIndex := i;
      }
      i := i + 1;
    }
    if removeIndex >= 0 {
      RemoveAt(peers, peer, removeIndex);
      left := peers[..removeIndex] + peers[removeIndex + 1..];
    } else {
      RemoveAbsent(peers, peer);
      left := peers;
    }
  }

  method AddTo(exist: Slot, peer: PeerID)
    modifies exist
    ensures exist.net == AddPeer(old(exist.net), peer)
  {
    var peerFound := Contains(exist.net.peers, peer);
    if !peerFound {
      exist.net := exist.net.(peers := exist.net.peers + [peer]);
    }
  }

  /** Appends one element; beyond the capacity the whole slice moves and gets `growth` spare slots. */
  method Append(slots: seq<Slot>, spare: nat, net: Network, growth: nat) returns (longer: seq<Slot>, left: nat)
    requires Distinct(slots)
    ensures Nets(longer) == Nets(slots) + [net] && Distinct(longer)
    ensures spare > 0 ==> left == spare - 1 && slots <= longer
    ensures spare == 0 ==> left == growth && forall s :: s in longer ==> fresh(s)
    ensures forall s :: s in longer ==> s in slots || fresh(s)
  {
    longer, left := slots, spare;
    if left > 0 {
      left := left - 1;
    } else {
      longer := Reallocate(longer);
      left := growth;
    }
    var s := new Slot(net);
    longer := longer + [s];
  }

  class Networks {
    var networks: seq<Slot>
    var spare: nat

    ghost predicate Valid()
      reads this
    {
      Distinct(networks)
    }

    ghost function Value(): seq<Network>
      reads this, networks
    {
      Nets(networks)
    }

    /** The slots being built still start with the stored slots, or have moved away from them. */
    ghost predicate Linked(slots: seq<Slot>, attached: bool)
      reads this
    {
      Distinct(slots) && (if attached then networks <= slots else forall s :: s in slots ==> s !in networks)
    }

    /** One announced network. */
    method JoinSlot(byID: map<NetworkID, Slot>, slots: seq<Slot>, spare: nat, a: Announced, peer: PeerID, growth: nat,
                    ghost stored: seq<Network>, ghost attached: bool)
      returns (next: seq<Slot>, left: nat, ghost still: bool)
      requires Valid() && Linked(slots, attached) && |stored| == |networks| <= |slots|
      requires a.id in byID <==> IndexOf(stored, a.id) >= 0
      requires a.id in byID ==> byID[a.id] == networks[IndexOf(stored, a.id)]
      modifies networks
      ensures Linked(next, still) && |stored| <= |next|
      ensures Merge(Nets(next), left, still) == JoinOne(stored, Merge(old(Nets(slots)), spare, attached), a, peer, growth)
      ensures forall s :: s in next ==> s in slots || fresh(s)
    {
      hide IndexOf, AddPeer;
      ghost var before, i := Nets(slots), IndexOf(stored, a.id);
      if a.id in byID {
        var exist := byID[a.id];
        AddTo(exist, peer);
        next, left, still := slots, spare, attached;
        if attached {
          assert slots[i] == exist;
          assert Nets(slots) == before[i := AddPeer(before[i], peer)];
        } else {
          assert exist in networks;
          assert Nets(slots) == before;
        }
      } else {
        still := attached && spare > 0;
        next, left := Append(slots, spare, Network(a.id, a.name, [peer]), growth);
      }
    }

    /** First pass: add the peer to the announced networks it is not in, append the unknown ones. */
    method JoinAnnounced(peer: PeerID, announced: seq<Announced>, growth: nat) returns (slots: seq<Slot>, left: nat)
      requires Valid()
      modifies networks
      ensures var m := Join(old(Value()), announced, peer, old(spare), growth);
              Nets(slots) == m.nets && left == m.spare
      ensures Distinct(slots) && forall s :: s in slots ==> s in networks || fresh(s)
    {
      hide IndexOf, JoinOne;
      ghost var stored := Value();
      var byID := Pointers();
      slots, left := networks, spare;
      ghost var attached := true;
      for k := 0 to |announced|
        invariant Join(stored, announced[..k], peer, old(spare), growth) == Merge(Nets(slots), left, attached)
        invariant Linked(slots, attached) && forall s :: s in slots ==> s in networks || fresh(s)
      {
        assert announced[..k + 1][..k] == announced[..k];
        slots, left, attached := JoinSlot(byID, slots, left, announced[k], peer, growth, stored, attached);
      }
      assert announced[..|announced|] == announced;
    }

    method Pointers() returns (byID: map<NetworkID, Slot>)
      ensures forall id :: id in byID <==> IndexOf(Value(), id) >= 0
      ensures forall id :: id in byID ==> byID[id] == networks[IndexOf(Value(), id)]
    {
      hide IndexOf;
      byID := map[];
      ghost var nets := Value();
      for k := 0 to |networks|
        invariant forall id :: id in byID <==> IndexOf(nets[..k], id) >= 0
        invariant forall id :: id in byID ==> byID[id] == networks[IndexOf(nets[..k], id)]
      {
        forall id {
          IndexOfNext(nets, k, id);
        }
        byID := byID[networks[k].net.id := networks[k]];
      }
      assert nets[..|networks|] == nets;
    }

    method Update(peer: PeerID, announced: seq<Announced>, growth: nat)
      requires Valid()
      modifies this, networks
      ensures Valid()
      ensures Value() == Merged(old(Value()), announced, peer, old(spare), growth)
      ensures spare == Join(old(Value()), announced, peer, old(spare), growth).spare
    {
      var slots, left := JoinAnnounced(peer, announced, growth);
      ghost var joined := Nets(slots);
      var peerNwkSet := set i | 0 <= i < |announced| :: announced[i].id;
      for k := 0 to |slots|
        invariant networks == old(networks)
        invariant forall i :: 0 <= i < k ==> slots[i].net == Leave(joined[i], peerNwkSet, peer)
        invariant forall i :: k <= i < |slots| ==> slots[i].net == joined[i]
      {
        if slots[k].net.id !in peerNwkSet {
          assert slots[k] in slots;
          var newPeers := Remove(slots[k].net.peers, peer);
          slots[k].net := slots[k].net.(peers := newPeers);
        }
      }
      networks, spare := slots, left;
      assert Value() == LeaveAll(joined, peerNwkSet, peer);
    }
  }

  lemma {:induction false} RemoveAt(peers: seq<PeerID>, peer: PeerID, i: nat)
    requires i < |peers| && peers[i] == peer && peer !in peers[..i]
    ensures RemoveFirst(peers, peer) == peers[..i] + peers[i + 1..]
  {
    if i > 0 {
      assert peers[0] in peers[..i];
      assert peers[1..][..i - 1] == peers[..i][1..];
      RemoveAt(peers[1..], peer, i - 1);
      assert peers[..i] == [peers[0]] + peers[1..][..i - 1];
    }
  }

  lemma {:induction false} RemoveAbsent(peers: seq<PeerID>, peer: PeerID)
    requires peer !in peers
    ensures RemoveFirst(peers, peer) == peers
  {
    if peers != [] {
      RemoveAbsent(peers[1..], peer);
    }
  }

  // ---- what the merge achieves ----

  ghost predicate DistinctIds(nets: seq<Network>) {
    forall i, j :: 0 <= i < j < |nets| ==> nets[i].id != nets[j].id
  }

  ghost predicate DistinctAnnounced(announced: seq<Announced>) {
    forall i, j :: 0 <= i < j < |announced| ==> announced[i].id != announced[j].id
  }

  ghost predicate WellKept(nets: seq<Network>) {
    DistinctIds(nets) && forall i :: 0 <= i < |nets| ==> Distinct(nets[i].peers)
  }

  ghost predicate Known(stored: seq<Network>, id: NetworkID) {
    exists i :: 0 <= i < |stored| && stored[i].id == id
  }

  /** The networks to append, in the announced order. */
  ghost function Unknown(stored: seq<Network>, announced: seq<Announced>, peer: PeerID): seq<Network> {
    if announced == [] then []
    else
      var a := announced[|announced| - 1];
      Unknown(stored, announced[..|announced| - 1], peer)
      + (if IndexOf(stored, a.id) < 0 then [Network(a.id, a.name, [peer])] else [])
  }

  /** An announcement of the network that still finds its pointer attached. */
  ghost predicate Reaches(stored: seq<Network>, announced: seq<Announced>, spare: nat, id: NetworkID, j: nat) {
    j < |announced| && announced[j].id == id && |Unknown(stored, announced[..j], 0)| <= spare
  }

  ghost predicate Reached(stored: seq<Network>, announced: seq<Announced>, spare: nat, id: NetworkID) {
    exists j: nat :: Reaches(stored, announced, spare, id, j)
  }

  lemma {:induction false} UnknownLength(stored: seq<Network>, announced: seq<Announced>, p: PeerID, q: PeerID)
    ensures |Unknown(stored, announced, p)| == |Unknown(stored, announced, q)|
  {
    if announced != [] {
      UnknownLength(stored, announced[..|announced| - 1], p, q);
    }
  }

  lemma ReachedSnoc(stored: seq<Network>, announced: seq<Announced>, a: Announced, spare: nat, id: NetworkID)
    ensures Reached(stored, announced + [a], spare, id) <==>
            Reached(stored, announced, spare, id) || (a.id == id && |Unknown(stored, announced, 0)| <= spare)
  {
    hide Unknown;
    var all := announced + [a];
    assert all[..|announced|] == announced;
    if Reached(stored, all, spare, id) {
      var j: nat :| Reaches(stored, all, spare, id, j);
      if j < |announced| {
        assert all[..j] == announced[..j];
        assert Reaches(stored, announced, spare, id, j);
      }
    }
    if Reached(stored, announced, spare, id) {
      var j: nat :| Reaches(stored, announced, spare, id, j);
      assert all[..j] == announced[..j];
      assert Reaches(stored, all, spare, id, j);
    }
    if a.id == id && |Unknown(stored, announced, 0)| <= spare {
      assert Reaches(stored, all, spare, id, |announced|);
    }
  }

  ghost predicate Shape(stored: seq<Network>, announced: seq<Announced>, peer: PeerID, spare: nat, m: Merge) {
    && |stored| <= |m.nets| && m.nets[|stored|..] == Unknown(stored, announced, peer)
    && (m.attached <==> |Unknown(stored, announced, peer)| <= spare)
    && (m.attached ==> m.spare == spare - |Unknown(stored, announced, peer)|)
    && (forall i :: 0 <= i < |stored| ==>
          m.nets[i] == if Reached(stored, announced, spare, stored[i].id) then AddPeer(stored[i], peer) else stored[i])
  }

  lemma ShapeKnown(stored: seq<Network>, announced: seq<Announced>, a: Announced, peer: PeerID, spare: nat, growth: nat, m: Merge)
    requires DistinctIds(stored) && |stored| <= |m.nets| && Shape(stored, announced, peer, spare, m)
    requires IndexOf(stored, a.id) >= 0
    ensures Shape(stored, announced + [a], peer, spare, JoinOne(stored, m, a, peer, growth))
  {
    hide Reached, IndexOf, AddPeer, DistinctIds;
    var all := announced + [a];
    assert all[..|announced|] == announced;
    var m' := JoinOne(stored, m, a, peer, growth);
    var k := IndexOf(stored, a.id);
    UnknownLength(stored, announced, peer, 0);
    assert m'.nets[|stored|..] == m.nets[|stored|..];
    forall i | 0 <= i < |stored|
      ensures m'.nets[i] == if Reached(stored, all, spare, stored[i].id) then AddPeer(stored[i], peer) else stored[i]
    {
      ReachedSnoc(stored, announced, a, spare, stored[i].id);
      AddTwice(stored[i], peer);
      OnlyIndexed(stored, a.id, i);
    }
  }

  lemma ShapeUnknown(stored: seq<Network>, announced: seq<Announced>, a: Announced, peer: PeerID, spare: nat, growth: nat, m: Merge)
    requires |stored| <= |m.nets| && Shape(stored, announced, peer, spare, m)
    requires IndexOf(stored, a.id) < 0
    ensures Shape(stored, announced + [a], peer, spare, JoinOne(stored, m, a, peer, growth))
  {
    hide Reached, IndexOf;
    var all := announced + [a];
    assert all[..|announced|] == announced;
    var m' := JoinOne(stored, m, a, peer, growth);
    assert m'.nets[|stored|..] == m.nets[|stored|..] + [Network(a.id, a.name, [peer])];
    forall i | 0 <= i < |stored|
      ensures Reached(stored, all, spare, stored[i].id) == Reached(stored, announced, spare, stored[i].id)
    {
      ReachedSnoc(stored, announced, a, spare, stored[i].id);
      NotIndexed(stored, a.id, i);
    }
  }

  lemma OnlyIndexed(stored: seq<Network>, id: NetworkID, i: nat)
    requires DistinctIds(stored) && IndexOf(stored, id) >= 0 && i < |stored|
    ensures stored[i].id == id <==> i == IndexOf(stored, id)
  {
  }

  lemma NotIndexed(stored: seq<Network>, id: NetworkID, i: nat)
    requires IndexOf(stored, id) < 0 && i < |stored|
    ensures stored[i].id != id
  {
  }

  lemma AddTwice(n: Network, peer: PeerID)
    ensures AddPeer(AddPeer(n, peer), peer) == AddPeer(n, peer)
  {
  }

  lemma {:induction false} JoinShape(stored: seq<Network>, announced: seq<Announced>, peer: PeerID, spare: nat, growth: nat)
    requires DistinctIds(stored)
    ensures Shape(stored, announced, peer, spare, Join(stored, announced, peer, spare, growth))
  {
    hide Shape, IndexOf;
    if announced == [] {
      NothingJoined(stored, peer, spare);
    } else {
      var n := |announced| - 1;
      JoinShape(stored, announced[..n], peer, spare, growth);
      var m := Join(stored, announced[..n], peer, spare, growth);
      assert announced == announced[..n] + [announced[n]];
      if IndexOf(stored, announced[n].id) >= 0 {
        ShapeKnown(stored, announced[..n], announced[n], peer, spare, growth, m);
      } else {
        ShapeUnknown(stored, announced[..n], announced[n], peer, spare, growth, m);
      }
    }
  }

  lemma NothingJoined(stored: seq<Network>, peer: PeerID, spare: nat)
    ensures Shape(stored, [], peer, spare, Merge(stored, spare, true))
  {
  }

  /** The members of a network other than one peer, in order. */
  ghost function Others(peers: seq<PeerID>, peer: PeerID): seq<PeerID> {
    if peers == [] then []
    else (if peers[0] == peer then [] else [peers[0]]) + Others(peers[1..], peer)
  }

  lemma {:induction false} OthersSnoc(a: seq<PeerID>, peer: PeerID)
    ensures Others(a + [peer], peer) == Others(a, peer)
  {
    if a != [] {
      OthersSnoc(a[1..], peer);
      assert (a + [peer])[1..] == a[1..] + [peer];
    }
  }

  lemma {:induction false} RemoveKeepsOthers(peers: seq<PeerID>, peer: PeerID)
    ensures Others(RemoveFirst(peers, peer), peer) == Others(peers, peer)
    ensures Distinct(peers) ==> peer !in RemoveFirst(peers, peer)
  {
    if peers != [] {
      RemoveKeepsOthers(peers[1..], peer);
      if Distinct(peers) {
        assert Distinct(peers[1..]);
        if peers[0] == peer {
          forall i | 0 <= i < |peers[1..]| ensures peers[1..][i] != peer {
            assert peers[0] != peers[i + 1];
          }
        }
      }
      if peers[0] != peer {
        var r := RemoveFirst(peers, peer);
        assert r[1..] == RemoveFirst(peers[1..], peer);
      }
    }
  }

  lemma AddKeepsOthers(n: Network, peer: PeerID)
    ensures Others(AddPeer(n, peer).peers, peer) == Others(n.peers, peer)
    ensures peer in AddPeer(n, peer).peers
  {
    OthersSnoc(n.peers, peer);
  }

  /** Every stored network keeps its place, its name and its other members in order, and the unknown
      announced networks follow, with the peer as only member; whatever the order of announcements. */
  lemma MergeKeepsTheRest(stored: seq<Network>, announced: seq<Announced>, peer: PeerID, spare: nat, growth: nat)
    requires DistinctIds(stored)
    ensures var r := Merged(stored, announced, peer, spare, growth);
            |r| >= |stored| && r[|stored|..] == Unknown(stored, announced, peer)
            && forall i :: 0 <= i < |stored| ==>
                 r[i].id == stored[i].id && r[i].name == stored[i].name
                 && Others(r[i].peers, peer) == Others(stored[i].peers, peer)
  {
    hide Unknown, Reached;
    JoinShape(stored, announced, peer, spare, growth);
    var joined := Join(stored, announced, peer, spare, growth).nets;
    var ids := Ids(announced);
    var r := Merged(stored, announced, peer, spare, growth);
    forall i | 0 <= i < |stored|
      ensures r[i].id == stored[i].id && r[i].name == stored[i].name
              && Others(r[i].peers, peer) == Others(stored[i].peers, peer)
    {
      AddKeepsOthers(stored[i], peer);
      RemoveKeepsOthers(joined[i].peers, peer);
    }
    forall i | |stored| <= i < |r| ensures r[i] == joined[i] {
      UnknownAnnounced(stored, announced, peer, i - |stored|);
      assert joined[i] == joined[|stored|..][i - |stored|];
    }
    assert r[|stored|..] == joined[|stored|..];
  }

  lemma {:induction false} UnknownAnnounced(stored: seq<Network>, announced: seq<Announced>, peer: PeerID, i: nat)
    requires i < |Unknown(stored, announced, peer)|
    ensures var n := Unknown(stored, announced, peer)[i];
            n.peers == [peer] && n.id in Ids(announced) && !Known(stored, n.id)
  {
    var k := |announced| - 1;
    if i < |Unknown(stored, announced[..k], peer)| {
      UnknownAnnounced(stored, announced[..k], peer, i);
      assert forall j :: 0 <= j < k ==> announced[..k][j] == announced[j];
    } else {
      assert announced[k].id in Ids(announced);
    }
  }

  /** Membership is right: the peer is in a network exactly when it announced it. */
  ghost predicate MembershipRight(r: seq<Network>, announced: seq<Announced>, peer: PeerID) {
    forall i :: 0 <= i < |r| ==> (peer in r[i].peers <==> r[i].id in Ids(announced))
  }

  /** No announcement of a stored network the peer is not yet in comes after an append that
      reallocated: at most `spare` unknown networks are announced before it. */
  ghost predicate PointersHold(stored: seq<Network>, announced: seq<Announced>, peer: PeerID, spare: nat) {
    forall i :: 0 <= i < |stored| && peer !in stored[i].peers && stored[i].id in Ids(announced) ==>
      Reached(stored, announced, spare, stored[i].id)
  }

  /** With distinct stored ids and repeat-free member lists, the merge gets the peer's membership right
      if and only if no late announcement is written through a detached pointer. */
  lemma MergeExact(stored: seq<Network>, announced: seq<Announced>, peer: PeerID, spare: nat, growth: nat)
    requires WellKept(stored)
    ensures MembershipRight(Merged(stored, announced, peer, spare, growth), announced, peer) <==>
            PointersHold(stored, announced, peer, spare)
  {
    hide Unknown, Reached;
    JoinShape(stored, announced, peer, spare, growth);
    var joined := Join(stored, announced, peer, spare, growth).nets;
    var ids := Ids(announced);
    var r := Merged(stored, announced, peer, spare, growth);
    forall i | |stored| <= i < |r| ensures peer in r[i].peers && r[i].id in ids {
      UnknownAnnounced(stored, announced, peer, i - |stored|);
      assert joined[i] == joined[|stored|..][i - |stored|];
    }
    forall i | 0 <= i < |stored|
      ensures r[i].id == stored[i].id
      ensures r[i].id !in ids ==> peer !in r[i].peers
      ensures r[i].id in ids ==> (peer in r[i].peers <==> peer in stored[i].peers || Reached(stored, announced, spare, stored[i].id))
    {
      AddKeepsOthers(stored[i], peer);
      RemoveKeepsOthers(stored[i].peers, peer);
      if stored[i].id !in ids && Reached(stored, announced, spare, stored[i].id) {
        ReachedAnnounced(stored, announced, spare, stored[i].id);
      }
    }
  }

  lemma ReachedAnnounced(stored: seq<Network>, announced: seq<Announced>, spare: nat, id: NetworkID)
    requires Reached(stored, announced, spare, id)
    ensures id in Ids(announced)
  {
    var j: nat :| Reaches(stored, announced, spare, id, j);
    assert announced[j].id in Ids(announced);
  }

  lemma {:induction false} UnknownDistinct(stored: seq<Network>, announced: seq<Announced>, peer: PeerID)
    requires DistinctAnnounced(announced)
    ensures DistinctIds(Unknown(stored, announced, peer))
  {
    if announced != [] {
      var k := |announced| - 1;
      var init := announced[..k];
      UnknownDistinct(stored, init, peer);
      var u := Unknown(stored, init, peer);
      forall i | 0 <= i < |u| ensures u[i].id != announced[k].id {
        UnknownAnnounced(stored, init, peer, i);
      }
    }
  }

  lemma {:induction false} RemoveKeepsDistinct(peers: seq<PeerID>, peer: PeerID)
    requires Distinct(peers)
    ensures Distinct(RemoveFirst(peers, peer))
    ensures forall p :: p in RemoveFirst(peers, peer) ==> p in peers
  {
    if peers != [] {
      var rest := RemoveFirst(peers[1..], peer);
      RemoveKeepsDistinct(peers[1..], peer);
      forall i | 0 <= i < |rest| ensures rest[i] != peers[0] {
        assert rest[i] in peers[1..];
      }
    }
  }

  /** Distinct ids and repeat-free members survive every merge of distinct announcements, so the
      other results apply again after any number of catch-ups. */
  lemma MergeStaysWellKept(stored: seq<Network>, announced: seq<Announced>, peer: PeerID, spare: nat, growth: nat)
    requires WellKept(stored) && DistinctAnnounced(announced)
    ensures WellKept(Merged(stored, announced, peer, spare, growth))
  {
    hide Unknown, Reached;
    JoinShape(stored, announced, peer, spare, growth);
    MergeKeepsTheRest(stored, announced, peer, spare, growth);
    UnknownDistinct(stored, announced, peer);
    var r := Merged(stored, announced, peer, spare, growth);
    var u := Unknown(stored, announced, peer);
    forall i | |stored| <= i < |r| ensures r[i] == u[i - |stored|] && r[i].peers == [peer] && !Known(stored, r[i].id) {
      assert r[i] == r[|stored|..][i - |stored|];
      UnknownAnnounced(stored, announced, peer, i - |stored|);
    }
    forall i | 0 <= i < |stored| ensures Distinct(r[i].peers) {
      assert Distinct(AddPeer(stored[i], peer).peers);
      RemoveKeepsDistinct(stored[i].peers, peer);
      RemoveKeepsDistinct(AddPeer(stored[i], peer).peers, peer);
    }
    assert DistinctIds(r) by {
      forall i, j | 0 <= i < j < |r| ensures r[i].id != r[j].id {
        if j < |stored| {
          assert stored[i].id != stored[j].id;
        } else if i < |stored| {
          assert !Known(stored, r[j].id);
        } else {
          assert u[i - |stored|].id != u[j - |stored|].id;
        }
      }
    }
  }

  /** Announcing the stored networks before the unknown ones is enough, for every capacity. */
  lemma KnownFirstHolds(stored: seq<Network>, announced: seq<Announced>, peer: PeerID, spare: nat, k: nat)
    requires k <= |announced|
    requires forall j :: 0 <= j < k ==> IndexOf(stored, announced[j].id) >= 0
    requires forall j :: k <= j < |announced| ==> IndexOf(stored, announced[j].id) < 0
    ensures PointersHold(stored, announced, peer, spare)
  {
    hide IndexOf;
    forall i | 0 <= i < |stored| && stored[i].id in Ids(announced)
      ensures Reached(stored, announced, spare, stored[i].id)
    {
      var j :| 0 <= j < |announced| && announced[j].id == stored[i].id;
      assert j < k;
      NoUnknown(stored, announced[..j]);
      assert Reaches(stored, announced, spare, stored[i].id, j);
    }
  }

  lemma {:induction false} NoUnknown(stored: seq<Network>, announced: seq<Announced>)
    requires forall j :: 0 <= j < |announced| ==> IndexOf(stored, announced[j].id) >= 0
    ensures Unknown(stored, announced, 0) == []
  {
    if announced != [] {
      NoUnknown(stored, announced[..|announced| - 1]);
    }
  }

  /** The failing family is inhabited: with no spare slot, a peer that announces a new network and
      then a stored one it is not in ends up outside the stored one. */
  lemma LateAnnouncementIsLost()
    ensures var stored := [Network(1, "a", [7])];
            var announced := [Announced(2, "b"), Announced(1, "a")];
            !MembershipRight(Merged(stored, announced, 42, 0, 1), announced, 42)
  {
    var stored := [Network(1, "a", [7])];
    var announced := [Announced(2, "b"), Announced(1, "a")];
    MergeExact(stored, announced, 42, 0, 1);
    assert announced[..1] == [announced[0]] && announced[..1][..0] == [];
    assert Unknown(stored, [announced[0]], 0) == [Network(2, "b", [0])];
    assert announced[1].id in Ids(announced);
    forall j: nat ensures !Reaches(stored, announced, 0, 1, j) {
    }
  }

  ghost predicate RemovedAt(peers: seq<PeerID>, peer: PeerID, left: seq<PeerID>, k: nat) {
    k < |peers| && peers[k] == peer && peer !in peers[..k] && left == peers[..k] + peers[k + 1..]
  }

  /** The first occurrence of the peer is gone, or there was none. */
  ghost predicate WithoutFirst(peers: seq<PeerID>, peer: PeerID, left: seq<PeerID>) {
    if peer in peers then exists k: nat :: RemovedAt(peers, peer, left, k) else left == peers
  }

  lemma RemovedLater(x: PeerID, rest: seq<PeerID>, peer: PeerID, left: seq<PeerID>, k: nat)
    requires x != peer && RemovedAt(rest, peer, left, k)
    ensures RemovedAt([x] + rest, peer, [x] + left, k + 1)
  {
    var peers := [x] + rest;
    assert peers[..k + 1] == [x] + rest[..k];
    assert peers[k + 1 + 1..] == rest[k + 1..];
    assert [x] + (rest[..k] + rest[k + 1..]) == [x] + rest[..k] + rest[k + 1..];
  }

  lemma WithoutFirstLater(x: PeerID, rest: seq<PeerID>, peer: PeerID, left: seq<PeerID>)
    requires x != peer && WithoutFirst(rest, peer, left)
    ensures WithoutFirst([x] + rest, peer, [x] + left)
  {
    hide RemovedAt;
    if peer in rest {
      var k: nat :| RemovedAt(rest, peer, left, k);
      RemovedLater(x, rest, peer, left, k);
    }
  }

  lemma {:induction false} RemovesFirst(peers: seq<PeerID>, peer: PeerID)
    ensures WithoutFirst(peers, peer, RemoveFirst(peers, peer))
  {
    if peers != [] {
      var rest := peers[1..];
      if peers[0] == peer {
        assert RemovedAt(peers, peer, rest, 0);
      } else {
        hide WithoutFirst;
        RemovesFirst(rest, peer);
        WithoutFirstLater(peers[0], rest, peer, RemoveFirst(rest, peer));
        assert peers == [peers[0]] + rest;
      }
    }
  }

  /** What a merge does to the members of a stored network: a peer that joins goes to the end, a peer that
      leaves is removed where it first stood, and otherwise the list stays. */
  lemma MembersExact(stored: seq<Network>, announced: seq<Announced>, peer: PeerID, spare: nat, growth: nat, i: nat)
    requires DistinctIds(stored) && i < |stored|
    ensures var r := Merged(stored, announced, peer, spare, growth);
            |r| >= |stored|
            && if stored[i].id in Ids(announced) then
                 r[i].peers == stored[i].peers || (peer !in stored[i].peers && r[i].peers == stored[i].peers + [peer])
               else WithoutFirst(stored[i].peers, peer, r[i].peers)
  {
    hide Unknown, Reached, WithoutFirst;
    JoinShape(stored, announced, peer, spare, growth);
    var joined := Join(stored, announced, peer, spare, growth).nets;
    RemovesFirst(stored[i].peers, peer);
    if Reached(stored, announced, spare, stored[i].id) {
      ReachedAnnounced(stored, announced, spare, stored[i].id);
    }
  }

  ghost predicate IsNew(stored: seq<Network>, id: NetworkID) {
    forall k :: 0 <= k < |stored| ==> stored[k].id != id
  }

  /** The positions in order of the announcements of networks that are not stored. */
  ghost predicate NewAt(stored: seq<Network>, announced: seq<Announced>, at: seq<nat>) {
    (forall i :: 0 <= i < |at| ==> at[i] < |announced| && IsNew(stored, announced[at[i]].id))
    && (forall i, j :: 0 <= i < j < |at| ==> at[i] < at[j])
    && (forall j :: 0 <= j < |announced| && IsNew(stored, announced[j].id) ==> j in at)
  }

  lemma NewAtNext(stored: seq<Network>, announced: seq<Announced>, at: seq<nat>)
    requires announced != [] && NewAt(stored, announced[..|announced| - 1], at)
    ensures var n := |announced| - 1;
            NewAt(stored, announced, if IsNew(stored, announced[n].id) then at + [n] else at)
  {
    hide IsNew;
    var n := |announced| - 1;
    var init := announced[..n];
    var at' := if IsNew(stored, announced[n].id) then at + [n] else at;
    forall j | 0 <= j < |announced| && IsNew(stored, announced[j].id) ensures j in at' {
      if j < n {
        assert init[j] == announced[j];
      } else {
        assert at'[|at|] == n;
      }
    }
  }

  ghost predicate MadeFrom(announced: seq<Announced>, at: seq<nat>, peer: PeerID, nets: seq<Network>) {
    |at| == |nets| && forall i :: 0 <= i < |at| ==>
      at[i] < |announced| && nets[i] == Network(announced[at[i]].id, announced[at[i]].name, [peer])
  }

  lemma MadeFromNext(announced: seq<Announced>, at: seq<nat>, peer: PeerID, nets: seq<Network>, more: bool)
    requires announced != [] && MadeFrom(announced[..|announced| - 1], at, peer, nets)
    ensures var n := |announced| - 1;
            var a := announced[n];
            MadeFrom(announced, if more then at + [n] else at, peer, nets + if more then [Network(a.id, a.name, [peer])] else [])
  {
  }

  lemma NewIff(stored: seq<Network>, id: NetworkID)
    ensures IndexOf(stored, id) < 0 <==> IsNew(stored, id)
  {
  }

  lemma NothingNew(stored: seq<Network>, peer: PeerID)
    ensures NewAt(stored, [], []) && MadeFrom([], [], peer, Unknown(stored, [], peer))
  {
  }

  /** The appended networks are the new ones among the announcements, in order, with the peer alone. */
  lemma {:induction false} UnknownInOrder(stored: seq<Network>, announced: seq<Announced>, peer: PeerID) returns (at: seq<nat>)
    ensures NewAt(stored, announced, at) && MadeFrom(announced, at, peer, Unknown(stored, announced, peer))
  {
    hide NewAt, MadeFrom, IndexOf, IsNew;
    at := [];
    if announced == [] {
      NothingNew(stored, peer);
    } else {
      var n := |announced| - 1;
      at := UnknownInOrder(stored, announced[..n], peer);
      NewAtNext(stored, announced, at);
      NewIff(stored, announced[n].id);
      MadeFromNext(announced, at, peer, Unknown(stored, announced[..n], peer), IsNew(stored, announced[n].id));
      at := if IsNew(stored, announced[n].id) then at + [n] else at;
    }
  }

  /** The slots left over: one less per appended network while they last, and from the append that moves the
      slice on what its growth left. */
  lemma SpareLeft(stored: seq<Network>, announced: seq<Announced>, peer: PeerID, spare: nat, growth: nat)
    requires DistinctIds(stored)
    ensures var more, m := |Unknown(stored, announced, peer)|, Join(stored, announced, peer, spare, growth);
            m.attached == (more <= spare) && (more <= spare ==> m.spare == spare - more) && (more == spare + 1 ==> m.spare == growth)
  {
    hide Unknown, Reached, IndexOf;
    JoinShape(stored, announced, peer, spare, growth);
    MovedSpare(stored, announced, peer, spare, growth);
  }

  lemma {:induction false} MovedSpare(stored: seq<Network>, announced: seq<Announced>, peer: PeerID, spare: nat, growth: nat)
    requires DistinctIds(stored)
    ensures |Unknown(stored, announced, peer)| == spare + 1 ==> Join(stored, announced, peer, spare, growth).spare == growth
  {
    if announced != [] {
      hide Reached, IndexOf, DistinctIds;
      MovedSpare(stored, announced[..|announced| - 1], peer, spare, growth);
      JoinShape(stored, announced[..|announced| - 1], peer, spare, growth);
    }
  }
}
