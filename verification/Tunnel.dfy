/** A tunnel to one peer: sealing what is written, sending it directly or through a relay, asking the
    peer to pair with a quadratic back-off, and opening what arrives. Times are nanoseconds. */
module Tunnel {
  import opened Bytes
  import PeerCodec

  type PeerID = uint64

  const SECOND := 1_000_000_000
  const ZERO_TIME := -62_135_596_800 * SECOND
  const PACKET_HEADER_SIZE := 10
  const DISCOVERY_TYPE := 7
  const FRAGMENT_TYPE := 8

  /** Key exchange and authenticated encryption of the foreign libraries. */
  datatype Suite = Suite(pub: nat -> nat, dh: (nat, nat) -> nat,
                         seal: (nat, uint32, seq<byte>) -> seq<byte>,
                         unseal: (nat, uint32, seq<byte>) -> Option<seq<byte>>)

  ghost predicate Lawful(c: Suite) {
    && (forall a, b :: c.dh(a, c.pub(b)) == c.dh(b, c.pub(a)))
    && (forall k, n, x :: c.unseal(k, n, c.seal(k, n, x)) == Some(x))
  }

  datatype Outgoing =
    | Direct(datagram: seq<byte>)
    | Relayed(src: PeerID, dst: PeerID, nonce: uint32, fragment: seq<byte>)
    | PairRequest(dst: PeerID, peer: PeerID, endpoints: seq<string>)

  datatype Received = Ignored | Undecodable | WrongType | DecryptFailed
                    | Discovery(message: seq<byte>) | Fragment(data: seq<byte>)

  /** The read-only part of a tunnel. */
  datatype Link = Link(suite: Suite, local: PeerID, peer: PeerID, key: nat)

  datatype State = State(disco: bool, closed: bool, localEndpoints: Option<seq<string>>,
                         pairCounter: nat, nextPairAt: int, lastSendAt: int)

  const NEW_TUNNEL := State(false, false, None, 0, ZERO_TIME, ZERO_TIME)

  /** What a Write meets: the clock, the drawn nonce, a recently seen endpoint, a relay client, and
      whether the two sends through that client are accepted. */
  datatype Env = Env(now: int, nonce: uint32, reachable: bool, client: bool, forwardSent: bool, pairSent: bool)

  // ---- writing, on values ----

  function RetryInterval(counter: nat): int {
    Wrap64(counter * counter * SECOND)
  }

  predicate PairsNow(s: State, env: Env) {
    !env.reachable && env.client && !s.disco && env.now > s.nextPairAt
    && s.localEndpoints.Some? && s.localEndpoints.value != [] && env.pairSent
  }

  function WriteState(s: State, env: Env): State {
    var s1 := s.(lastSendAt := env.now);
    if PairsNow(s, env) then
      s1.(pairCounter := s.pairCounter + 1, nextPairAt := env.now + RetryInterval(s.pairCounter + 1))
    else s1
  }

  ghost function WriteOut(l: Link, s: State, data: seq<byte>, env: Env): seq<Outgoing> {
    var encrypted := l.suite.seal(l.key, env.nonce, data);
    if env.reachable then [Direct(PeerCodec.Layout(env.nonce, FRAGMENT_TYPE, l.local, encrypted))]
    else
      (if env.client && env.forwardSent then [Relayed(l.local, l.peer, env.nonce, encrypted)] else [])
      + (if PairsNow(s, env) then [PairRequest(l.peer, l.local, s.localEndpoints.value)] else [])
  }

  ghost function Receive(c: Suite, key: nat, data: seq<byte>): Received {
    if |data| < PACKET_HEADER_SIZE then Ignored
    else
      match PeerCodec.Decode(data)
      case None => Undecodable
      case Some(f) =>
        if f.typ != FRAGMENT_TYPE && f.typ != DISCOVERY_TYPE then WrongType
        else
          match c.unseal(key, f.nonce, f.payload)
          case None => DecryptFailed
          case Some(plain) => if f.typ == DISCOVERY_TYPE then Discovery(plain) else Fragment(plain)
  }

  class Tunnel {
    const link: Link
    var disco: bool
    var closed: bool
    var localEndpoints: Option<seq<string>>
    var pairCounter: nat
    var nextPairAt: int
    var lastSendAt: int

    ghost function Value(): State
      reads this
    {
      State(disco, closed, localEndpoints, pairCounter, nextPairAt, lastSendAt)
    }

    constructor (link: Link)
      ensures this.link == link && Value() == NEW_TUNNEL
    {
      this.link := link;
      disco, closed, localEndpoints := false, false, None;
      pairCounter, nextPairAt, lastSendAt := 0, ZERO_TIME, ZERO_TIME;
    }

    method SetLocalEndpoints(endpoints: seq<string>)
      modifies `localEndpoints
      ensures Value() == old(Value()).(localEndpoints := Some(endpoints))
    {
      localEndpoints := Some(endpoints);
    }

    method Close()
      modifies `closed
      ensures Value() == old(Value()).(closed := true)
    {
      closed := true;
    }

    method Write(data: seq<byte>, env: Env) returns (out: seq<Outgoing>)
      modifies `pairCounter, `nextPairAt, `lastSendAt
      ensures Value() == WriteState(old(Value()), env)
      ensures out == WriteOut(link, old(Value()), data, env)
    {
      lastSendAt := env.now;
      if env.reachable {
        var sealed := link.suite.seal(link.key, env.nonce, data);
        var encoded := PeerCodec.Encode(env.nonce, FRAGMENT_TYPE, link.local, sealed);
        return [Direct(encoded)];
      }
      out := [];
      if !env.client {
        return;
      }
      var encrypted := link.suite.seal(link.key, env.nonce, data);
      if env.forwardSent {
        out := out + [Relayed(link.local, link.peer, env.nonce, encrypted)];
      }
      if !disco && lastSendAt > nextPairAt {
        if localEndpoints == None {
          return;
        }
        var endpoints := localEndpoints.value;
        if endpoints == [] {
          return;
        }
        if !env.pairSent {
          return;
        }
        out := out + [PairRequest(link.peer, link.local, endpoints)];
        pairCounter := pairCounter + 1;
        nextPairAt := lastSendAt + RetryInterval(pairCounter);
      }
    }

    method OnUDPPacket(data: seq<byte>) returns (r: Received)
      ensures r == Receive(link.suite, link.key, data)
    {
      if |data| < PACKET_HEADER_SIZE {
        return Ignored;
      }
      var decoded := PeerCodec.Decode(data);
      if decoded == None {
        return Undecodable;
      }
      var f := decoded.value;
      if f.typ != FRAGMENT_TYPE && f.typ != DISCOVERY_TYPE {
        return WrongType;
      }
      var plain := link.suite.unseal(link.key, f.nonce, f.payload);
      if plain == None {
        return DecryptFailed;
      }
      if f.typ == DISCOVERY_TYPE {
        return Discovery(plain.value);
      }
      return Fragment(plain.value);
    }
  }

  /** What one end writes directly, the other end, holding the same key, receives byte for byte. */
  lemma DirectArrives(l: Link, data: seq<byte>, nonce: uint32)
    requires Lawful(l.suite)
    ensures Receive(l.suite, l.key, PeerCodec.Layout(nonce, FRAGMENT_TYPE, l.local, l.suite.seal(l.key, nonce, data)))
            == Fragment(data)
  {
    hide PeerCodec.Decode, PeerCodec.Layout;
    var sealed := l.suite.seal(l.key, nonce, data);
    PeerCodec.DecodeInvertsEncode(nonce, FRAGMENT_TYPE, l.local, sealed);
    PeerCodec.EncodeInvertsDecode(PeerCodec.Layout(nonce, FRAGMENT_TYPE, l.local, sealed));
  }

  // ---- the rate of pair requests ----

  datatype Event = Wrote(env: Env) | DiscoverySwitched(on: bool) | EndpointsSet(endpoints: seq<string>)

  /** The tunnel after some events, and the times at which pair requests were sent. */
  datatype History = History(s: State, sentAt: seq<int>)

  ghost function After(es: seq<Event>): History {
    if es == [] then History(NEW_TUNNEL, [])
    else
      var h := After(es[..|es| - 1]);
      match es[|es| - 1]
      case Wrote(env) =>
        History(WriteState(h.s, env), if PairsNow(h.s, env) then h.sentAt + [env.now] else h.sentAt)
      case DiscoverySwitched(on) => h.(s := h.s.(disco := on))
      case EndpointsSet(endpoints) => h.(s := h.s.(localEndpoints := Some(endpoints)))
  }

  ghost function Squares(n: nat): nat {
    if n == 0 then 0 else n * n + Squares(n - 1)
  }

  lemma ClosedFormStep(n: nat)
    ensures 6 * (n * n) + (n - 1) * n * (2 * n - 1) == n * (n + 1) * (2 * n + 1)
  {
    var s := n * n;
    assert (n - 1) * n == s - n && n * (n + 1) == s + n;
    assert (s - n) * (2 * n - 1) == 2 * (s * n) - s - 2 * s + n;
    assert (s + n) * (2 * n + 1) == 2 * (s * n) + s + 2 * s + n;
  }

  lemma {:induction false} SquaresClosedForm(n: nat)
    ensures 6 * Squares(n) == n * (n + 1) * (2 * n + 1)
  {
    if n > 0 {
      calc {
        6 * Squares(n);
        6 * (n * n) + 6 * Squares(n - 1);
        { SquaresClosedForm(n - 1); }
        6 * (n * n) + (n - 1) * n * (2 * n - 1);
        { ClosedFormStep(n); }
        n * (n + 1) * (2 * n + 1);
      }
    }
  }

  /** Requests i and i+1, counted from one, are more than i squared seconds apart. */
  ghost predicate Spaced(sentAt: seq<int>) {
    forall i :: 0 <= i < |sentAt| - 1 ==> sentAt[i + 1] > sentAt[i] + (i + 1) * (i + 1) * SECOND
  }

  lemma {:induction false} SpacedSpan(sentAt: seq<int>)
    requires Spaced(sentAt) && sentAt != []
    ensures sentAt[|sentAt| - 1] - sentAt[0] >= Squares(|sentAt| - 1) * SECOND
    ensures |sentAt| >= 2 ==> sentAt[|sentAt| - 1] - sentAt[0] > Squares(|sentAt| - 1) * SECOND
  {
    var n := |sentAt| - 1;
    if n > 0 {
      SpacedSpan(sentAt[..n]);
      assert sentAt[n - 1 + 1] > sentAt[n - 1] + n * n * SECOND;
      assert Squares(n) * SECOND == n * n * SECOND + Squares(n - 1) * SECOND;
    }
  }

  /** The run lasts less than the range of a Duration, about 292 years. */
  ghost predicate WithinDuration(es: seq<Event>, from: int) {
    forall i :: 0 <= i < |es| && es[i].Wrote? ==> from <= es[i].env.now < from + 0x8000_0000_0000_0000
  }

  lemma SmallCounter(n: nat)
    requires n >= 2 ==> Squares(n - 1) * SECOND < 0x8000_0000_0000_0000
    ensures n * n * SECOND < 0x8000_0000_0000_0000
  {
    if n >= 90_000 {
      SquareMonotone(89_999, n - 1);
      SquareMonotone(89_998, n - 2);
      SquaresTop(n - 1);
      assert false;
    }
    SquareMonotone(n, 90_000);
  }

  lemma SquareMonotone(a: nat, b: nat)
    requires a <= b
    ensures a * a <= b * b
  {
  }

  lemma SquaresTop(n: nat)
    requires n >= 2
    ensures Squares(n) >= n * n + (n - 1) * (n - 1)
  {
    assert Squares(n) == n * n + Squares(n - 1);
    assert Squares(n - 1) == (n - 1) * (n - 1) + Squares(n - 2);
  }

  ghost predicate RateInv(h: History, from: int) {
    Spaced(h.sentAt) && |h.sentAt| == h.s.pairCounter
    && (forall i :: 0 <= i < |h.sentAt| ==> from <= h.sentAt[i] < from + 0x8000_0000_0000_0000)
    && h.s.nextPairAt == (if h.sentAt == [] then ZERO_TIME else h.sentAt[|h.sentAt| - 1] + SquareSeconds(|h.sentAt|))
  }

  ghost function SquareSeconds(n: nat): nat {
    n * n * SECOND
  }

  lemma SpacedSnoc(sentAt: seq<int>, now: int)
    requires Spaced(sentAt) && (sentAt != [] ==> now > sentAt[|sentAt| - 1] + SquareSeconds(|sentAt|))
    ensures Spaced(sentAt + [now])
  {
  }

  /** The interval after the n-th request does not overflow within the range of a Duration. */
  lemma IntervalFits(sentAt: seq<int>, from: int)
    requires Spaced(sentAt) && sentAt != []
    requires forall i :: 0 <= i < |sentAt| ==> from <= sentAt[i] < from + 0x8000_0000_0000_0000
    ensures RetryInterval(|sentAt|) == SquareSeconds(|sentAt|)
  {
    hide Wrap64, Squares, Spaced;
    SpacedSpan(sentAt);
    SmallCounter(|sentAt|);
    NoWrap(SquareSeconds(|sentAt|));
  }

  lemma {:induction false} RunSpaced(es: seq<Event>, from: int)
    requires WithinDuration(es, from)
    ensures RateInv(After(es), from)
  {
    hide RetryInterval, SquareSeconds, Spaced;
    if es == [] {
      NothingSent(from);
    } else {
      var h, e := After(es[..|es| - 1]), es[|es| - 1];
      RunSpaced(es[..|es| - 1], from);
      if e.Wrote? && PairsNow(h.s, e.env) {
        SpacedSnoc(h.sentAt, e.env.now);
        IntervalFits(h.sentAt + [e.env.now], from);
      }
    }
  }

  lemma NothingSent(from: int)
    ensures RateInv(History(NEW_TUNNEL, []), from)
  {
  }

  lemma NoWrap(i: int)
    requires -0x8000_0000_0000_0000 <= i < 0x8000_0000_0000_0000
    ensures Wrap64(i) == i
  {
  }

  /** Whatever the pattern of writes, failures, discovery phases and endpoint changes, n >= 2 pair
      requests of one tunnel span more than (n-1)n(2n-1)/6 seconds. */
  lemma PairRequestRate(es: seq<Event>, from: int)
    requires WithinDuration(es, from) && |After(es).sentAt| >= 2
    ensures var sentAt := After(es).sentAt;
            var n := |sentAt|;
            6 * (sentAt[n - 1] - sentAt[0]) > (n - 1) * n * (2 * n - 1) * SECOND
  {
    hide After;
    RunSpaced(es, from);
    var sentAt := After(es).sentAt;
    var n := |sentAt|;
    SpacedSpan(sentAt);
    SquaresClosedForm(n - 1);
    assert 6 * (Squares(n - 1) * SECOND) == (n - 1) * n * (2 * n - 1) * SECOND;
  }

  /** The write asks the peer to pair, k requests after the last at `last`: nothing reachable, a relay that
      takes the request, no discovery running, endpoints to announce, and k squared seconds gone by. */
  ghost predicate AsksToPair(s: State, sentAt: seq<int>, env: Env) {
    var k := |sentAt|;
    !env.reachable && env.client && env.pairSent && !s.disco && s.localEndpoints.Some? && s.localEndpoints.value != []
    && if k == 0 then env.now > -62_135_596_800_000_000_000 else env.now - sentAt[k - 1] > k * k * 1_000_000_000
  }

  /** After any events: a write sends a pair request exactly when it is due, to the peer, naming this node
      and its endpoints, and records its time; otherwise neither. */
  lemma PairRequestIff(l: Link, es: seq<Event>, from: int, data: seq<byte>, env: Env)
    requires WithinDuration(es, from)
    ensures var h, h' := After(es), After(es + [Wrote(env)]);
            var out := WriteOut(l, h.s, data, env);
            h'.sentAt == (if AsksToPair(h.s, h.sentAt, env) then h.sentAt + [env.now] else h.sentAt)
            && h'.s.lastSendAt == env.now && h'.s.disco == h.s.disco && h'.s.closed == h.s.closed
            && h'.s.localEndpoints == h.s.localEndpoints
            && forall m :: m in out && m.PairRequest? <==>
                 AsksToPair(h.s, h.sentAt, env) && m == PairRequest(l.peer, l.local, h.s.localEndpoints.value)
  {
    hide PeerCodec.Layout, Spaced;
    RunSpaced(es, from);
    assert (es + [Wrote(env)])[..|es|] == es;
    var h := After(es);
    assert PairsNow(h.s, env) <==> AsksToPair(h.s, h.sentAt, env);
  }

  /** For every datagram: it is taken as a fragment, or as a discovery message, with these bytes exactly when
      it is the encoding of a ciphertext under that type which the tunnel's key opens to them. */
  lemma ReceiveIff(c: Suite, key: nat, data: seq<byte>, plain: seq<byte>)
    ensures Receive(c, key, data) == Fragment(plain) <==> exists f :: Carries(c, key, data, 8, f, plain)
    ensures Receive(c, key, data) == Discovery(plain) <==> exists f :: Carries(c, key, data, 7, f, plain)
  {
    hide PeerCodec.Decode, PeerCodec.Layout;
    PeerCodec.EncodeInvertsDecode(data);
    if Receive(c, key, data).Fragment? || Receive(c, key, data).Discovery? {
      var f := PeerCodec.Decode(data).value;
      assert Receive(c, key, data) == Fragment(plain) ==> Carries(c, key, data, 8, f, plain);
      assert Receive(c, key, data) == Discovery(plain) ==> Carries(c, key, data, 7, f, plain);
    }
    forall f, typ | typ in {7, 8} && Carries(c, key, data, typ, f, plain)
      ensures Receive(c, key, data) == if typ == 8 then Fragment(plain) else Discovery(plain)
    {
      PeerCodec.DecodeInvertsEncode(f.nonce, typ, f.peerID, f.payload);
    }
  }

  ghost predicate Carries(c: Suite, key: nat, data: seq<byte>, typ: uint16, f: PeerCodec.Fragment, plain: seq<byte>) {
    f.typ == typ && data == PeerCodec.Layout(f.nonce, f.typ, f.peerID, f.payload)
    && c.unseal(key, f.nonce, f.payload) == Some(plain)
  }

  /** Where the data goes: to a reachable endpoint as one datagram from this node, else, if a relay takes it,
      as one fragment from this node to the peer; both sealed under the tunnel's key and the drawn nonce. */
  lemma DataSentIff(l: Link, s: State, data: seq<byte>, env: Env, m: Outgoing)
    requires !m.PairRequest?
    ensures m in WriteOut(l, s, data, env) <==>
            if env.reachable then
              m.Direct? && PeerCodec.WireFragment(m.datagram, env.nonce, 8, l.local, l.suite.seal(l.key, env.nonce, data))
              && m.datagram == PeerCodec.Layout(env.nonce, 8, l.local, l.suite.seal(l.key, env.nonce, data))
            else env.client && env.forwardSent && m == Relayed(l.local, l.peer, env.nonce, l.suite.seal(l.key, env.nonce, data))
  {
    hide PeerCodec.Layout, PeerCodec.WireFragment, PairsNow;
    PeerCodec.LayoutOnTheWire(env.nonce, 8, l.local, l.suite.seal(l.key, env.nonce, data));
  }

  /** And what is not taken: under ten bytes it is ignored, under fourteen it does not decode, then the type
      must be one of the two, and what is left does not open. */
  lemma NotReceived(c: Suite, key: nat, data: seq<byte>)
    ensures Receive(c, key, data) == Ignored <==> |data| < 10
    ensures Receive(c, key, data) == Undecodable <==> 10 <= |data| < 14
    ensures Receive(c, key, data) == WrongType <==>
            exists f: PeerCodec.Fragment :: data == PeerCodec.Layout(f.nonce, f.typ, f.peerID, f.payload) && f.typ !in {7, 8}
  {
    hide PeerCodec.Decode, PeerCodec.Layout;
    PeerCodec.EncodeInvertsDecode(data);
    if Receive(c, key, data) == WrongType {
      var f := PeerCodec.Decode(data).value;
      assert data == PeerCodec.Layout(f.nonce, f.typ, f.peerID, f.payload);
    }
    forall f: PeerCodec.Fragment | data == PeerCodec.Layout(f.nonce, f.typ, f.peerID, f.payload)
      ensures PeerCodec.Decode(data) == Some(f)
    {
      PeerCodec.DecodeInvertsEncode(f.nonce, f.typ, f.peerID, f.payload);
    }
  }
}
