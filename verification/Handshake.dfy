/** One relay client and its server session: the Noise NN handshake, the switch from clear to sealed
    frames, and the state gates of both handlers. One handler call or one queue operation is one
    atomic step; links are FIFO. Closing only removes steps and is not modelled. */
module Handshake {
  import opened Bytes

  const WRITE_QUEUE := 64

  /** Key agreement, as the handshake uses it: both ends feed the first cipher of the split. */
  datatype Group = Group(pub: nat -> nat, dh: (nat, nat) -> nat)

  ghost predicate Commutes(g: Group) {
    forall a, b :: g.dh(a, g.pub(b)) == g.dh(b, g.pub(a))
  }

  datatype PacketType = HandshakeT | HandshakeAckT | ProbeRequestT | ProbeResponseT | HeartbeatT | SyncPeerT | ForwardT

  /** The noise payload of an acknowledgement is itself sealed, under the key of the exchange. */
  datatype Message =
    | Handshake(e: nat, credential: nat)
    | HandshakeAck(e: nat, sealedUnder: nat, interval: nat)
    | ProbeRequest(body: nat) | ProbeResponse(body: nat) | Heartbeat(body: nat) | SyncPeer(body: nat) | Forward(body: nat)

  function TypeOf(m: Message): PacketType {
    match m
    case Handshake(_, _) => HandshakeT
    case HandshakeAck(_, _, _) => HandshakeAckT
    case ProbeRequest(_) => ProbeRequestT
    case ProbeResponse(_) => ProbeResponseT
    case Heartbeat(_) => HeartbeatT
    case SyncPeer(_) => SyncPeerT
    case Forward(_) => ForwardT
  }

  predicate IsHandshake(m: Message) {
    m.Handshake? || m.HandshakeAck?
  }

  /** An ideal cipher: a sealed payload opens only under its own key and nonce. */
  datatype Payload = Clear(m: Message) | Sealed(key: nat, nonce: uint32, m: Message)
  datatype Frame = Frame(typ: PacketType, nonce: uint32, payload: Payload)

  function Open(key: nat, nonce: uint32, p: Payload): Option<Message> {
    if p.Sealed? && p.key == key && p.nonce == nonce then Some(p.m) else None
  }

  datatype Handled = Done | GateClosed | NoCallback | NoCipher | DecryptFailed | Garbled | NoiseFailed | BadCredential

  datatype ClientState = Init | Connecting | Connected

  datatype Client = Client(state: ClientState, cipher: Option<nat>, ephemeral: nat, interval: nat,
                           signals: nat, callbacks: bool, queue: seq<Message>)
  datatype Session = Session(running: bool, cipher: Option<nat>, accepted: nat, queue: seq<Message>)

  const NEW_CLIENT := Client(Init, None, 0, 0, 0, false, [])
  const NEW_SESSION := Session(false, None, 0, [])

  // ---- the operations, on values ----

  function WritePacket(m: Message, cipher: Option<nat>, nonce: uint32): Frame {
    Frame(TypeOf(m), nonce, if !IsHandshake(m) && cipher.Some? then Sealed(cipher.value, nonce, m) else Clear(m))
  }

  /** A full write queue refuses the message. */
  function Push(q: seq<Message>, m: Message): seq<Message> {
    if |q| < WRITE_QUEUE then q + [m] else q
  }

  function SetClientState(c: Client, s: ClientState): Client {
    c.(state := s, signals := c.signals + if c.state.Connecting? && s.Connected? then 1 else 0)
  }

  function Connect(g: Group, c: Client, secret: nat, credential: nat): Client {
    if !c.state.Init? then c
    else c.(state := Connecting, ephemeral := secret, queue := c.queue + [Handshake(g.pub(secret), credential)])
  }

  function ReadPayload(cipher: Option<nat>, f: Frame): (r: Option<Message>) {
    if cipher.Some? then Open(cipher.value, f.nonce, f.payload)
    else if f.payload.Clear? then Some(f.payload.m) else None
  }

  function OnHandshakeAck(g: Group, c: Client, m: Message): (Client, Handled)
    requires m.HandshakeAck?
  {
    var key := g.dh(c.ephemeral, m.e);
    if m.sealedUnder != key then (c, NoiseFailed)
    else (SetClientState(c.(cipher := Some(key)), Connected).(interval := m.interval), Done)
  }

  predicate ClientKnows(c: Client, t: PacketType) {
    t.HandshakeAckT? || t.HeartbeatT? || (c.callbacks && (t.ForwardT? || t.SyncPeerT? || t.ProbeResponseT?))
  }

  function ClientHandle(g: Group, c: Client, f: Frame): (Client, Handled) {
    if c.state.Connecting? && !f.typ.HandshakeAckT? then (c, GateClosed)
    else if !ClientKnows(c, f.typ) then (c, NoCallback)
    else if c.state.Connected? && c.cipher.None? then (c, NoCipher)
    else
      var m := ReadPayload(c.cipher, f);
      if m.None? then (c, if c.cipher.Some? then DecryptFailed else Garbled)
      else if TypeOf(m.value) != f.typ then (c, Garbled)
      else if m.value.HandshakeAck? then OnHandshakeAck(g, c, m.value)
      else (c, Done)
  }

  predicate SessionKnows(t: PacketType) {
    t.HandshakeT? || t.HeartbeatT? || t.ForwardT? || t.SyncPeerT? || t.ProbeRequestT?
  }

  function OnHandshake(g: Group, s: Session, m: Message, secret: nat, valid: bool, interval: nat): (Session, Handled)
    requires m.Handshake?
  {
    if !valid then (s, BadCredential)
    else
      var key := g.dh(secret, m.e);
      (s.(cipher := Some(key), running := true, accepted := s.accepted + 1,
          queue := Push(s.queue, HandshakeAck(g.pub(secret), key, interval))), Done)
  }

  function SessionHandle(g: Group, s: Session, f: Frame, secret: nat, valid: bool, reply: nat): (Session, Handled) {
    if !s.running && !f.typ.HandshakeT? then (s, GateClosed)
    else if !SessionKnows(f.typ) then (s, NoCallback)
    else if s.running && s.cipher.None? then (s, NoCipher)
    else
      var m := ReadPayload(s.cipher, f);
      if m.None? then (s, if s.cipher.Some? then DecryptFailed else Garbled)
      else if TypeOf(m.value) != f.typ then (s, Garbled)
      else
        match m.value
        case Handshake(_, _) => OnHandshake(g, s, m.value, secret, valid, reply)
        case Heartbeat(b) => (s.(queue := Push(s.queue, Heartbeat(b))), Done)
        case ProbeRequest(_) => (s.(queue := Push(s.queue, ProbeResponse(reply))), Done)
        case _ => (s, Done)
  }

  // ---- the objects ----

  class ClientTransporter {
    const g: Group
    var state: ClientState
    var cipher: Option<nat>
    var handshakeState: nat
    var heartbeatInterval: nat
    var hsSignal: nat
    var callbacks: bool
    var chWrite: seq<Message>

    ghost function Value(): Client
      reads this
    {
      Client(state, cipher, handshakeState, heartbeatInterval, hsSignal, callbacks, chWrite)
    }

    constructor (g: Group)
      ensures this.g == g && Value() == NEW_CLIENT
    {
      this.g := g;
      state, cipher, handshakeState, heartbeatInterval := Init, None, 0, 0;
      hsSignal, callbacks, chWrite := 0, false, [];
    }

    method SetState(s: ClientState)
      modifies `state, `hsSignal
      ensures Value() == SetClientState(old(Value()), s)
    {
      if state == Connecting && s == Connected {
        hsSignal := hsSignal + 1;
      }
      state := s;
    }

    method Dial(secret: nat, credential: nat) returns (ok: bool)
      modifies this
      ensures ok == old(state).Init?
      ensures Value() == Connect(g, old(Value()), secret, credential)
      ensures !ok ==> Value() == old(Value())
    {
      if state != Init {
        return false;
      }
      state := Connecting;
      handshakeState := secret;
      chWrite := chWrite + [Handshake(g.pub(secret), credential)];
      ok := true;
    }

    method Handle(f: Frame) returns (r: Handled)
      modifies this
      ensures (Value(), r) == ClientHandle(g, old(Value()), f)
    {
      if state == Connecting && f.typ != HandshakeAckT {
        return GateClosed;
      }
      if !(f.typ == HandshakeAckT || f.typ == HeartbeatT
           || (callbacks && (f.typ == ForwardT || f.typ == SyncPeerT || f.typ == ProbeResponseT))) {
        return NoCallback;
      }
      if state == Connected && cipher == None {
        return NoCipher;
      }
      var m: Message;
      if cipher != None {
        var plain := Open(cipher.value, f.nonce, f.payload);
        if plain == None {
          return DecryptFailed;
        }
        m := plain.value;
      } else if f.payload.Clear? {
        m := f.payload.m;
      } else {
        return Garbled;
      }
      if TypeOf(m) != f.typ {
        return Garbled;
      }
      if m.HandshakeAck? {
        var key := g.dh(handshakeState, m.e);
        if m.sealedUnder != key {
          return NoiseFailed;
        }
        cipher := Some(key);
        SetState(Connected);
        heartbeatInterval := m.interval;
      }
      r := Done;
    }
  }

  class SessionTransporter {
    const g: Group
    var running: bool
    var cipher: Option<nat>
    var accepted: nat
    var chWrite: seq<Message>

    ghost function Value(): Session
      reads this
    {
      Session(running, cipher, accepted, chWrite)
    }

    constructor (g: Group)
      ensures this.g == g && Value() == NEW_SESSION
    {
      this.g := g;
      running, cipher, accepted, chWrite := false, None, 0, [];
    }

    method Send(m: Message)
      modifies `chWrite
      ensures chWrite == Push(old(chWrite), m)
    {
      if |chWrite| < WRITE_QUEUE {
        chWrite := chWrite + [m];
      }
    }

    method Handle(f: Frame, secret: nat, valid: bool, reply: nat) returns (r: Handled)
      modifies this
      ensures (Value(), r) == SessionHandle(g, old(Value()), f, secret, valid, reply)
    {
      if !running && f.typ != HandshakeT {
        return GateClosed;
      }
      if f.typ == HandshakeAckT || f.typ == ProbeResponseT {
        return NoCallback;
      }
      if running && cipher == None {
        return NoCipher;
      }
      var m: Message;
      if cipher != None {
        var plain := Open(cipher.value, f.nonce, f.payload);
        if plain == None {
          return DecryptFailed;
        }
        m := plain.value;
      } else if f.payload.Clear? {
        m := f.payload.m;
      } else {
        return Garbled;
      }
      if TypeOf(m) != f.typ {
        return Garbled;
      }
      match m {
        case Handshake(e, _) =>
          if !valid {
            return BadCredential;
          }
          var key := g.dh(secret, e);
          cipher := Some(key);
          running := true;
          accepted := accepted + 1;
          Send(HandshakeAck(g.pub(secret), key, reply));
        case Heartbeat(b) => Send(Heartbeat(b));
        case ProbeRequest(_) => Send(ProbeResponse(reply));
        case _ =>
      }
      r := Done;
    }
  }

  // ---- every run ----

  datatype World = World(c: Client, s: Session, toServer: seq<Frame>, toClient: seq<Frame>,
                         secret: nat, returned: bool, log: seq<Handled>)

  /** `secret` is the ephemeral key the server draws for this session. */
  ghost function Start(secret: nat): World {
    World(NEW_CLIENT, NEW_SESSION, [], [], secret, false, [])
  }

  datatype Event =
    | Connects(secret: nat, credential: nat)
    | ConnectReturns
    | CallbacksRegistered
    | HeartbeatTick(body: nat)
    | ClientSends(m: Message)
    | ClientWrites(nonce: uint32)
    | ServerHandles(valid: bool, reply: nat)
    | ServerSends(m: Message)
    | ServerWrites(nonce: uint32)
    | ClientHandles

  /** The manager hands a client out, and so the application sends, only after Connect returned; other
      sessions reach this one only through the registry, hence, a handshake being one step, after it. */
  ghost predicate Enabled(w: World, e: Event) {
    match e
    case Connects(_, _) => w.c.state.Init?
    case ConnectReturns => w.c.signals > 0
    case CallbacksRegistered => w.returned
    case HeartbeatTick(_) => w.c.state.Connected?
    case ClientSends(m) => w.returned && !IsHandshake(m) && SessionKnows(TypeOf(m))
    case ClientWrites(_) => w.c.queue != []
    case ServerHandles(_, _) => w.toServer != []
    case ServerSends(m) => w.s.running && (m.Forward? || m.SyncPeer?)
    case ServerWrites(_) => w.s.queue != []
    case ClientHandles => w.toClient != []
  }

  ghost function Step(g: Group, w: World, e: Event): World
    requires Enabled(w, e)
  {
    match e
    case Connects(secret, credential) => w.(c := Connect(g, w.c, secret, credential))
    case ConnectReturns => w.(returned := true)
    case CallbacksRegistered => w.(c := w.c.(callbacks := true))
    case HeartbeatTick(body) => w.(c := w.c.(queue := w.c.queue + [Heartbeat(body)]))
    case ClientSends(m) => w.(c := w.c.(queue := Push(w.c.queue, m)))
    case ClientWrites(nonce) =>
      w.(c := w.c.(queue := w.c.queue[1..]), toServer := w.toServer + [WritePacket(w.c.queue[0], w.c.cipher, nonce)])
    case ServerHandles(valid, reply) =>
      var (s', r) := SessionHandle(g, w.s, w.toServer[0], w.secret, valid, reply);
      w.(s := s', toServer := w.toServer[1..], log := w.log + [r])
    case ServerSends(m) => w.(s := w.s.(queue := Push(w.s.queue, m)))
    case ServerWrites(nonce) =>
      w.(s := w.s.(queue := w.s.queue[1..]), toClient := w.toClient + [WritePacket(w.s.queue[0], w.s.cipher, nonce)])
    case ClientHandles =>
      var (c', r) := ClientHandle(g, w.c, w.toClient[0]);
      w.(c := c', toClient := w.toClient[1..], log := w.log + [r])
  }

  ghost function After(g: Group, secret: nat, es: seq<Event>): World {
    if es == [] then Start(secret)
    else
      var w := After(g, secret, es[..|es| - 1]);
      if Enabled(w, es[|es| - 1]) then Step(g, w, es[|es| - 1]) else w
  }

  // ---- the invariant ----

  ghost function SharedKey(g: Group, w: World): nat {
    g.dh(w.c.ephemeral, g.pub(w.secret))
  }

  ghost predicate SealedFrame(key: nat, f: Frame) {
    f.payload.Sealed? && f.payload.key == key && f.payload.nonce == f.nonce
    && f.typ == TypeOf(f.payload.m) && !IsHandshake(f.payload.m)
  }

  ghost predicate AllSealed(key: nat, fs: seq<Frame>) {
    forall i :: 0 <= i < |fs| ==> SealedFrame(key, fs[i])
  }

  ghost predicate NoHandshakes(ms: seq<Message>) {
    forall i :: 0 <= i < |ms| ==> !IsHandshake(ms[i])
  }

  ghost predicate ForServer(ms: seq<Message>) {
    forall i :: 0 <= i < |ms| ==> !IsHandshake(ms[i]) && SessionKnows(TypeOf(ms[i]))
  }

  ghost predicate KnownToServer(fs: seq<Frame>) {
    forall i :: 0 <= i < |fs| ==> SessionKnows(fs[i].typ)
  }

  ghost predicate IsHello(g: Group, w: World, m: Message) {
    m.Handshake? && m.e == g.pub(w.c.ephemeral)
  }

  ghost predicate IsAck(g: Group, w: World, m: Message) {
    m.HandshakeAck? && m.e == g.pub(w.secret) && m.sealedUnder == SharedKey(g, w)
  }

  ghost predicate ClearFrame(f: Frame, m: Message) {
    f.payload == Clear(m) && f.typ == TypeOf(m)
  }

  ghost predicate SessionIdle(s: Session) {
    s == NEW_SESSION
  }

  ghost predicate SessionUp(g: Group, w: World) {
    w.s.running && w.s.cipher == Some(SharedKey(g, w)) && w.s.accepted == 1
  }

  /** Before Connect: nothing has happened. */
  ghost predicate Idle(w: World) {
    w.c.state.Init? && w.c.queue == [] && w.toServer == [] && w.toClient == [] && SessionIdle(w.s)
  }

  /** The hello is queued, in flight, or was refused. */
  ghost predicate Asking(g: Group, w: World) {
    w.c.state.Connecting? && w.toClient == [] && SessionIdle(w.s)
    && ( || (|w.c.queue| == 1 && w.toServer == [] && IsHello(g, w, w.c.queue[0]))
         || (w.c.queue == [] && |w.toServer| == 1 && w.toServer[0].payload.Clear?
             && ClearFrame(w.toServer[0], w.toServer[0].payload.m) && IsHello(g, w, w.toServer[0].payload.m))
         || (w.c.queue == [] && w.toServer == []))
  }

  /** The server accepted; its acknowledgement is first in its queue or first on the wire. */
  ghost predicate Acknowledging(g: Group, w: World) {
    w.c.state.Connecting? && SessionUp(g, w) && w.c.queue == [] && w.toServer == []
    && ( || (w.toClient == [] && w.s.queue != [] && IsAck(g, w, w.s.queue[0]) && NoHandshakes(w.s.queue[1..]))
         || (w.toClient != [] && w.toClient[0].payload.Clear? && IsAck(g, w, w.toClient[0].payload.m)
             && ClearFrame(w.toClient[0], w.toClient[0].payload.m)
             && AllSealed(SharedKey(g, w), w.toClient[1..]) && NoHandshakes(w.s.queue)))
  }

  /** Both ends hold the shared key and everything in flight is sealed under it. */
  ghost predicate Established(g: Group, w: World) {
    w.c.state.Connected? && w.c.cipher == Some(SharedKey(g, w)) && SessionUp(g, w)
    && AllSealed(SharedKey(g, w), w.toServer) && AllSealed(SharedKey(g, w), w.toClient)
    && ForServer(w.c.queue) && NoHandshakes(w.s.queue) && KnownToServer(w.toServer)
  }

  ghost predicate Fine(r: Handled) {
    r.Done? || r.NoCallback? || r.BadCredential?
  }

  ghost predicate Inv(g: Group, w: World) {
    && (Idle(w) || Asking(g, w) || Acknowledging(g, w) || Established(g, w))
    && (!w.c.state.Connected? ==> w.c.cipher.None? && w.c.signals == 0)
    && (w.c.state.Connected? ==> w.c.signals == 1)
    && (w.returned ==> w.c.signals == 1)
    && (forall i :: 0 <= i < |w.log| ==> Fine(w.log[i]))
  }

  lemma ClientStepKeeps(g: Group, w: World, e: Event)
    requires Commutes(g) && Inv(g, w) && Enabled(w, e)
    requires e.Connects? || e.ConnectReturns? || e.CallbacksRegistered? || e.HeartbeatTick? || e.ClientSends? || e.ClientWrites?
    ensures Inv(g, Step(g, w, e))
  {
  }

  lemma ServerStepKeeps(g: Group, w: World, e: Event)
    requires Commutes(g) && Inv(g, w) && Enabled(w, e)
    requires e.ServerSends? || e.ServerWrites?
    ensures Inv(g, Step(g, w, e))
  {
  }

  lemma ServerHandleKeeps(g: Group, w: World, e: Event)
    requires Commutes(g) && Inv(g, w) && Enabled(w, e) && e.ServerHandles?
    ensures Inv(g, Step(g, w, e))
  {
    if Established(g, w) {
      var f := w.toServer[0];
      assert SealedFrame(SharedKey(g, w), f) && SessionKnows(f.typ);
    }
  }

  lemma ClientHandleKeeps(g: Group, w: World)
    requires Commutes(g) && Inv(g, w) && Enabled(w, ClientHandles)
    ensures Inv(g, Step(g, w, ClientHandles))
  {
    if Established(g, w) {
      assert SealedFrame(SharedKey(g, w), w.toClient[0]);
    }
  }

  lemma {:induction false} RunKeeps(g: Group, secret: nat, es: seq<Event>)
    requires Commutes(g)
    ensures Inv(g, After(g, secret, es)) && After(g, secret, es).secret == secret
  {
    hide Inv, Step, Commutes;
    if es == [] {
      StartInv(g, secret);
    } else {
      var w, e := After(g, secret, es[..|es| - 1]), es[|es| - 1];
      RunKeeps(g, secret, es[..|es| - 1]);
      if Enabled(w, e) {
        StepSecret(g, w, e);
        match e
        case ServerHandles(_, _) => ServerHandleKeeps(g, w, e);
        case ClientHandles => ClientHandleKeeps(g, w);
        case ServerSends(_) => ServerStepKeeps(g, w, e);
        case ServerWrites(_) => ServerStepKeeps(g, w, e);
        case _ => ClientStepKeeps(g, w, e);
      }
    }
  }

  lemma StartInv(g: Group, secret: nat)
    ensures Inv(g, Start(secret))
  {
  }

  lemma StepSecret(g: Group, w: World, e: Event)
    requires Enabled(w, e)
    ensures Step(g, w, e).secret == w.secret
  {
    hide SessionHandle, ClientHandle;
  }

  // ---- what every run keeps ----

  ghost predicate FrameRule(key: nat, f: Frame) {
    (f.payload.Clear? <==> f.typ.HandshakeT? || f.typ.HandshakeAckT?)
    && (f.payload.Sealed? ==> f.payload.key == key)
  }

  /** On every run: a frame on the wire is clear exactly when it carries a handshake or its
      acknowledgement, and every other frame is sealed under the one shared key. */
  lemma FramesOnTheWire(g: Group, secret: nat, es: seq<Event>)
    requires Commutes(g)
    ensures var w := After(g, secret, es);
            (forall f :: f in w.toServer || f in w.toClient ==> FrameRule(SharedKey(g, w), f))
  {
    hide After;
    RunKeeps(g, secret, es);
    var w := After(g, secret, es);
    var key := SharedKey(g, w);
    forall f | f in w.toServer ensures FrameRule(key, f) {
      var i :| 0 <= i < |w.toServer| && w.toServer[i] == f;
      assert Established(g, w) ==> SealedFrame(key, w.toServer[i]);
    }
    forall f | f in w.toClient ensures FrameRule(key, f) {
      var i :| 0 <= i < |w.toClient| && w.toClient[i] == f;
      assert Established(g, w) ==> SealedFrame(key, w.toClient[i]);
      assert Acknowledging(g, w) && i > 0 ==> w.toClient[1..][i - 1] == f && SealedFrame(key, f);
    }
  }

  /** On every run: no frame is stopped by a state gate, a missing cipher, a failed decryption or a
      failed noise read; the server accepts at most one handshake, the handshake signal is closed at
      most once, and when both ends hold a cipher it is the same. */
  lemma HandshakeSound(g: Group, secret: nat, es: seq<Event>)
    requires Commutes(g)
    ensures var w := After(g, secret, es);
            (forall i :: 0 <= i < |w.log| ==> Fine(w.log[i]))
            && w.s.accepted <= 1 && w.c.signals <= 1
            && (w.c.cipher.Some? ==> w.s.cipher == w.c.cipher)
            && (w.returned ==> w.c.state.Connected? && w.s.running)
  {
    hide After;
    RunKeeps(g, secret, es);
  }

  // ---- which handshake is accepted, and that it completes ----

  /** Event `i` of the run hands the session the client's hello, with a credential that is valid or not. */
  ghost predicate MeetsHello(g: Group, secret: nat, es: seq<Event>, i: nat, valid: bool)
    requires i < |es|
  {
    var w := After(g, secret, es[..i]);
    es[i].ServerHandles? && es[i].valid == valid && w.toServer != []
    && w.toServer[0].payload.Clear? && w.toServer[0].payload.m.Handshake?
  }

  lemma RunningStep(g: Group, w: World, e: Event)
    requires Commutes(g) && Inv(g, w) && Enabled(w, e)
    ensures Step(g, w, e).s.running <==>
            w.s.running || (e.ServerHandles? && e.valid && w.toServer[0].payload.Clear? && w.toServer[0].payload.m.Handshake?)
  {
    if e.ServerHandles? && Established(g, w) {
      assert SealedFrame(SharedKey(g, w), w.toServer[0]);
    }
  }

  /** On every run: the session runs if and only if it met the hello with a valid credential; until then
      it is as new, so a refused hello leaves no trace. */
  lemma {:induction false} AcceptedIff(g: Group, secret: nat, es: seq<Event>)
    requires Commutes(g)
    ensures After(g, secret, es).s.running <==> exists i :: 0 <= i < |es| && MeetsHello(g, secret, es, i, true)
    ensures !After(g, secret, es).s.running ==> After(g, secret, es).s == NEW_SESSION
  {
    hide Inv, Step, Commutes;
    RunKeeps(g, secret, es);
    IdleOrRunning(g, After(g, secret, es));
    if es != [] {
      var init, e := es[..|es| - 1], es[|es| - 1];
      AcceptedIff(g, secret, init);
      RunKeeps(g, secret, init);
      var w := After(g, secret, init);
      if Enabled(w, e) {
        RunningStep(g, w, e);
      }
      MeetsEarlier(g, secret, es);
      assert MeetsHello(g, secret, es, |init|, true) <==>
             Enabled(w, e) && e.ServerHandles? && e.valid && w.toServer[0].payload.Clear? && w.toServer[0].payload.m.Handshake?;
    }
  }

  lemma IdleOrRunning(g: Group, w: World)
    requires Inv(g, w)
    ensures w.s.running || w.s == NEW_SESSION
  {
  }

  lemma MeetsEarlier(g: Group, secret: nat, es: seq<Event>)
    requires es != []
    ensures var init := es[..|es| - 1];
            forall i :: 0 <= i < |init| ==> (MeetsHello(g, secret, es, i, true) <==> MeetsHello(g, secret, init, i, true))
  {
    hide After;
    var init := es[..|es| - 1];
    forall i | 0 <= i < |init| ensures MeetsHello(g, secret, es, i, true) <==> MeetsHello(g, secret, init, i, true) {
      assert init[..i] == es[..i];
    }
  }

  /** From every reachable state in which a connecting client's frame is on its way, whatever happened
      before: a valid credential, the written acknowledgement and its reading leave both ends with the key
      of their two secrets, the client connected with the server's interval, and Connect signalled once. */
  lemma HandshakeCompletes(g: Group, secret: nat, es: seq<Event>, interval: nat, nonce: uint32)
    requires Commutes(g)
    requires After(g, secret, es).c.state.Connecting? && After(g, secret, es).toServer != []
    ensures var w := After(g, secret, es);
            var w' := After(g, secret, es + [ServerHandles(true, interval), ServerWrites(nonce), ClientHandles]);
            w'.c.state.Connected? && w'.c.interval == interval && w'.c.signals == 1 && w'.s.running
            && w'.c.cipher == w'.s.cipher == Some(g.dh(w.c.ephemeral, g.pub(secret)))
            && w'.toServer == [] && w'.toClient == [] && w'.log == w.log + [Done, Done]
  {
    hide After;
    RunKeeps(g, secret, es);
    var w := After(g, secret, es);
    var es1 := es + [ServerHandles(true, interval)];
    var es2 := es1 + [ServerWrites(nonce)];
    AfterNext(g, secret, es, ServerHandles(true, interval));
    AfterNext(g, secret, es1, ServerWrites(nonce));
    AfterNext(g, secret, es2, ClientHandles);
    assert es + [ServerHandles(true, interval), ServerWrites(nonce), ClientHandles] == es2 + [ClientHandles];
    assert Asking(g, w);
    ThreeSteps(g, w, interval, nonce);
  }

  /** From the start: a client that connects and writes its hello gets there. */
  lemma HelloReachesTheWire(g: Group, secret: nat, ephemeral: nat, credential: nat, nonce: uint32)
    ensures var w := After(g, secret, [Connects(ephemeral, credential), ClientWrites(nonce)]);
            w.c.state.Connecting? && w.c.ephemeral == ephemeral
            && w.toServer == [Frame(HandshakeT, nonce, Clear(Handshake(g.pub(ephemeral), credential)))]
  {
    hide After;
    var es: seq<Event> := [];
    AfterNext(g, secret, es, Connects(ephemeral, credential));
    AfterNext(g, secret, es + [Connects(ephemeral, credential)], ClientWrites(nonce));
    assert es + [Connects(ephemeral, credential)] + [ClientWrites(nonce)] == [Connects(ephemeral, credential), ClientWrites(nonce)];
    Nothing(g, secret);
  }

  lemma Nothing(g: Group, secret: nat)
    ensures After(g, secret, []) == Start(secret)
  {
  }

  lemma AfterNext(g: Group, secret: nat, es: seq<Event>, e: Event)
    ensures var w := After(g, secret, es);
            After(g, secret, es + [e]) == if Enabled(w, e) then Step(g, w, e) else w
  {
    assert (es + [e])[..|es|] == es;
  }

  lemma ThreeSteps(g: Group, w: World, interval: nat, nonce: uint32)
    requires Commutes(g) && Asking(g, w) && w.toServer != [] && w.c.cipher.None? && w.c.signals == 0
    ensures Enabled(w, ServerHandles(true, interval))
    ensures var w1 := Step(g, w, ServerHandles(true, interval));
            Enabled(w1, ServerWrites(nonce))
            && var w2 := Step(g, w1, ServerWrites(nonce));
            Enabled(w2, ClientHandles)
            && var w' := Step(g, w2, ClientHandles);
            w'.c.state.Connected? && w'.c.interval == interval && w'.c.signals == 1 && w'.s.running
            && w'.c.cipher == w'.s.cipher == Some(SharedKey(g, w))
            && w'.toServer == [] && w'.toClient == [] && w'.log == w.log + [Done, Done]
  {
    var w1 := Step(g, w, ServerHandles(true, interval));
    assert w1.s.queue == [HandshakeAck(g.pub(w.secret), SharedKey(g, w), interval)];
  }

  // ---- what no frame can do, in any state ----

  /** A session moves only on a clear hello with a valid credential before its handshake, and only on a
      frame of the announced type sealed under its own cipher and the frame's nonce after it. */
  lemma SessionMovesOnly(g: Group, s: Session, f: Frame, secret: nat, valid: bool, reply: nat)
    requires s.running <==> s.cipher.Some?
    ensures SessionHandle(g, s, f, secret, valid, reply).0 != s ==>
              if s.running then f.payload.Sealed? && f.payload.key == s.cipher.value && f.payload.nonce == f.nonce
                                && f.typ == TypeOf(f.payload.m)
              else valid && f.typ.HandshakeT? && f.payload.Clear? && f.payload.m.Handshake?
  {
  }

  /** A connecting client moves only on a clear acknowledgement sealed under the key it computes itself. */
  lemma ClientMovesOnly(g: Group, c: Client, f: Frame)
    requires c.state.Connected? <==> c.cipher.Some?
    ensures ClientHandle(g, c, f).0 != c && c.state.Connecting? ==>
              f.typ.HandshakeAckT? && f.payload.Clear? && f.payload.m.HandshakeAck?
              && f.payload.m.sealedUnder == g.dh(c.ephemeral, f.payload.m.e)
    ensures ClientHandle(g, c, f).0 != c && c.state.Connected? ==>
              f.payload.Sealed? && f.payload.key == c.cipher.value && f.payload.nonce == f.nonce
  {
  }

  /** What one end writes under a key, the other end holding it reads. */
  lemma WrittenIsRead(m: Message, key: nat, nonce: uint32)
    requires !IsHandshake(m)
    ensures ReadPayload(Some(key), WritePacket(m, Some(key), nonce)) == Some(m)
    ensures WritePacket(m, Some(key), nonce).typ == TypeOf(m)
  {
  }

  /** A running session answers a heartbeat with the same heartbeat and a probe request with a reply, and
      queues nothing for frames it passes on. */
  lemma SessionAnswers(g: Group, s: Session, m: Message, nonce: uint32, secret: nat, valid: bool, reply: nat)
    requires s.running && s.cipher.Some? && |s.queue| < WRITE_QUEUE && !IsHandshake(m) && !m.ProbeResponse?
    ensures SessionHandle(g, s, WritePacket(m, s.cipher, nonce), secret, valid, reply) ==
            (s.(queue := s.queue + if m.Heartbeat? then [m] else if m.ProbeRequest? then [ProbeResponse(reply)] else []), Done)
  {
    assert s.queue + [] == s.queue;
  }

  /** A connected client passes heartbeats to its handler at any time, and the frames of other peers as
      soon as the callbacks are registered; before that, and for requests, it has no callback. */
  lemma ClientAnswers(g: Group, c: Client, m: Message, nonce: uint32)
    requires c.state.Connected? && c.cipher.Some? && !IsHandshake(m)
    ensures ClientHandle(g, c, WritePacket(m, c.cipher, nonce)) ==
            (c, if m.Heartbeat? || (c.callbacks && (m.Forward? || m.SyncPeer? || m.ProbeResponse?)) then Done else NoCallback)
  {
  }

  /** Before its handshake a session, and while connecting a client, closes the gate to every other frame. */
  lemma GatesClosed(g: Group, s: Session, c: Client, f: Frame, secret: nat, valid: bool, reply: nat)
    ensures !s.running && !f.typ.HandshakeT? ==> SessionHandle(g, s, f, secret, valid, reply) == (s, GateClosed)
    ensures c.state.Connecting? && !f.typ.HandshakeAckT? ==> ClientHandle(g, c, f) == (c, GateClosed)
  {
  }
}
