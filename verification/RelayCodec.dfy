/** The relay stream framer: frames of `nonce | masked type | payload size | payload` on a TCP byte
    stream, decoded chunk by chunk by an object that keeps unread bytes and a pending header. */
module RelayCodec {
  import opened Bytes

  const PACKET_HEADER_SIZE := 10
  const MAX_MESSAGE_SIZE := 2016

  datatype RawPacket = RawPacket(typ: uint16, nonce: uint32, payload: seq<byte>)
  datatype Outcome = Packets(out: seq<RawPacket>) | SizeExceeded

  /** The decoder's fields; a negative `size` means that no header is pending. */
  datatype State = State(buf: seq<byte>, size: int, typ: uint16, nonce: uint32)

  const NEW_CODEC := State([], -1, 0, 0)

  // ---- wire layout ----

  function Header(nonce: uint32, typ: int, size: uint32): (h: seq<byte>)
    ensures |h| == PACKET_HEADER_SIZE
  {
    PutU32(nonce) + PutU16(Xor16(typ % 0x1_0000, nonce % 0x1_0000)) + PutU32(size)
  }

  function HeaderNonce(h: seq<byte>): uint32
    requires |h| >= PACKET_HEADER_SIZE
  {
    GetU32(h[..4])
  }

  function HeaderType(h: seq<byte>): uint16
    requires |h| >= PACKET_HEADER_SIZE
  {
    Xor16(GetU16(h[4..6]), HeaderNonce(h) % 0x1_0000)
  }

  function HeaderSize(h: seq<byte>): uint32
    requires |h| >= PACKET_HEADER_SIZE
  {
    GetU32(h[6..10])
  }

  /** Both directions of the header codec: fields survive, and any ten bytes are some header. */
  lemma HeaderRoundTrip(nonce: uint32, typ: int, size: uint32, rest: seq<byte>)
    ensures HeaderNonce(Header(nonce, typ, size) + rest) == nonce
    ensures HeaderType(Header(nonce, typ, size) + rest) == typ % 0x1_0000
    ensures HeaderSize(Header(nonce, typ, size) + rest) == size
  {
    hide PutU32, PutU16, GetU32, GetU16, Xor16;
    Xor16Twice(typ % 0x1_0000, nonce % 0x1_0000);
    var h := Header(nonce, typ, size) + rest;
    var masked := Xor16(typ % 0x1_0000, nonce % 0x1_0000);
    assert h[..4] == PutU32(nonce) && h[4..6] == PutU16(masked) && h[6..10] == PutU32(size);
    U32RoundTrip(nonce, h[..4]);
    U32RoundTrip(size, h[6..10]);
    U16RoundTrip(masked, h[4..6]);
  }

  lemma HeaderRebuild(h: seq<byte>)
    requires |h| >= PACKET_HEADER_SIZE
    ensures Header(HeaderNonce(h), HeaderType(h), HeaderSize(h)) == h[..PACKET_HEADER_SIZE]
  {
    hide PutU32, PutU16, GetU32, GetU16, Xor16;
    Xor16Twice(GetU16(h[4..6]), HeaderNonce(h) % 0x1_0000);
    U32RoundTrip(0, h[..4]);
    U32RoundTrip(0, h[6..10]);
    U16RoundTrip(0, h[4..6]);
    assert h[..10] == h[..4] + h[4..6] + h[6..10];
  }

  /** On the wire, without naming how it is computed: nonce and size most significant byte first, and
      between them the type, each bit of it flipped where the nonce has a one. */
  ghost predicate WireHeader(h: seq<byte>, nonce: uint32, typ: nat, size: uint32) {
    |h| >= PACKET_HEADER_SIZE && BigEndian(h[..4]) == nonce && BigEndian(h[6..10]) == size
    && MaskedBits(BigEndian(h[4..6]), typ, nonce, 16)
  }

  lemma HeaderOnTheWire(nonce: uint32, typ: int, size: uint32, rest: seq<byte>)
    ensures WireHeader(Header(nonce, typ, size) + rest, nonce, typ % 0x1_0000, size)
  {
    hide PutU32, PutU16, BigEndian, Xor, MaskedBits, Pow2;
    var h := Header(nonce, typ, size) + rest;
    var masked := Xor16(typ % 0x1_0000, nonce % 0x1_0000);
    assert h[..4] == PutU32(nonce) && h[4..6] == PutU16(masked) && h[6..10] == PutU32(size);
    WrittenBigEndian32(nonce);
    WrittenBigEndian32(size);
    WrittenBigEndian16(masked);
    Pow2Values();
    XorMasksLow(typ % 0x1_0000, nonce, 16);
  }

  /** The fields read from any ten bytes, bit by bit. */
  lemma HeaderReadsTheWire(h: seq<byte>)
    requires |h| >= PACKET_HEADER_SIZE
    ensures HeaderNonce(h) == BigEndian(h[..4]) && HeaderSize(h) == BigEndian(h[6..10])
    ensures MaskedBits(HeaderType(h), BigEndian(h[4..6]), HeaderNonce(h), 16)
  {
    hide GetU32, GetU16, BigEndian, Xor, MaskedBits, Pow2;
    ReadBigEndian32(h[..4]);
    ReadBigEndian32(h[6..10]);
    ReadBigEndian16(h[4..6]);
    Pow2Values();
    XorMasksLow(GetU16(h[4..6]), HeaderNonce(h), 16);
  }

  // ---- what the decoder does, on values ----

  function ReadHeader(s: State): State
    requires |s.buf| >= PACKET_HEADER_SIZE
  {
    State(s.buf[PACKET_HEADER_SIZE..], HeaderSize(s.buf), HeaderType(s.buf), HeaderNonce(s.buf))
  }

  function AfterPayload(s: State): State
    requires 0 < s.size <= |s.buf|
  {
    var rest := s.(buf := s.buf[s.size..]);
    if |rest.buf| >= PACKET_HEADER_SIZE then ReadHeader(rest) else rest.(size := -1)
  }

  function Prepend(out: seq<RawPacket>, r: Outcome): Outcome {
    if r.SizeExceeded? then r else Packets(out + r.out)
  }

  function Drain(s: State): (State, Outcome)
    decreases |s.buf|
  {
    if 0 < s.size <= |s.buf| then
      if s.size > MAX_MESSAGE_SIZE then (s, SizeExceeded)
      else
        var (s', r) := Drain(AfterPayload(s));
        (s', Prepend([RawPacket(s.typ, s.nonce, s.buf[..s.size])], r))
    else (s, Packets([]))
  }

  function Feed(s: State, input: seq<byte>): (State, Outcome) {
    var b := s.(buf := s.buf + input);
    if |b.buf| < PACKET_HEADER_SIZE then (b, Packets([]))
    else Drain(if b.size < 0 then ReadHeader(b) else b)
  }

  /** The codec object. `Encode` fills a fresh buffer; `Decode` consumes `buf` in a loop. */
  class Codec {
    var buf: seq<byte>
    var size: int
    var typ: uint16
    var nonce: uint32

    ghost function Value(): State
      reads this
    {
      State(buf, size, typ, nonce)
    }

    constructor ()
      ensures Value() == NEW_CODEC
    {
      buf, size, typ, nonce := [], -1, 0, 0;
    }

    /** The payload size is a uint32, so longer data would be cut; ten more must still fit one. */
    method Encode(nonce: uint32, typ: int, data: seq<byte>) returns (buffer: seq<byte>)
      requires PACKET_HEADER_SIZE + |data| % 0x1_0000_0000 < 0x1_0000_0000
      ensures buffer == Header(nonce, typ, |data| % 0x1_0000_0000) + data[..|data| % 0x1_0000_0000]
      ensures WireHeader(buffer, nonce, typ % 0x1_0000, |data| % 0x1_0000_0000)
    {
      hide PutU32, PutU16, Xor16, WireHeader;
      HeaderOnTheWire(nonce, typ, |data| % 0x1_0000_0000, data[..|data| % 0x1_0000_0000]);
      var payloadSize: uint32 := |data| % 0x1_0000_0000;
      var a := new byte[PACKET_HEADER_SIZE + payloadSize];
      var masked := Xor16(typ % 0x1_0000, nonce % 0x1_0000);
      Store(a, 0, PutU32(nonce));
      Store(a, 4, PutU16(masked));
      assert a[..6] == PutU32(nonce) + PutU16(masked);
      Store(a, 6, PutU32(payloadSize));
      assert a[..10] == Header(nonce, typ, payloadSize);
      Store(a, 10, data[..payloadSize]);
      buffer := a[..];
    }

    method Decode(input: seq<byte>) returns (r: Outcome)
      modifies this
      ensures (Value(), r) == Feed(old(Value()), input)
    {
      hide HeaderSize, HeaderType, HeaderNonce;
      buf := buf + input;
      if |buf| < PACKET_HEADER_SIZE {
        return Packets([]);
      }
      if size < 0 {
        TakeHeader();
      }
      ghost var start := Value();
      var output: seq<RawPacket> := [];
      assert Prepend(output, Drain(start).1) == Drain(start).1;
      while 0 < size <= |buf|
        invariant Drain(start) == (Drain(Value()).0, Prepend(output, Drain(Value()).1))
        decreases |buf|
      {
        if size > MAX_MESSAGE_SIZE {
          return SizeExceeded;
        }
        ghost var before, sent := Value(), output;
        output := output + [RawPacket(typ, nonce, buf[..size])];
        buf := buf[size..];
        if |buf| >= PACKET_HEADER_SIZE {
          TakeHeader();
        } else {
          size := -1;
        }
        assert Value() == AfterPayload(before);
        PrependAssoc(sent, [RawPacket(before.typ, before.nonce, before.buf[..before.size])], Drain(Value()).1);
      }
      assert output + [] == output;
      r := Packets(output);
    }

    method TakeHeader()
      requires |buf| >= PACKET_HEADER_SIZE
      modifies this
      ensures Value() == ReadHeader(old(Value()))
    {
      var header := buf[..PACKET_HEADER_SIZE];
      assert header[..4] == buf[..4] && header[4..6] == buf[4..6] && header[6..10] == buf[6..10];
      buf := buf[PACKET_HEADER_SIZE..];
      var n := GetU32(header[..4]);
      size, typ, nonce := GetU32(header[6..10]), Xor16(GetU16(header[4..6]), n % 0x1_0000), n;
    }
  }

  lemma PrependAssoc(a: seq<RawPacket>, b: seq<RawPacket>, r: Outcome)
    ensures Prepend(a, Prepend(b, r)) == Prepend(a + b, r)
  {
    if r.Packets? {
      assert a + (b + r.out) == a + b + r.out;
    }
  }

  // ---- whole streams ----

  ghost predicate Valid(p: RawPacket) {
    1 <= |p.payload| <= MAX_MESSAGE_SIZE
  }

  ghost predicate AllValid(ps: seq<RawPacket>) {
    forall i :: 0 <= i < |ps| ==> Valid(ps[i])
  }

  ghost function Frame(p: RawPacket): seq<byte>
    requires Valid(p)
  {
    Header(p.nonce, p.typ, |p.payload|) + p.payload
  }

  ghost function Frames(ps: seq<RawPacket>): seq<byte>
    requires AllValid(ps)
  {
    if ps == [] then [] else Frame(ps[0]) + Frames(ps[1..])
  }

  ghost predicate CompleteFrame(stream: seq<byte>) {
    |stream| >= PACKET_HEADER_SIZE && PACKET_HEADER_SIZE + HeaderSize(stream) <= |stream|
  }

  /** The reference: read complete frames off the whole stream at once. */
  ghost function Parse(stream: seq<byte>): (ps: seq<RawPacket>)
    ensures AllValid(ps)
    decreases |stream|
  {
    if CompleteFrame(stream) && 1 <= HeaderSize(stream) <= MAX_MESSAGE_SIZE then
      var end := PACKET_HEADER_SIZE + HeaderSize(stream);
      [RawPacket(HeaderType(stream), HeaderNonce(stream), stream[PACKET_HEADER_SIZE..end])] + Parse(stream[end..])
    else []
  }

  ghost function Unparsed(stream: seq<byte>): seq<byte>
    decreases |stream|
  {
    if CompleteFrame(stream) && 1 <= HeaderSize(stream) <= MAX_MESSAGE_SIZE then
      Unparsed(stream[PACKET_HEADER_SIZE + HeaderSize(stream)..])
    else stream
  }

  lemma {:induction false} FramesConcat(a: seq<RawPacket>, b: seq<RawPacket>)
    requires AllValid(a) && AllValid(b)
    ensures AllValid(a + b) && Frames(a + b) == Frames(a) + Frames(b)
  {
    hide Header;
    if a == [] {
      assert a + b == b;
    } else {
      FramesConcat(a[1..], b);
      assert (a + b)[1..] == a[1..] + b;
    }
  }

  lemma FrameHead(p: RawPacket, rest: seq<byte>)
    requires Valid(p)
    ensures var s := Frame(p) + rest;
            CompleteFrame(s) && HeaderSize(s) == |p.payload| && HeaderType(s) == p.typ && HeaderNonce(s) == p.nonce
            && s[PACKET_HEADER_SIZE..PACKET_HEADER_SIZE + |p.payload|] == p.payload
            && s[PACKET_HEADER_SIZE + |p.payload|..] == rest
  {
    HeaderRoundTrip(p.nonce, p.typ, |p.payload|, p.payload + rest);
    assert Frame(p) + rest == Header(p.nonce, p.typ, |p.payload|) + (p.payload + rest);
  }

  lemma ParseFrame(p: RawPacket, rest: seq<byte>)
    requires Valid(p)
    ensures Parse(Frame(p) + rest) == [p] + Parse(rest)
    ensures Unparsed(Frame(p) + rest) == Unparsed(rest)
  {
    hide Header, HeaderSize, HeaderType, HeaderNonce, Frame;
    FrameHead(p, rest);
  }

  /** Parsing inverts framing, whatever follows the frames. */
  lemma {:induction false} ParseFrames(ps: seq<RawPacket>, rest: seq<byte>)
    requires AllValid(ps)
    ensures Parse(Frames(ps) + rest) == ps + Parse(rest)
    ensures Unparsed(Frames(ps) + rest) == Unparsed(rest)
  {
    hide Frame, Parse, Unparsed;
    if ps == [] {
      assert Frames(ps) + rest == rest;
    } else {
      var tail := Frames(ps[1..]) + rest;
      assert Frames(ps) + rest == Frame(ps[0]) + tail;
      ParseFrame(ps[0], tail);
      ParseFrames(ps[1..], rest);
      assert ps == [ps[0]] + ps[1..];
    }
  }

  lemma FramesNil(rest: seq<byte>)
    ensures Frames([]) + rest == rest
  {
  }

  lemma FramesCons(p: RawPacket, ps: seq<RawPacket>)
    requires Valid(p) && AllValid(ps)
    ensures AllValid([p] + ps) && Frames([p] + ps) == Frame(p) + Frames(ps)
  {
    assert ([p] + ps)[1..] == ps;
  }

  lemma FrameAt(p: RawPacket, stream: seq<byte>, end: nat)
    requires Valid(p) && PACKET_HEADER_SIZE <= end <= |stream|
    requires p.payload == stream[PACKET_HEADER_SIZE..end]
    requires Header(p.nonce, p.typ, |p.payload|) == stream[..PACKET_HEADER_SIZE]
    ensures stream == Frame(p) + stream[end..]
  {
    hide Header;
    assert stream == stream[..PACKET_HEADER_SIZE] + stream[PACKET_HEADER_SIZE..end] + stream[end..];
  }

  /** No byte is lost or invented: the stream is the parsed frames and what is left. */
  lemma {:induction false} ParseAccounts(stream: seq<byte>)
    ensures stream == Frames(Parse(stream)) + Unparsed(stream)
    decreases |stream|
  {
    hide Header, HeaderSize, HeaderType, HeaderNonce, Frame, Frames;
    if CompleteFrame(stream) && 1 <= HeaderSize(stream) <= MAX_MESSAGE_SIZE {
      var end := PACKET_HEADER_SIZE + HeaderSize(stream);
      ParseAccounts(stream[end..]);
      HeaderRebuild(stream);
      var p := RawPacket(HeaderType(stream), HeaderNonce(stream), stream[PACKET_HEADER_SIZE..end]);
      FramesCons(p, Parse(stream[end..]));
      FrameAt(p, stream, end);
    } else {
      FramesNil(stream);
    }
  }

  // ---- byte accounting of the decoder, on arbitrary input ----

  ghost predicate Wf(s: State) {
    s.size < 0x1_0000_0000
  }

  /** The bytes the decoder holds: the pending header, if any, and its buffer. */
  ghost function Held(s: State): seq<byte>
    requires Wf(s)
  {
    (if s.size >= 0 then Header(s.nonce, s.typ, s.size) else []) + s.buf
  }

  /** What a call leaves: no complete packet unless fewer than ten bytes are buffered. */
  ghost predicate Settled(s: State) {
    if s.size < 0 then |s.buf| < PACKET_HEADER_SIZE
    else s.size == 0 || |s.buf| < s.size || |s.buf| < PACKET_HEADER_SIZE
  }

  /** A packet that is complete in the buffer but not yet handed out. */
  ghost function Delayed(s: State): seq<RawPacket> {
    if 0 < s.size <= |s.buf| then [RawPacket(s.typ, s.nonce, s.buf[..s.size])] else []
  }

  lemma ReadHeaderHeld(s: State)
    requires s.size < 0 && |s.buf| >= PACKET_HEADER_SIZE
    ensures Wf(ReadHeader(s)) && Held(ReadHeader(s)) == Held(s)
  {
    HeaderRebuild(s.buf);
    assert s.buf == s.buf[..PACKET_HEADER_SIZE] + s.buf[PACKET_HEADER_SIZE..];
  }

  lemma AfterPayloadHeld(s: State)
    requires Wf(s) && 0 < s.size <= |s.buf| && s.size <= MAX_MESSAGE_SIZE
    ensures Wf(AfterPayload(s))
    ensures Held(s) == Frame(RawPacket(s.typ, s.nonce, s.buf[..s.size])) + Held(AfterPayload(s))
  {
    var rest := s.(buf := s.buf[s.size..], size := -1);
    assert s.buf == s.buf[..s.size] + rest.buf;
    if |rest.buf| >= PACKET_HEADER_SIZE {
      ReadHeaderHeld(rest);
    }
  }

  lemma {:induction false} DrainAccounts(s: State)
    requires Wf(s) && (s.size < 0 ==> |s.buf| < PACKET_HEADER_SIZE)
    ensures Wf(Drain(s).0)
    ensures Drain(s).1.Packets? ==>
              var s' := Drain(s).0;
              Settled(s') && Delayed(s') == []
              && AllValid(Drain(s).1.out) && Held(s) == Frames(Drain(s).1.out) + Held(s')
    decreases |s.buf|
  {
    hide Header, HeaderSize, HeaderType, HeaderNonce, Frame, Held;
    if 0 < s.size <= |s.buf| {
      if s.size <= MAX_MESSAGE_SIZE {
        AfterPayloadHeld(s);
        DrainAccounts(AfterPayload(s));
        var (s', r) := Drain(AfterPayload(s));
        if r.Packets? {
          var p := RawPacket(s.typ, s.nonce, s.buf[..s.size]);
          FramesCons(p, r.out);
          assert Held(s) == Frame(p) + Frames(r.out) + Held(s');
        }
      }
    }
  }

  ghost function Concat(chunks: seq<seq<byte>>): seq<byte> {
    if chunks == [] then [] else Concat(chunks[..|chunks| - 1]) + chunks[|chunks| - 1]
  }

  /** Successive `Decode` calls on a new codec, up to the first error. */
  ghost function Run(chunks: seq<seq<byte>>): (State, Outcome) {
    if chunks == [] then (NEW_CODEC, Packets([]))
    else
      var (s, r) := Run(chunks[..|chunks| - 1]);
      if r.SizeExceeded? then (s, r)
      else
        var (s', r') := Feed(s, chunks[|chunks| - 1]);
        (s', Prepend(r.out, r'))
  }

  lemma FeedAccounts(s: State, input: seq<byte>)
    requires Wf(s)
    ensures var (s', r) := Feed(s, input);
            Wf(s') && (r.Packets? ==> Settled(s') && AllValid(r.out) && Held(s) + input == Frames(r.out) + Held(s'))
  {
    var b := s.(buf := s.buf + input);
    assert Held(b) == Held(s) + input;
    if |b.buf| >= PACKET_HEADER_SIZE {
      if b.size < 0 {
        ReadHeaderHeld(b);
        DrainAccounts(ReadHeader(b));
      } else {
        DrainAccounts(b);
      }
    } else {
      assert Frames([]) + Held(b) == Held(b);
    }
  }

  lemma AccountStep(s: State, out: seq<RawPacket>, fed: seq<byte>, input: seq<byte>)
    requires Wf(s) && AllValid(out) && fed == Frames(out) + Held(s)
    ensures var (s', r) := Feed(s, input);
            Wf(s') && (r.Packets? ==> Settled(s') && AllValid(out + r.out)
                                      && fed + input == Frames(out + r.out) + Held(s'))
  {
    hide Feed, Frames, Held, Settled, Valid;
    FeedAccounts(s, input);
    var (s', r) := Feed(s, input);
    if r.Packets? {
      FramesConcat(out, r.out);
      calc {
        fed + input;
        Frames(out) + (Held(s) + input);
        Frames(out) + Frames(r.out) + Held(s');
      }
    }
  }

  /** On arbitrary input, until the first error: bytes fed = frames emitted + pending header + buffer. */
  lemma {:induction false} RunAccounts(chunks: seq<seq<byte>>)
    ensures Wf(Run(chunks).0)
    ensures var (s, r) := Run(chunks);
            r.Packets? ==> Settled(s) && AllValid(r.out) && Concat(chunks) == Frames(r.out) + Held(s)
  {
    hide Feed, Frame;
    if chunks != [] {
      var init, last := chunks[..|chunks| - 1], chunks[|chunks| - 1];
      RunAccounts(init);
      var (s, r) := Run(init);
      if r.Packets? {
        AccountStep(s, r.out, Concat(init), last);
        var (s', r') := Feed(s, last);
        assert Run(chunks) == (s', Prepend(r.out, r'));
      }
    }
  }

  // ---- the chunked decoder refines the one-shot parser ----

  lemma SettledParse(s: State)
    requires Wf(s) && Settled(s)
    ensures Parse(Held(s)) == Delayed(s)
  {
    hide Header, HeaderSize, HeaderType, HeaderNonce;
    if s.size >= 0 {
      HeaderRoundTrip(s.nonce, s.typ, s.size, s.buf);
      var held := Held(s);
      assert held[PACKET_HEADER_SIZE..] == s.buf;
      if 0 < s.size <= |s.buf| {
        var end := PACKET_HEADER_SIZE + s.size;
        assert held[PACKET_HEADER_SIZE..end] == s.buf[..s.size];
        assert Parse(held[end..]) == [];
      }
    }
  }

  /** For every byte stream and every chunking without an error, the calls emit what parsing the whole
      stream at once yields, short of at most one final packet, of fewer than ten bytes. */
  lemma RunRefinesParse(chunks: seq<seq<byte>>)
    requires Run(chunks).1.Packets?
    ensures var (s, r) := Run(chunks);
            Parse(Concat(chunks)) == r.out + Delayed(s)
            && |Delayed(s)| <= 1
            && forall p :: p in Delayed(s) ==> |p.payload| < PACKET_HEADER_SIZE
  {
    RunAccounts(chunks);
    var (s, r) := Run(chunks);
    SettledParse(s);
    ParseFrames(r.out, Held(s));
  }

  // ---- streams written by the encoder ----

  lemma FramesSplit(ps: seq<RawPacket>, s: State, future: seq<byte>)
    requires AllValid(ps) && Wf(s) && s.size >= 0 && Held(s) + future == Frames(ps)
    ensures ps != [] && s.size == |ps[0].payload| && s.typ == ps[0].typ && s.nonce == ps[0].nonce
  {
    hide Header, HeaderSize, HeaderType, HeaderNonce;
    FrameHead(ps[0], Frames(ps[1..]));
    HeaderRoundTrip(s.nonce, s.typ, s.size, s.buf + future);
    assert Frames(ps) == Header(s.nonce, s.typ, s.size) + (s.buf + future);
  }

  lemma FrameCancel(p: RawPacket, a: seq<byte>, q: RawPacket, b: seq<byte>)
    requires Valid(p) && Valid(q) && Frame(p) + a == Frame(q) + b
    ensures p == q && a == b
  {
    hide Frame, HeaderSize, HeaderType, HeaderNonce;
    FrameHead(p, a);
    FrameHead(q, b);
  }

  lemma {:induction false} DrainValid(ps: seq<RawPacket>, s: State, future: seq<byte>)
    requires AllValid(ps) && Wf(s) && Held(s) + future == Frames(ps)
    ensures Drain(s).1.Packets?
    decreases |s.buf|
  {
    hide Header, HeaderSize, HeaderType, HeaderNonce, Frame, Held;
    if 0 < s.size <= |s.buf| {
      FramesSplit(ps, s, future);
      AfterPayloadHeld(s);
      var p := RawPacket(s.typ, s.nonce, s.buf[..s.size]);
      var next := Held(AfterPayload(s)) + future;
      assert Frame(p) + next == Frames(ps) == Frame(ps[0]) + Frames(ps[1..]);
      FrameCancel(p, next, ps[0], Frames(ps[1..]));
      DrainValid(ps[1..], AfterPayload(s), future);
    }
  }

  lemma FeedValid(ps: seq<RawPacket>, s: State, input: seq<byte>, future: seq<byte>)
    requires AllValid(ps) && Wf(s) && Held(s) + (input + future) == Frames(ps)
    ensures Feed(s, input).1.Packets?
  {
    hide Header, HeaderSize, HeaderType, HeaderNonce, Frames;
    var b := s.(buf := s.buf + input);
    assert Held(b) + future == Held(s) + (input + future);
    if |b.buf| >= PACKET_HEADER_SIZE {
      if b.size < 0 {
        ReadHeaderHeld(b);
        DrainValid(ps, ReadHeader(b), future);
      } else {
        DrainValid(ps, b, future);
      }
    }
  }

  /** Fed any part of a valid stream in any chunks, the decoder never fails; what it emitted is a
      prefix of the packets and what it holds is the rest of the stream so far. */
  lemma {:induction false} ValidStream(ps: seq<RawPacket>, chunks: seq<seq<byte>>, future: seq<byte>)
    requires AllValid(ps) && Concat(chunks) + future == Frames(ps)
    ensures Run(chunks).1.Packets? && Wf(Run(chunks).0)
    ensures var (s, r) := Run(chunks);
            r.out <= ps && Settled(s) && Frames(ps[|r.out|..]) == Held(s) + future
  {
    hide Feed, Frame;
    if chunks == [] {
      assert Held(NEW_CODEC) == [];
    } else {
      var init, last := chunks[..|chunks| - 1], chunks[|chunks| - 1];
      assert Concat(init) + (last + future) == Frames(ps);
      ValidStream(ps, init, last + future);
      var (s, r) := Run(init);
      FeedValid(ps[|r.out|..], s, last, future);
      RunAccounts(chunks);
      assert Frames(ps) == Frames(Run(chunks).1.out) + (Held(Run(chunks).0) + future);
      PrefixOfFrames(ps, Run(chunks).1.out, Held(Run(chunks).0) + future);
    }
  }

  lemma PrefixOfFrames(ps: seq<RawPacket>, out: seq<RawPacket>, rest: seq<byte>)
    requires AllValid(ps) && AllValid(out) && Frames(ps) == Frames(out) + rest
    ensures out <= ps && rest == Frames(ps[|out|..])
  {
    hide Header, HeaderSize, HeaderType, HeaderNonce;
    ParseFrames(ps, []);
    assert Frames(ps) + [] == Frames(ps);
    ParseFrames(out, rest);
    assert ps == out + Parse(rest);
    FramesConcat(out, ps[|out|..]);
    assert ps == out + ps[|out|..];
    assert (Frames(out) + rest)[|Frames(out)|..] == rest;
  }

  ghost predicate AtLeastTen(ps: seq<RawPacket>) {
    forall i :: 0 <= i < |ps| ==> |ps[i].payload| >= PACKET_HEADER_SIZE
  }

  /** Payloads of ten bytes and more: after every call exactly the complete packets have been handed
      out, so the whole stream in any chunks yields exactly the packets; at most 2015 bytes stay buffered. */
  lemma ChunkingInvariance(ps: seq<RawPacket>, chunks: seq<seq<byte>>, future: seq<byte>)
    requires AllValid(ps) && AtLeastTen(ps) && Concat(chunks) + future == Frames(ps)
    ensures Run(chunks).1 == Packets(Parse(Concat(chunks)))
    ensures future == [] ==> Run(chunks).1 == Packets(ps)
    ensures |Run(chunks).0.buf| < MAX_MESSAGE_SIZE
  {
    hide Header, HeaderSize, HeaderType, HeaderNonce;
    ValidStream(ps, chunks, future);
    RunRefinesParse(chunks);
    var (s, r) := Run(chunks);
    var left := ps[|r.out|..];
    if s.size >= 0 {
      FramesSplit(left, s, future);
      assert left[0] == ps[|r.out|];
    }
    if future == [] {
      ParseFrames(ps, []);
      assert Concat(chunks) == Frames(ps) + [];
    }
  }

  // ---- exactly when a short last packet is held back ----

  /** Offset in the stream at which the last packet's payload begins. */
  ghost function LastPayloadAt(ps: seq<RawPacket>): nat
    requires AllValid(ps) && ps != []
  {
    |Frames(ps[..|ps| - 1])| + PACKET_HEADER_SIZE
  }

  /** Some call ended between the last packet's header and the end of its payload. */
  ghost predicate CutInLastPayload(ps: seq<RawPacket>, chunks: seq<seq<byte>>)
    requires AllValid(ps) && ps != []
  {
    exists k :: 0 <= k <= |chunks|
      && LastPayloadAt(ps) <= |Concat(chunks[..k])| < LastPayloadAt(ps) + |ps[|ps| - 1].payload|
  }

  /** The header of the last packet has been read and the packet has not been handed out. */
  ghost predicate WaitsForLast(ps: seq<RawPacket>, chunks: seq<seq<byte>>) {
    var (s, r) := Run(chunks);
    r.Packets? && |r.out| == |ps| - 1 && s.size >= 0
  }

  lemma WaitingLength(ps: seq<RawPacket>, chunks: seq<seq<byte>>, future: seq<byte>)
    requires AllValid(ps) && ps != [] && Concat(chunks) + future == Frames(ps)
    requires WaitsForLast(ps, chunks)
    ensures Run(chunks).0.size == |ps[|ps| - 1].payload|
    ensures |Concat(chunks)| == LastPayloadAt(ps) + |Run(chunks).0.buf|
  {
    hide Header, HeaderSize, HeaderType, HeaderNonce;
    ValidStream(ps, chunks, future);
    RunAccounts(chunks);
    var (s, r) := Run(chunks);
    FramesSplit(ps[|r.out|..], s, future);
    assert r.out == ps[..|ps| - 1];
  }

  /** With two packets still to come and the last header fed, a whole frame and a header are held. */
  lemma HeldIsLong(ps: seq<RawPacket>, out: seq<RawPacket>, s: State, future: seq<byte>)
    requires AllValid(ps) && out <= ps && |out| < |ps| - 1 && Wf(s)
    requires Frames(ps[|out|..]) == Held(s) + future
    requires |Frames(out) + Held(s)| >= LastPayloadAt(ps)
    ensures |Held(s)| >= |ps[|out|].payload| + 2 * PACKET_HEADER_SIZE
  {
    hide Header, Held;
    var k := |ps| - 1;
    assert ps[..k] == out + ps[|out|..k];
    FramesConcat(out, ps[|out|..k]);
    assert ps[|out|..k][0] == ps[|out|];
  }

  lemma LongIsUnsettled(ps: seq<RawPacket>, out: seq<RawPacket>, s: State, future: seq<byte>)
    requires AllValid(ps) && out <= ps && |out| < |ps| - 1 && Wf(s)
    requires Frames(ps[|out|..]) == Held(s) + future
    requires |Frames(out) + Held(s)| >= LastPayloadAt(ps)
    ensures !Settled(s)
  {
    hide Header, HeaderSize, HeaderType, HeaderNonce, Frames;
    HeldIsLong(ps, out, s, future);
    if s.size >= 0 {
      FramesSplit(ps[|out|..], s, future);
    }
  }

  /** A cut inside the last payload leaves the decoder waiting for it. */
  lemma CutMeansWaiting(ps: seq<RawPacket>, chunks: seq<seq<byte>>, future: seq<byte>)
    requires AllValid(ps) && ps != [] && Concat(chunks) + future == Frames(ps)
    requires LastPayloadAt(ps) <= |Concat(chunks)| < LastPayloadAt(ps) + |ps[|ps| - 1].payload|
    ensures WaitsForLast(ps, chunks)
  {
    hide Header, HeaderSize, HeaderType, HeaderNonce, Run, Concat, Frames, LastPayloadAt;
    ValidStream(ps, chunks, future);
    RunAccounts(chunks);
    FramesOfAll(ps);
    var (s, r) := Run(chunks);
    var out := r.out;
    assert |out| == |ps| ==> out == ps;
    if |r.out| < |ps| - 1 {
      LongIsUnsettled(ps, r.out, s, future);
    } else if |r.out| == |ps| - 1 {
      LastHeld(ps, r.out, s);
    }
  }

  lemma LastHeld(ps: seq<RawPacket>, out: seq<RawPacket>, s: State)
    requires AllValid(ps) && out <= ps && |out| == |ps| - 1 && Wf(s) && Settled(s)
    requires |Frames(out) + Held(s)| >= LastPayloadAt(ps)
    ensures s.size >= 0
  {
    hide Frames, Header;
    assert out == ps[..|ps| - 1];
  }

  /** Every call either returns early with ten bytes missing, or hands out every complete packet. */
  lemma FeedCases(s: State, input: seq<byte>)
    requires Wf(s) && Feed(s, input).1.Packets?
    ensures var (s', r) := Feed(s, input);
            || (|s.buf + input| < PACKET_HEADER_SIZE && s' == s.(buf := s.buf + input) && r == Packets([]))
            || Delayed(s') == []
  {
    var b := s.(buf := s.buf + input);
    if |b.buf| >= PACKET_HEADER_SIZE {
      if b.size < 0 {
        ReadHeaderHeld(b);
        DrainAccounts(ReadHeader(b));
      } else {
        DrainAccounts(b);
      }
    }
  }

  lemma {:induction false} WaitingMeansCut(ps: seq<RawPacket>, chunks: seq<seq<byte>>, future: seq<byte>)
    requires AllValid(ps) && ps != [] && Concat(chunks) + future == Frames(ps)
    requires WaitsForLast(ps, chunks)
    ensures CutInLastPayload(ps, chunks)
  {
    hide Header, Frames, LastPayloadAt, Valid, Feed;
    if chunks == [] { return; }
    var init, last := chunks[..|chunks| - 1], chunks[|chunks| - 1];
    assert Concat(init) + (last + future) == Frames(ps);
    if WaitsForLast(ps, init) {
      WaitingMeansCut(ps, init, last + future);
      CutStays(ps, chunks);
    } else {
      ValidStream(ps, init, last + future);
      WaitingStarts(ps, chunks, future);
    }
  }

  lemma CutStays(ps: seq<RawPacket>, chunks: seq<seq<byte>>)
    requires AllValid(ps) && ps != [] && chunks != [] && CutInLastPayload(ps, chunks[..|chunks| - 1])
    ensures CutInLastPayload(ps, chunks)
  {
    hide Concat, LastPayloadAt, Valid;
    var init := chunks[..|chunks| - 1];
    var k :| 0 <= k <= |init|
      && LastPayloadAt(ps) <= |Concat(init[..k])| < LastPayloadAt(ps) + |ps[|ps| - 1].payload|;
    assert init[..k] == chunks[..k];
  }

  /** The call that reads the last header without handing out its packet ends inside the payload. */
  lemma WaitingStarts(ps: seq<RawPacket>, chunks: seq<seq<byte>>, future: seq<byte>)
    requires AllValid(ps) && ps != [] && chunks != [] && Concat(chunks) + future == Frames(ps)
    requires WaitsForLast(ps, chunks) && !WaitsForLast(ps, chunks[..|chunks| - 1])
    requires Wf(Run(chunks[..|chunks| - 1]).0)
    ensures CutInLastPayload(ps, chunks)
  {
    hide Header, Frames, LastPayloadAt, Concat, Feed;
    var init, last := chunks[..|chunks| - 1], chunks[|chunks| - 1];
    var (s, r) := Run(init);
    var (s', r') := Feed(s, last);
    assert Run(chunks) == (s', Prepend(r.out, r'));
    FeedCases(s, last);
    WaitingLength(ps, chunks, future);
    assert chunks[..|chunks|] == chunks;
  }

  /** A decoder waiting for a last payload under ten bytes returns early from the next call. */
  lemma WaitingStep(ps: seq<RawPacket>, chunks: seq<seq<byte>>, future: seq<byte>)
    requires AllValid(ps) && ps != [] && chunks != [] && Concat(chunks) + future == Frames(ps)
    requires |ps[|ps| - 1].payload| < PACKET_HEADER_SIZE && WaitsForLast(ps, chunks[..|chunks| - 1])
    ensures WaitsForLast(ps, chunks)
  {
    hide Header, Frames, LastPayloadAt, Drain;
    var init, last := chunks[..|chunks| - 1], chunks[|chunks| - 1];
    assert Concat(init) + (last + future) == Frames(ps);
    WaitingLength(ps, init, last + future);
    FramesOfAll(ps);
    assert |Run(init).0.buf + last| < PACKET_HEADER_SIZE;
  }

  lemma {:induction false} WaitingStays(ps: seq<RawPacket>, chunks: seq<seq<byte>>, k: nat, future: seq<byte>)
    requires AllValid(ps) && ps != [] && Concat(chunks) + future == Frames(ps)
    requires |ps[|ps| - 1].payload| < PACKET_HEADER_SIZE
    requires k <= |chunks| && WaitsForLast(ps, chunks[..k])
    ensures WaitsForLast(ps, chunks)
  {
    hide Frames, WaitsForLast, Valid;
    if k == |chunks| {
      assert chunks[..k] == chunks;
    } else {
      var init, last := chunks[..|chunks| - 1], chunks[|chunks| - 1];
      assert init[..k] == chunks[..k];
      assert Concat(init) + (last + future) == Frames(ps);
      WaitingStays(ps, init, k, last + future);
      WaitingStep(ps, chunks, future);
    }
  }

  lemma FramesOfAll(ps: seq<RawPacket>)
    requires AllValid(ps) && ps != []
    ensures |Frames(ps)| == LastPayloadAt(ps) + |ps[|ps| - 1].payload|
  {
    hide Header, HeaderSize, HeaderType, HeaderNonce;
    var k := |ps| - 1;
    assert ps == ps[..k] + [ps[k]];
    FramesConcat(ps[..k], [ps[k]]);
    assert Frames([ps[k]]) == Frame(ps[k]);
  }

  lemma {:induction false} ConcatSplit(chunks: seq<seq<byte>>, k: nat)
    requires k <= |chunks|
    ensures Concat(chunks[..k]) <= Concat(chunks)
  {
    if k == |chunks| {
      assert chunks[..k] == chunks;
    } else {
      var init := chunks[..|chunks| - 1];
      ConcatSplit(init, k);
      assert init[..k] == chunks[..k];
    }
  }

  /** Fed the whole of a valid stream, the decoder hands out every packet if and only if the last
      payload has at least ten bytes or no call ended inside it; otherwise only the last is missing. */
  lemma DeliveryExact(ps: seq<RawPacket>, chunks: seq<seq<byte>>)
    requires AllValid(ps) && ps != [] && Concat(chunks) == Frames(ps)
    ensures Run(chunks).1 == Packets(ps) <==>
            |ps[|ps| - 1].payload| >= PACKET_HEADER_SIZE || !CutInLastPayload(ps, chunks)
    ensures Run(chunks).1 == Packets(ps) || Run(chunks).1 == Packets(ps[..|ps| - 1])
  {
    hide Frames, Parse, Held, Settled, Run, Concat, LastPayloadAt, Valid;
    assert Concat(chunks) + [] == Frames(ps);
    ValidStream(ps, chunks, []);
    RunRefinesParse(chunks);
    ParseFrames(ps, []);
    assert Frames(ps) + [] == Frames(ps);
    var (s, r) := Run(chunks);
    if |ps[|ps| - 1].payload| < PACKET_HEADER_SIZE && CutInLastPayload(ps, chunks) {
      var k :| 0 <= k <= |chunks|
        && LastPayloadAt(ps) <= |Concat(chunks[..k])| < LastPayloadAt(ps) + |ps[|ps| - 1].payload|;
      ConcatSplit(chunks, k);
      CutMeansWaiting(ps, chunks[..k], Frames(ps)[|Concat(chunks[..k])|..]);
      WaitingStays(ps, chunks, k, []);
    }
    if r.out != ps {
      assert ps == r.out + Delayed(s);
      assert ps[|ps| - 1] == Delayed(s)[0];
      WaitingMeansCut(ps, chunks, []);
    }
  }

  /** A payload of two bytes cut in the middle is never handed out. */
  lemma CutPayloadIsHeldBack(frame: seq<byte>)
    requires frame == Frames([RawPacket(3, 7, [1, 2])])
    ensures |frame| == 12 && Run([frame[..11], frame[11..]]).1 == Packets([])
  {
    hide Run, Header;
    var ps := [RawPacket(3, 7, [1, 2])];
    var chunks := [frame[..11], frame[11..]];
    assert ps[1..] == [] && ps[..0] == [];
    var first: seq<seq<byte>> := chunks[..1];
    var none: seq<seq<byte>> := first[..0];
    assert none == [] && Concat(first) == Concat(none) + frame[..11] == frame[..11];
    assert Concat(chunks) == frame;
    assert LastPayloadAt(ps) <= |Concat(chunks[..1])| < LastPayloadAt(ps) + 2;
    DeliveryExact(ps, chunks);
  }

  // ---- the two ways a stream goes wrong ----

  /** Behind the packets that can be parsed, a frame over the limit is complete. */
  ghost predicate Oversized(stream: seq<byte>) {
    CompleteFrame(Unparsed(stream)) && HeaderSize(Unparsed(stream)) > MAX_MESSAGE_SIZE
  }

  lemma OversizedBehind(ps: seq<RawPacket>, rest: seq<byte>)
    requires AllValid(ps)
    ensures Oversized(Frames(ps) + rest) <==> Oversized(rest)
  {
    ParseFrames(ps, rest);
  }

  lemma {:induction false} OversizedStays(stream: seq<byte>, more: seq<byte>)
    requires Oversized(stream)
    ensures Oversized(stream + more)
    decreases |stream|
  {
    var longer := stream + more;
    assert CompleteFrame(stream) && longer[..PACKET_HEADER_SIZE] == stream[..PACKET_HEADER_SIZE];
    if 1 <= HeaderSize(stream) <= MAX_MESSAGE_SIZE {
      var end := PACKET_HEADER_SIZE + HeaderSize(stream);
      assert longer[end..] == stream[end..] + more;
      OversizedStays(stream[end..], more);
    }
  }

  lemma SettledNotOversized(s: State)
    requires Wf(s) && Settled(s)
    ensures !Oversized(Held(s))
  {
    if s.size >= 0 {
      HeaderRoundTrip(s.nonce, s.typ, s.size, s.buf);
      if 0 < s.size <= |s.buf| {
        var end := PACKET_HEADER_SIZE + s.size;
        var rest := Held(s)[end..];
        assert |rest| < PACKET_HEADER_SIZE && Unparsed(rest) == rest;
        assert Unparsed(Held(s)) == Unparsed(rest);
      }
    }
  }

  /** The loop fails exactly when what the decoder holds is oversized; its packets are dropped. */
  lemma {:induction false} DrainOversize(s: State)
    requires Wf(s) && s.size >= 0
    ensures Drain(s).1.SizeExceeded? <==> Oversized(Held(s))
    decreases |s.buf|
  {
    hide Header, Frame;
    HeaderRoundTrip(s.nonce, s.typ, s.size, s.buf);
    if 0 < s.size <= |s.buf| && s.size <= MAX_MESSAGE_SIZE {
      AfterPayloadHeld(s);
      var p := RawPacket(s.typ, s.nonce, s.buf[..s.size]);
      var next := AfterPayload(s);
      assert ([p])[1..] == [];
      assert Frames([p]) == Frame(p);
      OversizedBehind([p], Held(next));
      if next.size >= 0 {
        DrainOversize(next);
      }
    }
  }

  lemma FeedOversize(s: State, input: seq<byte>)
    requires Wf(s) && Feed(s, input).1.SizeExceeded?
    ensures Oversized(Held(s) + input)
  {
    hide Oversized, Drain;
    var b := s.(buf := s.buf + input);
    assert Held(b) == Held(s) + input;
    if b.size < 0 {
      ReadHeaderHeld(b);
      DrainOversize(ReadHeader(b));
    } else {
      DrainOversize(b);
    }
  }

  /** For every byte stream and every chunking, some call fails if and only if the stream, behind the
      packets that parse, holds a complete frame over the limit: errors do not depend on the chunks. */
  lemma {:induction false} OversizeExact(chunks: seq<seq<byte>>)
    ensures Run(chunks).1.SizeExceeded? <==> Oversized(Concat(chunks))
  {
    hide Oversized, Feed, Frame, Frames, Settled, Held;
    RunAccounts(chunks);
    var (s', r') := Run(chunks);
    if r'.Packets? {
      SettledNotOversized(s');
      OversizedBehind(r'.out, Held(s'));
    } else {
      var init, last := chunks[..|chunks| - 1], chunks[|chunks| - 1];
      RunAccounts(init);
      var (s, r) := Run(init);
      if r.SizeExceeded? {
        OversizeExact(init);
        OversizedStays(Concat(init), last);
      } else {
        FeedOversize(s, last);
        OversizedBehind(r.out, Held(s) + last);
        assert Concat(chunks) == Frames(r.out) + (Held(s) + last);
      }
    }
  }

  /** Behind the packets that can be parsed there is a header of size zero. */
  ghost predicate Stalls(stream: seq<byte>) {
    |Unparsed(stream)| >= PACKET_HEADER_SIZE && HeaderSize(Unparsed(stream)) == 0
  }

  lemma StallsBehind(ps: seq<RawPacket>, rest: seq<byte>)
    requires AllValid(ps)
    ensures Stalls(Frames(ps) + rest) <==> Stalls(rest)
  {
    ParseFrames(ps, rest);
  }

  lemma SettledStalls(s: State)
    requires Wf(s) && Settled(s)
    ensures Stalls(Held(s)) <==> s.size == 0
  {
    if s.size >= 0 {
      HeaderRoundTrip(s.nonce, s.typ, s.size, s.buf);
      if 0 < s.size <= |s.buf| {
        var rest := Held(s)[PACKET_HEADER_SIZE + s.size..];
        assert |rest| < PACKET_HEADER_SIZE && Unparsed(rest) == rest;
        assert Unparsed(Held(s)) == Unparsed(rest);
      }
    }
  }

  /** The decoder is stuck on an empty payload if and only if the bytes fed say so. */
  lemma StuckExact(chunks: seq<seq<byte>>)
    requires Run(chunks).1.Packets?
    ensures Run(chunks).0.size == 0 <==> Stalls(Concat(chunks))
  {
    hide Stalls, Settled, Held, Frames;
    RunAccounts(chunks);
    var (s, r) := Run(chunks);
    SettledStalls(s);
    StallsBehind(r.out, Held(s));
  }

  lemma {:induction false} StuckForGood(chunks: seq<seq<byte>>, more: seq<seq<byte>>)
    requires Run(chunks).1.Packets? && Run(chunks).0.size == 0
    ensures Run(chunks + more).1 == Run(chunks).1
    ensures Run(chunks + more).0.size == 0
  {
    if more == [] {
      assert chunks + more == chunks;
    } else {
      var init := more[..|more| - 1];
      StuckForGood(chunks, init);
      assert (chunks + more)[..|chunks + more| - 1] == chunks + init;
    }
  }

  lemma PositiveSize(h: seq<byte>)
    requires |h| >= PACKET_HEADER_SIZE && h[9] > 0
    ensures HeaderSize(h) > 0
  {
    assert h[6..10][3] == h[9];
  }

  /** A decoder that is not stuck hands out a packet, or fails, once enough bytes arrive. */
  lemma EnoughMoves(s: State) returns (input: seq<byte>)
    requires Wf(s) && Settled(s) && s.size != 0
    ensures Feed(s, input).1 != Packets([])
  {
    hide HeaderSize, HeaderType, HeaderNonce;
    if s.size > 0 {
      input := seq(s.size + PACKET_HEADER_SIZE, _ => 0);
    } else {
      var filler := seq(9 - |s.buf|, _ => 0) + [1];
      var h := s.buf + filler;
      PositiveSize(h);
      var payload: seq<byte> := seq(HeaderSize(h), _ => 0);
      SameHeader(h, payload);
      input := filler + payload;
      assert s.buf + input == h + payload;
    }
  }

  /** For every stream and every chunking without an error: whatever arrives next, no packet and no error
      ever comes out again, if and only if a header of size zero follows the packets that parse. */
  lemma ZeroLengthStalls(chunks: seq<seq<byte>>)
    requires Run(chunks).1.Packets?
    ensures (forall more :: Run(chunks + more).1 == Run(chunks).1) <==> Stalls(Concat(chunks))
  {
    hide Stalls, Feed;
    StuckExact(chunks);
    if Run(chunks).0.size == 0 {
      forall more ensures Run(chunks + more).1 == Run(chunks).1 {
        StuckForGood(chunks, more);
      }
    } else {
      RunAccounts(chunks);
      var input := EnoughMoves(Run(chunks).0);
      var longer := chunks + [input];
      assert longer[..|longer| - 1] == chunks;
      assert Run(longer).1 != Run(chunks).1;
    }
  }

  // ---- streams of the encoder with empty payloads ----

  ghost predicate Sized(ps: seq<RawPacket>) {
    forall i :: 0 <= i < |ps| ==> |ps[i].payload| <= MAX_MESSAGE_SIZE
  }

  /** The encoder's output for payloads of 0 to 2016 bytes. */
  ghost function Encoded(ps: seq<RawPacket>): seq<byte>
    requires Sized(ps)
  {
    if ps == [] then [] else Header(ps[0].nonce, ps[0].typ, |ps[0].payload|) + ps[0].payload + Encoded(ps[1..])
  }

  /** The position of the first empty payload, or the number of packets. */
  ghost function FirstEmpty(ps: seq<RawPacket>): (n: nat)
    ensures n <= |ps| && (n < |ps| ==> ps[n].payload == [])
    ensures forall i :: 0 <= i < n ==> ps[i].payload != []
  {
    if ps == [] || ps[0].payload == [] then 0 else 1 + FirstEmpty(ps[1..])
  }

  /** What the encoder writes from the first empty payload on. */
  ghost function Tail(ps: seq<RawPacket>): seq<byte>
    requires Sized(ps)
  {
    Encoded(ps[FirstEmpty(ps)..])
  }

  lemma {:induction false} EncodedSplits(ps: seq<RawPacket>)
    requires Sized(ps)
    ensures AllValid(ps[..FirstEmpty(ps)]) && Encoded(ps) == Frames(ps[..FirstEmpty(ps)]) + Tail(ps)
  {
    hide Header, Frames;
    if ps == [] || ps[0].payload == [] {
      assert ps[0..] == ps && ps[..0] == [];
      FramesNil(Tail(ps));
    } else {
      var n, rest := FirstEmpty(ps), ps[1..];
      EncodedSplits(rest);
      assert ps[..n] == [ps[0]] + rest[..n - 1] && rest[n - 1..] == ps[n..];
      FramesCons(ps[0], rest[..n - 1]);
      assert Encoded(ps) == Frame(ps[0]) + (Frames(rest[..n - 1]) + Tail(rest));
    }
  }

  /** Any part of the tail parses to nothing, is not oversized, and stalls once its header is complete. */
  lemma TailParses(ps: seq<RawPacket>, part: seq<byte>)
    requires Sized(ps) && part <= Tail(ps)
    ensures Parse(part) == [] && !Oversized(part)
    ensures Stalls(part) <==> |part| >= PACKET_HEADER_SIZE
  {
    hide Header;
    var rest := ps[FirstEmpty(ps)..];
    if rest != [] && |part| >= PACKET_HEADER_SIZE {
      assert rest[0].payload == [];
      var h := Header(rest[0].nonce, rest[0].typ, 0);
      assert part == h + part[PACKET_HEADER_SIZE..];
      HeaderRoundTrip(rest[0].nonce, rest[0].typ, 0, part[PACKET_HEADER_SIZE..]);
    }
  }

  lemma SameHeader(stream: seq<byte>, more: seq<byte>)
    requires |stream| >= PACKET_HEADER_SIZE
    ensures var longer := stream + more;
            HeaderSize(longer) == HeaderSize(stream) && HeaderType(longer) == HeaderType(stream)
            && HeaderNonce(longer) == HeaderNonce(stream)
  {
    hide GetU32, GetU16, Xor16;
    var longer := stream + more;
    assert longer[..4] == stream[..4] && longer[4..6] == stream[4..6] && longer[6..10] == stream[6..10];
  }

  lemma {:induction false} ParsePrefix(stream: seq<byte>, more: seq<byte>)
    ensures Parse(stream) <= Parse(stream + more)
    decreases |stream|
  {
    hide HeaderSize, HeaderType, HeaderNonce;
    var longer := stream + more;
    if CompleteFrame(stream) && 1 <= HeaderSize(stream) <= MAX_MESSAGE_SIZE {
      var end := PACKET_HEADER_SIZE + HeaderSize(stream);
      SameHeader(stream, more);
      assert longer[PACKET_HEADER_SIZE..end] == stream[PACKET_HEADER_SIZE..end];
      assert longer[end..] == stream[end..] + more;
      ParsePrefix(stream[end..], more);
    }
  }

  lemma FedSplits(fed: seq<byte>, future: seq<byte>, frames: seq<byte>, tail: seq<byte>)
    requires fed + future == frames + tail && |fed| >= |frames|
    ensures fed == frames + fed[|frames|..] && fed[|frames|..] <= tail
  {
    var whole := fed + future;
    assert fed == whole[..|fed|] && frames == whole[..|frames|] && tail == whole[|frames|..];
  }

  /** Fed any part of what the encoder wrote for payloads of 0 to 2016 bytes, in any chunks: no call
      fails, nothing from the first empty payload on is ever handed out, and once its header has been
      fed the output is exactly the packets before it. */
  lemma EmptyPayloadStops(ps: seq<RawPacket>, chunks: seq<seq<byte>>, future: seq<byte>)
    requires Sized(ps) && Concat(chunks) + future == Encoded(ps)
    ensures Run(chunks).1.Packets? && Run(chunks).1.out <= ps[..FirstEmpty(ps)]
    ensures FirstEmpty(ps) < |ps| && |Concat(chunks)| >= |Encoded(ps)| - |Tail(ps)| + PACKET_HEADER_SIZE ==>
              Run(chunks).1 == Packets(ps[..FirstEmpty(ps)])
  {
    hide Oversized, Stalls, Parse, Encoded, Frames, Tail, Run, Concat;
    EncodedSplits(ps);
    var fed, before := Concat(chunks), ps[..FirstEmpty(ps)];
    NoErrorInTail(ps, chunks, future);
    RunRefinesParse(chunks);
    ParsePrefix(fed, future);
    ParseFrames(before, Tail(ps));
    TailParses(ps, Tail(ps));
    assert Parse(fed) <= before;
    if |fed| >= |Frames(before)| + PACKET_HEADER_SIZE {
      FedSplits(fed, future, Frames(before), Tail(ps));
      var part := fed[|Frames(before)|..];
      TailParses(ps, part);
      ParseFrames(before, part);
      StallsBehind(before, part);
      StuckExact(chunks);
    }
  }

  lemma NoErrorInTail(ps: seq<RawPacket>, chunks: seq<seq<byte>>, future: seq<byte>)
    requires Sized(ps) && Concat(chunks) + future == Encoded(ps)
    ensures Run(chunks).1.Packets?
  {
    hide Oversized, Encoded, Frames, Tail, Run, Concat;
    OversizeExact(chunks);
    if Oversized(Concat(chunks)) {
      OversizedStays(Concat(chunks), future);
      EncodedSplits(ps);
      OversizedBehind(ps[..FirstEmpty(ps)], Tail(ps));
      TailParses(ps, Tail(ps));
    }
  }

  /** One empty payload loses the packet behind it, however the two frames are chunked. */
  lemma EmptyPayloadLosesTheNext(chunks: seq<seq<byte>>)
    requires Concat(chunks) == Encoded([RawPacket(3, 7, []), RawPacket(3, 8, seq(20, _ => 1))])
    ensures Run(chunks).1 == Packets([])
  {
    hide Run, Concat;
    var ps := [RawPacket(3, 7, []), RawPacket(3, 8, seq(20, _ => 1))];
    assert FirstEmpty(ps) == 0 && ps[0..] == ps;
    assert Concat(chunks) + [] == Encoded(ps);
    EmptyPayloadStops(ps, chunks, []);
  }

  /** One whole frame in one call is handed out up to 2016 bytes of payload and refused above. */
  lemma OneFrame(nonce: uint32, typ: uint16, payload: seq<byte>)
    requires 1 <= |payload| < 0x1_0000_0000
    ensures Run([Header(nonce, typ, |payload|) + payload]).1 ==
            if |payload| <= 2016 then Packets([RawPacket(typ, nonce, payload)]) else SizeExceeded
  {
    hide Header, HeaderSize, HeaderType, HeaderNonce;
    var frame := Header(nonce, typ, |payload|) + payload;
    HeaderRoundTrip(nonce, typ, |payload|, payload);
    var none: seq<seq<byte>> := [frame][..0];
    assert none == [] && NEW_CODEC.buf + frame == frame;
    var s := ReadHeader(State(frame, -1, 0, 0));
    assert s == State(payload, |payload|, typ, nonce);
    assert payload[..|payload|] == payload;
    var r := Drain(s).1;
    assert Run([frame]).1 == Prepend([], r);
    if |payload| <= 2016 {
      var p := RawPacket(typ, nonce, payload);
      assert AfterPayload(s).size == -1 && Drain(AfterPayload(s)).1 == Packets([]);
      assert r == Prepend([p], Packets([]));
      assert [p] + [] == [p];
    }
  }
}
