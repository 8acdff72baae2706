/** The UDP datagram of the mesh: `nonce | masked type | masked peer id | ciphertext`. */
module PeerCodec {
  import opened Bytes

  const FRAGMENT_HEADER_SIZE := 14

  datatype Fragment = Fragment(nonce: uint32, typ: uint16, peerID: uint64, payload: seq<byte>)

  function TypeMask(nonce: uint32): uint16 {
    nonce % 0x1_0000
  }

  /** The nonce in the low half and its complement in the high half. */
  function PeerMask(nonce: uint32): uint64 {
    nonce + (0xFFFF_FFFF_FFFF_FFFF - nonce) * 0x1_0000_0000 % 0x1_0000_0000_0000_0000
  }

  ghost function Layout(nonce: uint32, typ: int, peerID: uint64, payload: seq<byte>): seq<byte> {
    PutU32(nonce) + PutU16(Xor16(typ % 0x1_0000, TypeMask(nonce)))
    + PutU64(Xor64(peerID, PeerMask(nonce))) + payload
  }

  method Encode(nonce: uint32, typ: int, peerID: uint64, encrypted: seq<byte>) returns (buffer: seq<byte>)
    ensures Decode(buffer) == Some(Fragment(nonce, typ % 0x1_0000, peerID, encrypted))
    ensures buffer == Layout(nonce, typ, peerID, encrypted)
    ensures WireFragment(buffer, nonce, typ % 0x1_0000, peerID, encrypted)
  {
    hide PutU16, PutU32, PutU64, Xor16, Xor64, Decode, PeerMask, WireFragment;
    LayoutOnTheWire(nonce, typ, peerID, encrypted);
    var a := new byte[FRAGMENT_HEADER_SIZE + |encrypted|];
    var newtyp := Xor16(typ % 0x1_0000, TypeMask(nonce));
    var newpid := Xor64(peerID, PeerMask(nonce));
    Store(a, 0, PutU32(nonce));
    Store(a, 4, PutU16(newtyp));
    assert a[..6] == PutU32(nonce) + PutU16(newtyp);
    Store(a, FRAGMENT_HEADER_SIZE - 8, PutU64(newpid));
    assert a[..14] == PutU32(nonce) + PutU16(newtyp) + PutU64(newpid);
    Store(a, FRAGMENT_HEADER_SIZE, encrypted);
    buffer := a[..];
    assert buffer == Layout(nonce, typ, peerID, encrypted);
    DecodeInvertsEncode(nonce, typ, peerID, encrypted);
  }

  function Decode(data: seq<byte>): Option<Fragment> {
    if |data| < FRAGMENT_HEADER_SIZE then None
    else
      var nonce := GetU32(data[..4]);
      Some(Fragment(nonce, Xor16(GetU16(data[4..6]), TypeMask(nonce)),
                    Xor64(GetU64(data[6..14]), PeerMask(nonce)), data[FRAGMENT_HEADER_SIZE..]))
  }

  /** For every nonce, type, peer id and ciphertext: decoding gives back all of them, the type modulo 2^16. */
  lemma DecodeInvertsEncode(nonce: uint32, typ: int, peerID: uint64, payload: seq<byte>)
    ensures Decode(Layout(nonce, typ, peerID, payload)) == Some(Fragment(nonce, typ % 0x1_0000, peerID, payload))
  {
    hide PutU16, PutU32, PutU64, GetU16, GetU32, GetU64, Xor16, Xor64, PeerMask;
    var data := Layout(nonce, typ, peerID, payload);
    var newtyp, newpid := Xor16(typ % 0x1_0000, TypeMask(nonce)), Xor64(peerID, PeerMask(nonce));
    assert data[..4] == PutU32(nonce) && data[4..6] == PutU16(newtyp) && data[6..14] == PutU64(newpid);
    U32RoundTrip(nonce, data[..4]);
    U16RoundTrip(newtyp, data[4..6]);
    U64RoundTrip(newpid, data[6..14]);
    Xor16Twice(typ % 0x1_0000, TypeMask(nonce));
    Xor64Twice(peerID, PeerMask(nonce));
  }

  /** Conversely every datagram of at least fourteen bytes is the encoding of what it decodes to. */
  lemma EncodeInvertsDecode(data: seq<byte>)
    ensures Decode(data).Some? <==> |data| >= FRAGMENT_HEADER_SIZE
    ensures Decode(data).Some? ==>
              var f := Decode(data).value;
              Layout(f.nonce, f.typ, f.peerID, f.payload) == data
  {
    hide PutU16, PutU32, PutU64, GetU16, GetU32, GetU64, Xor16, Xor64, PeerMask;
    if |data| >= FRAGMENT_HEADER_SIZE {
      var nonce := GetU32(data[..4]);
      U32RoundTrip(nonce, data[..4]);
      U16RoundTrip(0, data[4..6]);
      U64RoundTrip(0, data[6..14]);
      Xor16Twice(GetU16(data[4..6]), TypeMask(nonce));
      Xor64Twice(GetU64(data[6..14]), PeerMask(nonce));
      assert data == data[..4] + data[4..6] + data[6..14] + data[14..];
    }
  }

  // ---- on the wire ----

  /** The peer id's low half is flipped where the nonce has a one, its high half where it has a zero. */
  ghost predicate MaskedPeer(x: nat, peerID: nat, nonce: nat) {
    MaskedBits(x, peerID, nonce, 32)
    && forall k :: 0 <= k < 32 ==> Bit(x, 32 + k) == if Bit(peerID, 32 + k) == Bit(nonce, k) then 1 else 0
  }

  /** Nonce, masked type and masked peer id, most significant byte first, then the ciphertext. */
  ghost predicate WireFragment(b: seq<byte>, nonce: uint32, typ: nat, peerID: uint64, payload: seq<byte>) {
    |b| >= FRAGMENT_HEADER_SIZE && BigEndian(b[..4]) == nonce && MaskedBits(BigEndian(b[4..6]), typ, nonce, 16)
    && MaskedPeer(BigEndian(b[6..14]), peerID, nonce) && b[FRAGMENT_HEADER_SIZE..] == payload
  }

  lemma PeerMaskBits(nonce: uint32, k: nat)
    requires k < 32
    ensures Bit(PeerMask(nonce), k) == Bit(nonce, k) && Bit(PeerMask(nonce), 32 + k) == 1 - Bit(nonce, k)
  {
    hide Bit, Shifted, Pow2;
    Pow2Values();
    var m := PeerMask(nonce);
    var c := 0xFFFF_FFFF - nonce;
    assert (0xFFFF_FFFF_FFFF_FFFF - nonce) * 0x1_0000_0000 % 0x1_0000_0000_0000_0000 == c * 0x1_0000_0000;
    assert m % 0x1_0000_0000 == nonce && m / 0x1_0000_0000 == c;
    LowBits(m, 32, k);
    HighBits(m, 32, k);
    ShiftedDivides(m, 32);
    ComplementBits(nonce, 32, k);
  }

  lemma PeerMasked(peerID: uint64, nonce: uint32)
    ensures MaskedPeer(Xor64(peerID, PeerMask(nonce)), peerID, nonce)
  {
    hide Bit, PeerMask, Xor, Pow2;
    var m := PeerMask(nonce);
    var x := Xor64(peerID, m);
    forall k | 0 <= k < 32
      ensures Bit(x, k) == if Bit(peerID, k) == Bit(nonce, k) then 0 else 1
      ensures Bit(x, 32 + k) == if Bit(peerID, 32 + k) == Bit(nonce, k) then 1 else 0
    {
      PeerMaskBits(nonce, k);
      XorBits(peerID, m, k);
      XorBits(peerID, m, 32 + k);
      BitRange(peerID, 32 + k);
      BitRange(nonce, k);
    }
  }

  lemma BitRange(a: nat, k: nat)
    ensures Bit(a, k) in {0, 1}
  {
  }

  lemma LayoutOnTheWire(nonce: uint32, typ: int, peerID: uint64, payload: seq<byte>)
    ensures WireFragment(Layout(nonce, typ, peerID, payload), nonce, typ % 0x1_0000, peerID, payload)
  {
    hide PutU16, PutU32, PutU64, BigEndian, Xor, MaskedBits, MaskedPeer, PeerMask, Pow2;
    var b := Layout(nonce, typ, peerID, payload);
    var newtyp, newpid := Xor16(typ % 0x1_0000, TypeMask(nonce)), Xor64(peerID, PeerMask(nonce));
    assert b[..4] == PutU32(nonce) && b[4..6] == PutU16(newtyp) && b[6..14] == PutU64(newpid);
    WrittenBigEndian32(nonce);
    WrittenBigEndian16(newtyp);
    WrittenBigEndian64(newpid);
    Pow2Values();
    XorMasksLow(typ % 0x1_0000, nonce, 16);
    PeerMasked(peerID, nonce);
  }

  /** What any datagram decodes to, bit by bit. */
  lemma DecodeReadsTheWire(data: seq<byte>)
    requires |data| >= FRAGMENT_HEADER_SIZE
    ensures var f := Decode(data).value;
            f.nonce == BigEndian(data[..4]) && MaskedBits(f.typ, BigEndian(data[4..6]), f.nonce, 16)
            && MaskedPeer(f.peerID, BigEndian(data[6..14]), f.nonce) && f.payload == data[FRAGMENT_HEADER_SIZE..]
  {
    hide GetU16, GetU32, GetU64, BigEndian, Xor, MaskedBits, MaskedPeer, PeerMask, Pow2;
    ReadBigEndian32(data[..4]);
    ReadBigEndian16(data[4..6]);
    ReadBigEndian64(data[6..14]);
    Pow2Values();
    XorMasksLow(GetU16(data[4..6]), GetU32(data[..4]), 16);
    PeerMasked(GetU64(data[6..14]), GetU32(data[..4]));
  }
}
