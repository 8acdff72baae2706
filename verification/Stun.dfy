/** STUN binding requests and responses (RFC 5389): building, walking the attributes, parsing. */
module Stun {
  import opened Bytes

  const ATTR_SOFTWARE: uint16 := 0x8022
  const ATTR_FINGERPRINT: uint16 := 0x8028
  const ATTR_MAPPED_ADDRESS: uint16 := 0x0001
  const ATTR_XOR_MAPPED_ADDRESS: uint16 := 0x0020
  const ATTR_XOR_MAPPED_ADDRESS_ALT: uint16 := 0x8020

  /** The ASCII bytes of "meshnode". */
  const SOFTWARE: seq<byte> := [0x6D, 0x65, 0x73, 0x68, 0x6E, 0x6F, 0x64, 0x65]
  const BINDING_REQUEST: seq<byte> := [0x00, 0x01]
  const BINDING_SUCCESS: seq<byte> := [0x01, 0x01]
  const MAGIC_COOKIE: seq<byte> := [0x21, 0x12, 0xA4, 0x42]
  const LEN_FINGERPRINT := 8
  const HEADER_LEN := 20

  type TxID = s: seq<byte> | |s| == 12 witness [0, 0, 0, 0, 0, 0, 0, 0, 0, 0, 0, 0]
  const ZERO_TX: TxID := [0, 0, 0, 0, 0, 0, 0, 0, 0, 0, 0, 0]

  datatype Error = NotStun | NotSuccessResponse | MalformedAttrs | NotBindingRequest
                 | WrongSoftware | NoFingerprint | WrongFingerprint
  datatype Attr = Attr(typ: uint16, value: seq<byte>)
  datatype Address = Address(ip: seq<byte>, port: uint16)
  datatype Parsed = Ok(tx: TxID, addr: Address) | Fail(tx: TxID, error: Error)
  datatype Bound = Accepted(tx: TxID) | Refused(error: Error)

  /** At least a header, the top two bits of the first byte clear, and the cookie in place. */
  predicate Is(b: seq<byte>) {
    |b| >= HEADER_LEN && b[0] < 0x40 && b[4..8] == MAGIC_COOKIE
  }

  // ---- attributes: type, length, value padded to four bytes ----

  function Padded(n: nat): nat {
    n + 3 - (n + 3) % 4
  }

  lemma PaddedBounds(n: nat)
    ensures n <= Padded(n) < n + 4
  {
  }

  datatype Walked = Walked(attrs: seq<Attr>, ok: bool)

  /** The attributes visited, in order, and whether the walk reached the end. */
  function Walk(b: seq<byte>): Walked
    decreases |b|
  {
    if b == [] then Walked([], true)
    else if |b| < 4 || Padded(GetU16(b[2..4])) > |b| - 4 then Walked([], false)
    else
      var len := GetU16(b[2..4]);
      var r := Walk(b[4 + Padded(len)..]);
      Walked([Attr(GetU16(b[..2]), b[4..4 + len])] + r.attrs, r.ok)
  }

  /** One iteration of the walk: stop at malformed bytes, or visit one attribute and go on. */
  lemma WalkStep(b: seq<byte>)
    requires b != []
    ensures |b| < 4 || Padded(GetU16(b[2..4])) > |b| - 4 ==> Walk(b) == Walked([], false)
    ensures |b| >= 4 && Padded(GetU16(b[2..4])) <= |b| - 4 ==>
              var len := GetU16(b[2..4]);
              len <= Padded(len) && 4 + Padded(len) <= |b|
              && var rest := Walk(b[4..][Padded(len)..]);
              Walk(b) == Walked([Attr(GetU16(b[..2]), b[4..][..len])] + rest.attrs, rest.ok)
  {
    hide GetU16, Padded;
    if |b| >= 4 {
      var len := GetU16(b[2..4]);
      PaddedBounds(len);
      if Padded(len) <= |b| - 4 {
        assert b[4..][Padded(len)..] == b[4 + Padded(len)..] && b[4..][..len] == b[4..4 + len];
      }
    }
  }

  ghost predicate Encodable(a: Attr, pad: seq<byte>) {
    |a.value| < 0x1_0000 && |a.value| + |pad| == Padded(|a.value|)
  }

  ghost predicate AllEncodable(attrs: seq<Attr>, pads: seq<seq<byte>>) {
    |attrs| == |pads| && forall i :: 0 <= i < |attrs| ==> Encodable(attrs[i], pads[i])
  }

  ghost function AttrBytes(a: Attr, pad: seq<byte>): seq<byte>
    requires Encodable(a, pad)
  {
    PutU16(a.typ) + PutU16(|a.value|) + a.value + pad
  }

  ghost function AttrsBytes(attrs: seq<Attr>, pads: seq<seq<byte>>): seq<byte>
    requires AllEncodable(attrs, pads)
  {
    if attrs == [] then [] else AttrBytes(attrs[0], pads[0]) + AttrsBytes(attrs[1..], pads[1..])
  }

  lemma AttrHead(a: Attr, pad: seq<byte>, rest: seq<byte>)
    requires Encodable(a, pad)
    ensures var b := AttrBytes(a, pad) + rest;
            |b| >= 4 && GetU16(b[..2]) == a.typ && GetU16(b[2..4]) == |a.value|
            && 4 + Padded(|a.value|) <= |b|
            && b[4..4 + |a.value|] == a.value && b[4 + Padded(|a.value|)..] == rest
  {
    hide PutU16, GetU16, Padded;
    var b := AttrBytes(a, pad) + rest;
    assert b[..2] == PutU16(a.typ) && b[2..4] == PutU16(|a.value|);
    U16RoundTrip(a.typ, b[..2]);
    U16RoundTrip(|a.value|, b[2..4]);
  }

  /** Every attribute list, padded with arbitrary bytes, is visited exactly and in order. */
  lemma {:induction false} WalkVisitsAll(attrs: seq<Attr>, pads: seq<seq<byte>>)
    requires AllEncodable(attrs, pads)
    ensures Walk(AttrsBytes(attrs, pads)) == Walked(attrs, true)
  {
    hide AttrBytes, GetU16, Padded;
    if attrs != [] {
      AttrHead(attrs[0], pads[0], AttrsBytes(attrs[1..], pads[1..]));
      WalkVisitsAll(attrs[1..], pads[1..]);
      assert attrs == [attrs[0]] + attrs[1..];
    }
  }

  lemma AttrRebuild(b: seq<byte>)
    requires |b| >= 4 && Padded(GetU16(b[2..4])) <= |b| - 4
    ensures var len := GetU16(b[2..4]);
            var end := 4 + Padded(len);
            len <= Padded(len)
            && var a, pad := Attr(GetU16(b[..2]), b[4..4 + len]), b[4 + len..end];
            Encodable(a, pad) && b == AttrBytes(a, pad) + b[end..]
  {
    hide GetU16, PutU16;
    U16RoundTrip(0, b[..2]);
    U16RoundTrip(0, b[2..4]);
    var len := GetU16(b[2..4]);
    var end := 4 + Padded(len);
    assert b == b[..2] + b[2..4] + b[4..4 + len] + b[4 + len..end] + b[end..];
  }

  /** Conversely, a byte string is walked to its end only if it is such an encoding. */
  lemma {:induction false} WalkedIsEncoding(b: seq<byte>) returns (pads: seq<seq<byte>>)
    requires Walk(b).ok
    ensures AllEncodable(Walk(b).attrs, pads) && b == AttrsBytes(Walk(b).attrs, pads)
    decreases |b|
  {
    hide GetU16, Padded, AttrBytes, Encodable;
    pads := [];
    if b != [] {
      AttrRebuild(b);
      var len := GetU16(b[2..4]);
      var end := 4 + Padded(len);
      var tail := WalkedIsEncoding(b[end..]);
      pads := [b[4 + len..end]] + tail;
      assert Walk(b).attrs[1..] == Walk(b[end..]).attrs && pads[1..] == tail;
    }
  }

  // ---- address attributes ----

  function FamilyAddrLen(family: byte): (n: nat)
    ensures n in {0, 4, 16}
  {
    if family == 1 then 4 else if family == 2 then 16 else 0
  }

  function MappedAddress(b: seq<byte>): (r: Option<Address>)
    ensures r.Some? ==> |r.value.ip| in {4, 16}
  {
    if |b| < 4 then None
    else
      var n := FamilyAddrLen(b[1]);
      if n == 0 || |b| - 4 < n then None else Some(Address(b[4..4 + n], GetU16(b[2..4])))
  }

  /** The address masked byte by byte with the cookie followed by the transaction id. */
  function Mask(tx: TxID, ip: seq<byte>): seq<byte>
    requires |ip| <= 16
  {
    seq(|ip|, i requires 0 <= i < |ip| => Xor8(ip[i], (MAGIC_COOKIE + tx)[i]))
  }

  lemma MaskTwice(tx: TxID, ip: seq<byte>)
    requires |ip| <= 16
    ensures Mask(tx, Mask(tx, ip)) == ip
  {
    hide Xor8;
    var k := MAGIC_COOKIE + tx;
    forall i | 0 <= i < |ip| ensures Mask(tx, Mask(tx, ip))[i] == ip[i] {
      Xor8Twice(ip[i], k[i]);
    }
  }

  function XorMappedAddress(tx: TxID, b: seq<byte>): (r: Option<Address>)
    ensures r.Some? ==> |r.value.ip| in {4, 16}
  {
    if MappedAddress(b).None? then None
    else
      var Address(ip, port) := MappedAddress(b).value;
      Some(Address(Mask(tx, ip), Xor16(port, 0x2112)))
  }

  method ReadXorMappedAddress(tx: TxID, b: seq<byte>) returns (r: Option<Address>)
    ensures r == XorMappedAddress(tx, b)
  {
    hide Xor8, Xor16, GetU16;
    if |b| < 4 {
      return None;
    }
    var port := Xor16(GetU16(b[2..4]), 0x2112);
    var addrField := b[4..];
    var addrLen := FamilyAddrLen(b[1]);
    if addrLen == 0 || |addrField| < addrLen {
      return None;
    }
    var xorAddr := addrField[..addrLen];
    assert xorAddr == b[4..4 + addrLen];
    var addr: seq<byte> := [];
    for i := 0 to addrLen
      invariant addr == Mask(tx, xorAddr)[..i]
    {
      addr := addr + [Xor8(xorAddr[i], if i < 4 then MAGIC_COOKIE[i] else tx[i - 4])];
    }
    assert addr == Mask(tx, xorAddr);
    assert MappedAddress(b) == Some(Address(xorAddr, GetU16(b[2..4])));
    return Some(Address(addr, port));
  }

  // ---- parsing a response ----

  datatype Kind = Xored | Plain | Other

  function KindOf(a: Attr): Kind {
    if a.typ == ATTR_XOR_MAPPED_ADDRESS || a.typ == ATTR_XOR_MAPPED_ADDRESS_ALT then Xored
    else if a.typ == ATTR_MAPPED_ADDRESS then Plain
    else Other
  }

  function AddressOf(tx: TxID, a: Attr): Option<Address> {
    match KindOf(a)
    case Xored => XorMappedAddress(tx, a.value)
    case Plain => MappedAddress(a.value)
    case Other => None
  }

  ghost predicate WellFormed(tx: TxID, a: Attr) {
    KindOf(a).Other? || AddressOf(tx, a).Some?
  }

  ghost predicate AllWellFormed(tx: TxID, attrs: seq<Attr>) {
    forall i :: 0 <= i < |attrs| ==> WellFormed(tx, attrs[i])
  }

  ghost predicate Carries(tx: TxID, a: Attr, kind: Kind, len: nat) {
    KindOf(a) == kind && AddressOf(tx, a).Some? && |AddressOf(tx, a).value.ip| == len
  }

  /** The address of the last attribute of the given kind and length. */
  ghost function LastOf(tx: TxID, attrs: seq<Attr>, kind: Kind, len: nat): Option<Address> {
    if attrs == [] then None
    else
      var n := |attrs| - 1;
      if Carries(tx, attrs[n], kind, len) then AddressOf(tx, attrs[n]) else LastOf(tx, attrs[..n], kind, len)
  }

  /** None exactly when no attribute carries one; otherwise the address of the last that does. */
  lemma {:induction false} LastOfExact(tx: TxID, attrs: seq<Attr>, kind: Kind, len: nat) returns (k: int)
    ensures -1 <= k < |attrs| && (k < 0 <==> LastOf(tx, attrs, kind, len).None?)
    ensures k >= 0 ==> Carries(tx, attrs[k], kind, len) && LastOf(tx, attrs, kind, len) == AddressOf(tx, attrs[k])
    ensures forall j :: k < j < |attrs| ==> !Carries(tx, attrs[j], kind, len)
  {
    hide XorMappedAddress, MappedAddress, KindOf, AddressOf;
    if attrs == [] {
      k := -1;
    } else {
      var n := |attrs| - 1;
      if Carries(tx, attrs[n], kind, len) {
        k := n;
      } else {
        k := LastOfExact(tx, attrs[..n], kind, len);
      }
    }
  }

  ghost function OrElse<T>(a: Option<T>, b: Option<T>): Option<T> {
    if a.Some? then a else b
  }

  /** Last masked IPv4, else last plain IPv4, else last masked IPv6, else last plain IPv6. */
  ghost function Select(tx: TxID, attrs: seq<Attr>): Option<Address> {
    OrElse(LastOf(tx, attrs, Xored, 4), OrElse(LastOf(tx, attrs, Plain, 4),
      OrElse(LastOf(tx, attrs, Xored, 16), LastOf(tx, attrs, Plain, 16))))
  }

  ghost function AttrRegion(b: seq<byte>): Option<seq<byte>>
    requires |b| >= HEADER_LEN
  {
    var attrsLen := GetU16(b[2..4]);
    if attrsLen > |b| - HEADER_LEN then None else Some(b[HEADER_LEN..HEADER_LEN + attrsLen])
  }

  /** A success response with the given attribute bytes. */
  ghost function Success(tx: TxID, attrs: seq<byte>): seq<byte>
    requires |attrs| < 0x1_0000
  {
    BINDING_SUCCESS + PutU16(|attrs|) + MAGIC_COOKIE + tx + attrs
  }

  lemma SuccessLayout(tx: TxID, attrs: seq<byte>, trailing: seq<byte>)
    requires |attrs| < 0x1_0000
    ensures var b := Success(tx, attrs) + trailing;
            Is(b) && b[8..20] == tx && b[..2] == BINDING_SUCCESS && AttrRegion(b) == Some(attrs)
  {
    hide PutU16, GetU16;
    var b := Success(tx, attrs) + trailing;
    assert b[2..4] == PutU16(|attrs|) && b[4..8] == MAGIC_COOKIE && b[..2] == BINDING_SUCCESS;
    U16RoundTrip(|attrs|, b[2..4]);
    assert b[HEADER_LEN..HEADER_LEN + |attrs|] == attrs;
  }

  /** For every list of attributes, padding and trailing bytes: the response parses exactly when all
      its addresses are well formed and there is one, and yields the selected address. */
  lemma ResponseSelects(tx: TxID, attrs: seq<Attr>, pads: seq<seq<byte>>, trailing: seq<byte>)
    requires AllEncodable(attrs, pads) && |AttrsBytes(attrs, pads)| < 0x1_0000
    ensures var r := ResponseOf(Success(tx, AttrsBytes(attrs, pads)) + trailing);
            (r.Ok? <==> AllWellFormed(tx, attrs) && Select(tx, attrs).Some?)
            && (r.Ok? ==> r == Ok(tx, Select(tx, attrs).value))
            && (r.Fail? ==> r.error == MalformedAttrs)
  {
    hide AttrsBytes, Success, Select, AllWellFormed, AttrRegion, Walk;
    SuccessLayout(tx, AttrsBytes(attrs, pads), trailing);
    WalkVisitsAll(attrs, pads);
  }

  /** What a response says, by its list of attributes. */
  ghost function ResponseOf(b: seq<byte>): Parsed {
    if !Is(b) then Fail(ZERO_TX, NotStun)
    else
      var tx: TxID := b[8..20];
      if b[..2] != BINDING_SUCCESS then Fail(tx, NotSuccessResponse)
      else if AttrRegion(b).None? then Fail(tx, MalformedAttrs)
      else
        var w := Walk(AttrRegion(b).value);
        if !w.ok || !AllWellFormed(tx, w.attrs) then Fail(ZERO_TX, MalformedAttrs)
        else if Select(tx, w.attrs).None? then Fail(tx, MalformedAttrs)
        else Ok(tx, Select(tx, w.attrs).value)
  }

  lemma LastOfSnoc(tx: TxID, attrs: seq<Attr>, a: Attr, kind: Kind, len: nat)
    ensures LastOf(tx, attrs + [a], kind, len) ==
            if Carries(tx, a, kind, len) then AddressOf(tx, a) else LastOf(tx, attrs, kind, len)
  {
    assert (attrs + [a])[..|attrs|] == attrs;
  }

  datatype Slots = Slots(addr: Option<Address>, fallback: Option<Address>,
                         addr6: Option<Address>, fallback6: Option<Address>)

  ghost predicate SlotsAgree(tx: TxID, s: Slots, seen: seq<Attr>) {
    s.addr == LastOf(tx, seen, Xored, 4) && s.fallback == LastOf(tx, seen, Plain, 4)
    && s.addr6 == LastOf(tx, seen, Xored, 16) && s.fallback6 == LastOf(tx, seen, Plain, 16)
  }

  /** The callback of the walk: updates the four captured variables, or reports a malformed address. */
  method NoteAttr(tx: TxID, a: Attr, s: Slots, ghost seen: seq<Attr>) returns (r: Option<Slots>)
    requires SlotsAgree(tx, s, seen)
    ensures r.Some? <==> WellFormed(tx, a)
    ensures r.Some? ==> SlotsAgree(tx, r.value, seen + [a])
  {
    hide LastOf, XorMappedAddress, MappedAddress;
    LastOfSnoc(tx, seen, a, Xored, 4);
    LastOfSnoc(tx, seen, a, Plain, 4);
    LastOfSnoc(tx, seen, a, Xored, 16);
    LastOfSnoc(tx, seen, a, Plain, 16);
    if a.typ == ATTR_XOR_MAPPED_ADDRESS || a.typ == ATTR_XOR_MAPPED_ADDRESS_ALT {
      var x := ReadXorMappedAddress(tx, a.value);
      if x.None? {
        return None;
      }
      return Some(if |x.value.ip| == 16 then s.(addr6 := x) else s.(addr := x));
    } else if a.typ == ATTR_MAPPED_ADDRESS {
      var x := MappedAddress(a.value);
      if x.None? {
        return None;
      }
      return Some(if |x.value.ip| == 16 then s.(fallback6 := x) else s.(fallback := x));
    }
    return Some(s);
  }

  /** Walks the attributes with that callback; None is a malformed list or address. */
  method CollectAddresses(tx: TxID, attrs: seq<byte>) returns (r: Option<Slots>)
    ensures r.Some? <==> Walk(attrs).ok && AllWellFormed(tx, Walk(attrs).attrs)
    ensures r.Some? ==> SlotsAgree(tx, r.value, Walk(attrs).attrs)
  {
    hide LastOf, WellFormed, GetU16, Padded, SlotsAgree, Walk;
    var b := attrs;
    var s := Slots(None, None, None, None);
    ghost var seen: seq<Attr> := [];
    NothingSeen(tx);
    while |b| > 0
      invariant Walk(attrs) == Walked(seen + Walk(b).attrs, Walk(b).ok)
      invariant AllWellFormed(tx, seen) && SlotsAgree(tx, s, seen)
      decreases |b|
    {
      WalkStep(b);
      if |b| < 4 {
        return None;
      }
      var attrType := GetU16(b[..2]);
      var attrLen := GetU16(b[2..4]);
      var attrLenWithPad := Padded(attrLen);
      b := b[4..];
      if attrLenWithPad > |b| {
        return None;
      }
      var a := Attr(attrType, b[..attrLen]);
      var next := NoteAttr(tx, a, s, seen);
      b := b[attrLenWithPad..];
      assert Walk(attrs).attrs == seen + [a] + Walk(b).attrs;
      seen := seen + [a];
      if next.None? {
        assert Walk(attrs).attrs[|seen| - 1] == a;
        return None;
      }
      s := next.value;
    }
    WalkNil();
    assert Walk(attrs).attrs == seen;
    return Some(s);
  }

  method ParseResponse(input: seq<byte>) returns (r: Parsed)
    ensures r == ResponseOf(input)
  {
    hide LastOf, GetU16, Walk, AllWellFormed;
    if !Is(input) {
      return Fail(ZERO_TX, NotStun);
    }
    var tx: TxID := input[8..20];
    if input[0] != 1 || input[1] != 1 {
      return Fail(tx, NotSuccessResponse);
    }
    assert input[..2] == BINDING_SUCCESS;
    var attrsLen := GetU16(input[2..4]);
    var b := input[HEADER_LEN..];
    if attrsLen > |b| {
      return Fail(tx, MalformedAttrs);
    } else if |b| > attrsLen {
      b := b[..attrsLen];
    }
    assert b == input[HEADER_LEN..HEADER_LEN + attrsLen];
    var collected := CollectAddresses(tx, b);
    if collected.None? {
      return Fail(ZERO_TX, MalformedAttrs);
    }
    var s := collected.value;
    if s.addr.Some? {
      return Ok(tx, s.addr.value);
    }
    if s.fallback.Some? {
      return Ok(tx, s.fallback.value);
    }
    if s.addr6.Some? {
      return Ok(tx, s.addr6.value);
    }
    if s.fallback6.Some? {
      return Ok(tx, s.fallback6.value);
    }
    return Fail(tx, MalformedAttrs);
  }

  lemma WalkNil()
    ensures Walk([]) == Walked([], true)
  {
  }

  lemma NothingSeen(tx: TxID)
    ensures SlotsAgree(tx, Slots(None, None, None, None), [])
  {
  }

  // ---- building a response ----

  /** Four bytes stay; an IPv4-mapped IPv6 address becomes its last four bytes. */
  function To4(ip: seq<byte>): Option<seq<byte>> {
    if |ip| == 4 then Some(ip)
    else if |ip| == 16 && (forall i :: 0 <= i < 10 ==> ip[i] == 0) && ip[10] == 0xFF && ip[11] == 0xFF then Some(ip[12..])
    else None
  }

  function Reduced(ip: seq<byte>): seq<byte> {
    if To4(ip).Some? then To4(ip).value else ip
  }

  ghost function ResponseValue(tx: TxID, ip: seq<byte>, port: uint16): seq<byte>
    requires |ip| in {4, 16}
  {
    [0, if |ip| == 4 then 1 else 2] + PutU16(Xor16(port, 0x2112)) + Mask(tx, ip)
  }

  ghost function ResponseAttribute(tx: TxID, ip: seq<byte>, port: uint16): (a: Attr)
    requires |ip| in {4, 16}
    ensures Encodable(a, [])
  {
    Attr(ATTR_XOR_MAPPED_ADDRESS, ResponseValue(tx, ip, port))
  }

  ghost function ResponseBytes(tx: TxID, ip: seq<byte>, port: uint16): seq<byte>
    requires |ip| in {4, 16}
  {
    Success(tx, AttrBytes(ResponseAttribute(tx, ip, port), []))
  }

  method Response(tx: TxID, ip: seq<byte>, port: uint16) returns (r: Option<seq<byte>>)
    ensures r == if |ip| in {4, 16} then Some(ResponseBytes(tx, Reduced(ip), port)) else None
    ensures r.Some? ==> ResponseOf(r.value) == Ok(tx, Address(Reduced(ip), port))
  {
    hide Xor8, Xor16, PutU16, ResponseOf;
    var addr := Reduced(ip);
    var family: byte;
    if |addr| == 4 {
      family := 1;
    } else if |addr| == 16 {
      family := 2;
    } else {
      return None;
    }
    var b: seq<byte> := BINDING_SUCCESS;
    b := b + PutU16(8 + |addr|);
    b := b + MAGIC_COOKIE;
    b := b + tx;
    b := b + PutU16(ATTR_XOR_MAPPED_ADDRESS);
    b := b + PutU16(4 + |addr|);
    b := b + [0, family];
    b := b + PutU16(Xor16(port, 0x2112));
    ghost var fixed := b;
    for i := 0 to |addr|
      invariant b == fixed + Mask(tx, addr)[..i]
    {
      b := b + [Xor8(addr[i], if i < 4 then MAGIC_COOKIE[i] else tx[i - 4])];
    }
    assert b == ResponseBytes(tx, addr, port) by {
      AttrLength(ResponseAttribute(tx, addr, port), []);
    }
    ResponseRoundTrip(tx, addr, port, []);
    assert b + [] == b;
    return Some(b);
  }

  lemma ResponseAttr(tx: TxID, ip: seq<byte>, port: uint16)
    requires |ip| in {4, 16}
    ensures XorMappedAddress(tx, ResponseValue(tx, ip, port)) == Some(Address(ip, port))
  {
    hide Xor8, Xor16, PutU16, GetU16, Mask;
    var masked := Xor16(port, 0x2112);
    var v := ResponseValue(tx, ip, port);
    MaskLength(tx, ip);
    assert v[2..4] == PutU16(masked) && v[4..4 + |ip|] == Mask(tx, ip);
    U16RoundTrip(masked, v[2..4]);
    Xor16Twice(port, 0x2112);
    MaskTwice(tx, ip);
  }

  lemma MaskLength(tx: TxID, ip: seq<byte>)
    requires |ip| <= 16
    ensures |Mask(tx, ip)| == |ip|
  {
  }

  /** For every transaction id, port and address of either family, whatever bytes follow the message. */
  lemma ResponseRoundTrip(tx: TxID, ip: seq<byte>, port: uint16, trailing: seq<byte>)
    requires |ip| in {4, 16}
    ensures ResponseOf(ResponseBytes(tx, ip, port) + trailing) == Ok(tx, Address(ip, port))
  {
    hide LastOf, AttrBytes, ResponseValue, XorMappedAddress, MappedAddress, Success, ResponseOf, Select;
    ResponseAttr(tx, ip, port);
    var a := ResponseAttribute(tx, ip, port);
    assert AttrsBytes([a], [[]]) == AttrBytes(a, []);
    assert |AttrBytes(a, [])| == 8 + |ip| by { AttrLength(a, []); MaskLength(tx, ip); ResponseValueLength(tx, ip, port); }
    ResponseSelects(tx, [a], [[]], trailing);
    assert WellFormed(tx, a);
    SelectOnly(tx, a, ip);
  }

  lemma SelectOnly(tx: TxID, a: Attr, ip: seq<byte>)
    requires |ip| in {4, 16} && Carries(tx, a, Xored, |ip|)
    ensures Select(tx, [a]) == AddressOf(tx, a)
  {
    hide XorMappedAddress, MappedAddress;
    LastOfSnoc(tx, [], a, Xored, 4);
    LastOfSnoc(tx, [], a, Plain, 4);
    LastOfSnoc(tx, [], a, Xored, 16);
    assert [] + [a] == [a];
  }

  lemma AttrLength(a: Attr, pad: seq<byte>)
    requires Encodable(a, pad)
    ensures |AttrBytes(a, pad)| == 4 + Padded(|a.value|)
  {
  }

  lemma ResponseValueLength(tx: TxID, ip: seq<byte>, port: uint16)
    requires |ip| in {4, 16}
    ensures |ResponseValue(tx, ip, port)| == 4 + |ip|
  {
  }

  // ---- binding requests ----

  function FingerPrint(crc: seq<byte> -> uint32, b: seq<byte>): uint32 {
    Xor32(crc(b), 0x5354_554E)
  }

  ghost function RequestBody(tx: TxID): seq<byte> {
    BINDING_REQUEST + PutU16(4 + |SOFTWARE| + LEN_FINGERPRINT) + MAGIC_COOKIE + tx
    + AttrBytes(Attr(ATTR_SOFTWARE, SOFTWARE), [])
  }

  method Request(crc: seq<byte> -> uint32, tx: TxID) returns (b: seq<byte>)
    ensures b == RequestBytes(crc, tx)
    ensures BindingOf(crc, b) == Accepted(tx)
  {
    hide PutU16, PutU32, FingerPrint, BindingOf;
    b := BINDING_REQUEST;
    b := b + PutU16(4 + |SOFTWARE| + LEN_FINGERPRINT);
    b := b + MAGIC_COOKIE;
    b := b + tx;
    b := b + PutU16(ATTR_SOFTWARE);
    b := b + PutU16(|SOFTWARE|);
    b := b + SOFTWARE;
    assert b == RequestBody(tx);
    var fp := FingerPrint(crc, b);
    b := b + PutU16(ATTR_FINGERPRINT);
    b := b + PutU16(4);
    b := b + PutU32(fp);
    assert b == RequestBytes(crc, tx);
    RequestRoundTrip(crc, tx);
  }

  ghost function RequestBytes(crc: seq<byte> -> uint32, tx: TxID): seq<byte> {
    RequestBody(tx) + AttrBytes(Attr(ATTR_FINGERPRINT, PutU32(FingerPrint(crc, RequestBody(tx)))), [])
  }

  /** The value of the last four-byte FINGERPRINT attribute, 0 if there is none. */
  ghost function ClaimedFingerPrint(attrs: seq<Attr>): uint32 {
    if attrs == [] then 0
    else
      var a := attrs[|attrs| - 1];
      if a.typ == ATTR_FINGERPRINT && |a.value| == 4 then GetU32(a.value)
      else ClaimedFingerPrint(attrs[..|attrs| - 1])
  }

  /** Which byte strings are accepted as requests, by their list of attributes. */
  ghost function BindingOf(crc: seq<byte> -> uint32, b: seq<byte>): Bound {
    if !Is(b) then Refused(NotStun)
    else if b[..2] != BINDING_REQUEST then Refused(NotBindingRequest)
    else
      var w := Walk(b[HEADER_LEN..]);
      if !w.ok then Refused(MalformedAttrs)
      else if Attr(ATTR_SOFTWARE, SOFTWARE) !in w.attrs then Refused(WrongSoftware)
      else if w.attrs[|w.attrs| - 1].typ != ATTR_FINGERPRINT then Refused(NoFingerprint)
      else if ClaimedFingerPrint(w.attrs) != FingerPrint(crc, b[..|b| - LEN_FINGERPRINT]) then Refused(WrongFingerprint)
      else Accepted(b[8..20])
  }

  datatype Facts = Facts(softwareOK: bool, lastAttr: uint16, gotFP: uint32)

  ghost predicate FactsAgree(f: Facts, seen: seq<Attr>) {
    (f.softwareOK <==> Attr(ATTR_SOFTWARE, SOFTWARE) in seen)
    && f.lastAttr == (if seen == [] then 0 else seen[|seen| - 1].typ)
    && f.gotFP == ClaimedFingerPrint(seen)
  }

  function NoteFact(f: Facts, a: Attr): Facts {
    Facts(f.softwareOK || a == Attr(ATTR_SOFTWARE, SOFTWARE), a.typ,
          if a.typ == ATTR_FINGERPRINT && |a.value| == 4 then GetU32(a.value) else f.gotFP)
  }

  lemma FactsSnoc(f: Facts, seen: seq<Attr>, a: Attr)
    requires FactsAgree(f, seen)
    ensures FactsAgree(NoteFact(f, a), seen + [a])
  {
    hide GetU32;
    assert (seen + [a])[..|seen|] == seen;
  }

  /** The walk of a request; None is a malformed list. */
  method CollectFacts(attrs: seq<byte>) returns (r: Option<Facts>)
    ensures r.Some? <==> Walk(attrs).ok
    ensures r.Some? ==> FactsAgree(r.value, Walk(attrs).attrs)
  {
    hide GetU16, Padded, FactsAgree, NoteFact, Walk;
    var b := attrs;
    var f := Facts(false, 0, 0);
    ghost var seen: seq<Attr> := [];
    NoFacts();
    while |b| > 0
      invariant Walk(attrs) == Walked(seen + Walk(b).attrs, Walk(b).ok)
      invariant FactsAgree(f, seen)
      decreases |b|
    {
      WalkStep(b);
      if |b| < 4 {
        return None;
      }
      var attrType := GetU16(b[..2]);
      var attrLen := GetU16(b[2..4]);
      var attrLenWithPad := Padded(attrLen);
      b := b[4..];
      if attrLenWithPad > |b| {
        return None;
      }
      var a := Attr(attrType, b[..attrLen]);
      b := b[attrLenWithPad..];
      FactsSnoc(f, seen, a);
      f := NoteFact(f, a);
      assert Walk(attrs).attrs == seen + [a] + Walk(b).attrs;
      seen := seen + [a];
    }
    WalkNil();
    assert Walk(attrs).attrs == seen;
    return Some(f);
  }

  lemma NoFacts()
    ensures FactsAgree(Facts(false, 0, 0), [])
  {
  }

  method ParseBindingRequest(crc: seq<byte> -> uint32, input: seq<byte>) returns (r: Bound)
    ensures r == BindingOf(crc, input)
  {
    hide Walk, ClaimedFingerPrint, FingerPrint;
    if !Is(input) {
      return Refused(NotStun);
    }
    if input[..2] != BINDING_REQUEST {
      return Refused(NotBindingRequest);
    }
    var tx: TxID := input[8..20];
    var facts := CollectFacts(input[HEADER_LEN..]);
    if facts.None? {
      return Refused(MalformedAttrs);
    }
    if !facts.value.softwareOK {
      return Refused(WrongSoftware);
    }
    if facts.value.lastAttr != ATTR_FINGERPRINT {
      return Refused(NoFingerprint);
    }
    if facts.value.gotFP != FingerPrint(crc, input[..|input| - LEN_FINGERPRINT]) {
      return Refused(WrongFingerprint);
    }
    return Accepted(tx);
  }

  /** For every transaction id and checksum: the request is accepted with that id, its length field
      counts the attribute bytes, and the fingerprint covers all that precedes its own attribute. */
  lemma RequestRoundTrip(crc: seq<byte> -> uint32, tx: TxID)
    ensures BindingOf(crc, RequestBytes(crc, tx)) == Accepted(tx)
    ensures var b := RequestBytes(crc, tx);
            GetU16(b[2..4]) == |b| - HEADER_LEN
            && GetU32(b[|b| - 4..]) == FingerPrint(crc, b[..|b| - LEN_FINGERPRINT])
  {
    hide Walk, AttrsBytes, AttrBytes, RequestBytes, RequestBody, FingerPrint, GetU32, GetU16;
    RequestLayout(crc, tx);
    var fp := FingerPrint(crc, RequestBody(tx));
    var attrs := [Attr(ATTR_SOFTWARE, SOFTWARE), Attr(ATTR_FINGERPRINT, PutU32(fp))];
    WalkVisitsAll(attrs, [[], []]);
    U32RoundTrip(fp, [0, 0, 0, 0]);
    assert attrs[0] in attrs;
  }

  lemma RequestLayout(crc: seq<byte> -> uint32, tx: TxID)
    ensures var fp := FingerPrint(crc, RequestBody(tx));
            var attrs := [Attr(ATTR_SOFTWARE, SOFTWARE), Attr(ATTR_FINGERPRINT, PutU32(fp))];
            var b := RequestBytes(crc, tx);
            AllEncodable(attrs, [[], []]) && |b| == 40 && b[HEADER_LEN..] == AttrsBytes(attrs, [[], []])
            && b[..2] == BINDING_REQUEST && b[4..8] == MAGIC_COOKIE && b[8..20] == tx
            && GetU16(b[2..4]) == 20 && b[..32] == RequestBody(tx) && b[36..] == PutU32(fp)
  {
    hide PutU16, GetU16, PutU32, GetU32, FingerPrint;
    var fp := FingerPrint(crc, RequestBody(tx));
    var attrs := [Attr(ATTR_SOFTWARE, SOFTWARE), Attr(ATTR_FINGERPRINT, PutU32(fp))];
    var b := RequestBytes(crc, tx);
    assert Encodable(attrs[0], []) && Encodable(attrs[1], []);
    assert attrs[1..] == [attrs[1]];
    assert AttrsBytes([attrs[1]], [[]]) == AttrBytes(attrs[1], []);
    assert AttrsBytes(attrs, [[], []]) == AttrBytes(attrs[0], []) + AttrBytes(attrs[1], []);
    assert |RequestBody(tx)| == 32;
    assert b[..20] == RequestBody(tx)[..20];
    assert b[2..4] == b[..20][2..4] == PutU16(20);
    assert b[4..8] == b[..20][4..8] && b[8..20] == b[..20][8..];
    U16RoundTrip(20, b[2..4]);
  }

  // ---- on the wire, without naming how it is computed ----

  /** Padding goes up to the next multiple of four. */
  lemma PaddedExact(n: nat)
    ensures Padded(n) % 4 == 0 && n <= Padded(n) < n + 4
  {
  }

  lemma AttrOnTheWire(a: Attr, pad: seq<byte>)
    requires Encodable(a, pad)
    ensures var b := AttrBytes(a, pad);
            |b| >= 4 + |a.value| && |b| % 4 == 0 && |b| < 4 + |a.value| + 4
            && BigEndian(b[..2]) == a.typ && BigEndian(b[2..4]) == |a.value| && b[4..4 + |a.value|] == a.value
  {
    hide PutU16, BigEndian, Padded;
    var b := AttrBytes(a, pad);
    PaddedExact(|a.value|);
    assert b[..2] == PutU16(a.typ) && b[2..4] == PutU16(|a.value|);
    WrittenBigEndian16(a.typ);
    WrittenBigEndian16(|a.value|);
  }

  /** A family byte, a big-endian port and the address. */
  ghost predicate FamilyFits(b: seq<byte>, n: nat) {
    |b| >= 4 + n && ((n == 4 && b[1] == 1) || (n == 16 && b[1] == 2))
  }

  ghost predicate PlainAddress(b: seq<byte>, a: Address) {
    FamilyFits(b, |a.ip|) && BigEndian(b[2..4]) == a.port && b[4..4 + |a.ip|] == a.ip
  }

  /** The same with every bit flipped where the cookie, followed by the transaction id, has a one. */
  ghost predicate MaskedAddress(tx: TxID, b: seq<byte>, a: Address) {
    FamilyFits(b, |a.ip|) && MaskedBits(a.port, BigEndian(b[2..4]), 0x2112, 16)
    && forall i :: 0 <= i < |a.ip| ==> MaskedBits(a.ip[i], b[4 + i], ([0x21, 0x12, 0xA4, 0x42] + tx)[i], 8)
  }

  lemma MappedIff(b: seq<byte>, a: Address)
    ensures MappedAddress(b) == Some(a) <==> PlainAddress(b, a)
  {
    hide GetU16, BigEndian;
    if |b| >= 4 {
      ReadBigEndian16(b[2..4]);
    }
  }

  lemma MaskIff(tx: TxID, ip: seq<byte>, masked: seq<byte>)
    requires |ip| == |masked| <= 16
    ensures ip == Mask(tx, masked) <==>
            forall i :: 0 <= i < |ip| ==> MaskedBits(ip[i], masked[i], (MAGIC_COOKIE + tx)[i], 8)
  {
    hide MaskedBits, Xor, Pow2;
    Pow2Values();
    var k := MAGIC_COOKIE + tx;
    forall i | 0 <= i < |ip| ensures MaskedBits(ip[i], masked[i], k[i], 8) <==> ip[i] == Mask(tx, masked)[i] {
      MaskedIsXor(ip[i], masked[i], k[i], 8);
    }
  }

  lemma XorMappedIff(tx: TxID, b: seq<byte>, a: Address)
    ensures XorMappedAddress(tx, b) == Some(a) <==> MaskedAddress(tx, b, a)
  {
    hide GetU16, BigEndian, MaskedBits, Xor, Pow2, Mask;
    if |b| >= 4 {
      ReadBigEndian16(b[2..4]);
      Pow2Values();
      MaskedIsXor(a.port, GetU16(b[2..4]), 0x2112, 16);
      if FamilyFits(b, |a.ip|) {
        MaskLength(tx, b[4..4 + |a.ip|]);
        MaskIff(tx, a.ip, b[4..4 + |a.ip|]);
      } else if MappedAddress(b).Some? {
        MaskLength(tx, MappedAddress(b).value.ip);
      }
    }
  }

  // ---- which responses parse, and to what ----

  /** The attribute announces the address: XOR-MAPPED-ADDRESS under either type, or MAPPED-ADDRESS. */
  ghost predicate Announces(tx: TxID, a: Attr, addr: Address) {
    if a.typ == 0x0020 || a.typ == 0x8020 then MaskedAddress(tx, a.value, addr)
    else a.typ == 0x0001 && PlainAddress(a.value, addr)
  }

  lemma AnnouncesIff(tx: TxID, a: Attr, addr: Address)
    ensures Announces(tx, a, addr) <==> AddressOf(tx, a) == Some(addr)
  {
    hide MaskedAddress, PlainAddress, XorMappedAddress, MappedAddress;
    XorMappedIff(tx, a.value, addr);
    MappedIff(a.value, addr);
  }

  /** Preference: masked IPv4, plain IPv4, masked IPv6, plain IPv6. */
  ghost function Rank(a: Attr, addr: Address): nat {
    (if |addr.ip| == 4 then 0 else 2) + (if a.typ == 0x0001 then 1 else 0)
  }

  /** Attribute `k` announces the address; none announces a preferred one, and none after `k` an equal one. */
  ghost predicate Chosen(tx: TxID, attrs: seq<Attr>, addr: Address, k: nat) {
    k < |attrs| && Announces(tx, attrs[k], addr)
    && forall j, other :: 0 <= j < |attrs| && Announces(tx, attrs[j], other) ==>
         Rank(attrs[k], addr) <= Rank(attrs[j], other) && (j > k ==> Rank(attrs[k], addr) != Rank(attrs[j], other))
  }

  lemma RankOfKind(tx: TxID, a: Attr, addr: Address)
    requires AddressOf(tx, a) == Some(addr)
    ensures |addr.ip| in {4, 16} && !KindOf(a).Other? && Carries(tx, a, KindOf(a), |addr.ip|)
    ensures Rank(a, addr) == (if |addr.ip| == 4 then 0 else 2) + (if KindOf(a).Plain? then 1 else 0)
  {
  }

  lemma SelectIsChosen(tx: TxID, attrs: seq<Attr>, kind: Kind, len: nat, k: nat)
    requires k < |attrs| && Carries(tx, attrs[k], kind, len) && !kind.Other?
    requires forall j :: k < j < |attrs| ==> !Carries(tx, attrs[j], kind, len)
    requires forall j, q: Kind, n: nat :: 0 <= j < |attrs| && Carries(tx, attrs[j], q, n) ==>
               (if len == 4 then 0 else 2) + (if kind.Plain? then 1 else 0) <= (if n == 4 then 0 else 2) + (if q.Plain? then 1 else 0)
    ensures Chosen(tx, attrs, AddressOf(tx, attrs[k]).value, k)
  {
    hide XorMappedAddress, MappedAddress, Announces, Rank;
    var addr := AddressOf(tx, attrs[k]).value;
    AnnouncesIff(tx, attrs[k], addr);
    RankOfKind(tx, attrs[k], addr);
    forall j, other | 0 <= j < |attrs| && Announces(tx, attrs[j], other)
      ensures Rank(attrs[k], addr) <= Rank(attrs[j], other) && (j > k ==> Rank(attrs[k], addr) != Rank(attrs[j], other))
    {
      AnnouncesIff(tx, attrs[j], other);
      RankOfKind(tx, attrs[j], other);
      assert Carries(tx, attrs[j], KindOf(attrs[j]), |other.ip|);
    }
  }

  lemma SelectExact(tx: TxID, attrs: seq<Attr>) returns (k: int)
    ensures k < 0 <==> Select(tx, attrs).None?
    ensures k >= 0 ==> Chosen(tx, attrs, Select(tx, attrs).value, k)
    ensures k < 0 ==> forall j, other :: 0 <= j < |attrs| ==> !Announces(tx, attrs[j], other)
  {
    hide XorMappedAddress, MappedAddress, Announces, Chosen, KindOf, AddressOf, LastOf;
    var x4 := LastOfExact(tx, attrs, Xored, 4);
    var p4 := LastOfExact(tx, attrs, Plain, 4);
    var x16 := LastOfExact(tx, attrs, Xored, 16);
    var p16 := LastOfExact(tx, attrs, Plain, 16);
    forall j, other | 0 <= j < |attrs| && Announces(tx, attrs[j], other)
      ensures x4 >= 0 || p4 >= 0 || x16 >= 0 || p16 >= 0
    {
      AnnouncesIff(tx, attrs[j], other);
      RankOfKind(tx, attrs[j], other);
    }
    forall j, q: Kind, n: nat | 0 <= j < |attrs| && Carries(tx, attrs[j], q, n) ensures n in {4, 16} && !q.Other? {
      RankOfKind(tx, attrs[j], AddressOf(tx, attrs[j]).value);
    }
    if x4 >= 0 {
      k := x4;
      SelectIsChosen(tx, attrs, Xored, 4, k);
    } else if p4 >= 0 {
      k := p4;
      SelectIsChosen(tx, attrs, Plain, 4, k);
    } else if x16 >= 0 {
      k := x16;
      SelectIsChosen(tx, attrs, Xored, 16, k);
    } else {
      k := p16;
      if k >= 0 {
        SelectIsChosen(tx, attrs, Plain, 16, k);
      }
    }
  }

  lemma ChosenUnique(tx: TxID, attrs: seq<Attr>, a1: Address, k1: nat, a2: Address, k2: nat)
    requires Chosen(tx, attrs, a1, k1) && Chosen(tx, attrs, a2, k2)
    ensures a1 == a2
  {
    hide Announces, AddressOf, Rank;
    AnnouncesIff(tx, attrs[k1], a1);
    AnnouncesIff(tx, attrs[k2], a2);
    assert k1 == k2;
  }

  /** Every address attribute announces some address. */
  ghost predicate AllAnnounce(tx: TxID, attrs: seq<Attr>) {
    forall i :: 0 <= i < |attrs| && attrs[i].typ in {0x0001, 0x0020, 0x8020} ==> exists a :: Announces(tx, attrs[i], a)
  }

  lemma AllAnnounceIff(tx: TxID, attrs: seq<Attr>)
    ensures AllAnnounce(tx, attrs) <==> AllWellFormed(tx, attrs)
  {
    hide Announces, XorMappedAddress, MappedAddress, AddressOf;
    forall i | 0 <= i < |attrs| && attrs[i].typ in {0x0001, 0x0020, 0x8020}
      ensures (exists a :: Announces(tx, attrs[i], a)) <==> AddressOf(tx, attrs[i]).Some?
    {
      if a :| Announces(tx, attrs[i], a) {
        AnnouncesIff(tx, attrs[i], a);
      }
      if AddressOf(tx, attrs[i]).Some? {
        AnnouncesIff(tx, attrs[i], AddressOf(tx, attrs[i]).value);
      }
    }
  }

  /** A header of the given two bytes, a length, the cookie and the transaction id. */
  ghost predicate WireMessage(b: seq<byte>, kind: seq<byte>, tx: TxID, length: nat) {
    |b| >= 20 && b[..2] == kind && BigEndian(b[2..4]) == length && b[4..8] == [0x21, 0x12, 0xA4, 0x42] && b[8..20] == tx
  }

  /** The message is a success response whose attributes are `attrs`, of which `k` gives the address. */
  ghost predicate Answers(b: seq<byte>, tx: TxID, addr: Address, attrs: seq<Attr>, pads: seq<seq<byte>>, k: nat) {
    AllEncodable(attrs, pads) && AllAnnounce(tx, attrs) && Chosen(tx, attrs, addr, k)
    && WireMessage(b, [1, 1], tx, |AttrsBytes(attrs, pads)|) && AttrsBytes(attrs, pads) <= b[20..]
  }

  lemma RegionIff(b: seq<byte>, region: seq<byte>)
    requires |b| >= 20
    ensures AttrRegion(b) == Some(region) <==> BigEndian(b[2..4]) == |region| && region <= b[20..]
  {
    hide GetU16, BigEndian;
    ReadBigEndian16(b[2..4]);
    var n := GetU16(b[2..4]);
    if n <= |b| - 20 {
      var got := b[20..20 + n];
      assert got == b[20..][..n];
      assert |region| == n && region <= b[20..] ==> region == got;
    }
  }

  /** For every byte string: it parses to this transaction id and address if and only if it is a success
      response with well-formed attributes of which this is the preferred address. */
  lemma ResponseIff(b: seq<byte>, tx: TxID, addr: Address)
    ensures ResponseOf(b) == Ok(tx, addr) <==> exists attrs, pads, k :: Answers(b, tx, addr, attrs, pads, k)
  {
    hide Walk, AttrsBytes, AllEncodable, AllAnnounce, AllWellFormed, Chosen, Select, AttrRegion, BigEndian;
    if ResponseOf(b) == Ok(tx, addr) {
      var region := AttrRegion(b).value;
      var attrs := Walk(region).attrs;
      var pads := WalkedIsEncoding(region);
      RegionIff(b, region);
      AllAnnounceIff(tx, attrs);
      var k := SelectExact(tx, attrs);
      assert Answers(b, tx, addr, attrs, pads, k);
    }
    if attrs, pads, k :| Answers(b, tx, addr, attrs, pads, k) {
      AnswersParse(b, tx, addr, attrs, pads, k);
    }
  }

  lemma AnswersParse(b: seq<byte>, tx: TxID, addr: Address, attrs: seq<Attr>, pads: seq<seq<byte>>, k: nat)
    requires Answers(b, tx, addr, attrs, pads, k)
    ensures ResponseOf(b) == Ok(tx, addr)
  {
    hide Walk, AttrsBytes, AllEncodable, AllAnnounce, AllWellFormed, Select, AttrRegion, BigEndian, Announces;
    RegionIff(b, AttrsBytes(attrs, pads));
    WalkVisitsAll(attrs, pads);
    AllAnnounceIff(tx, attrs);
    var j := SelectExact(tx, attrs);
    assert Announces(tx, attrs[k], addr);
    ChosenUnique(tx, attrs, addr, k, Select(tx, attrs).value, j);
    assert b[0] == b[..2][0] == 1;
  }

  // ---- which requests are accepted ----

  /** `v` is the value of the last four-byte FINGERPRINT attribute, or zero without one. */
  ghost predicate Claims(attrs: seq<Attr>, v: nat) {
    if exists j :: 0 <= j < |attrs| && attrs[j].typ == 0x8028 && |attrs[j].value| == 4 then
      exists j :: 0 <= j < |attrs| && attrs[j].typ == 0x8028 && |attrs[j].value| == 4 && v == BigEndian(attrs[j].value)
                  && forall i :: j < i < |attrs| ==> !(attrs[i].typ == 0x8028 && |attrs[i].value| == 4)
    else v == 0
  }

  lemma {:induction false} ClaimedIff(attrs: seq<Attr>)
    ensures Claims(attrs, ClaimedFingerPrint(attrs))
  {
    hide GetU32, BigEndian;
    if attrs != [] {
      var n := |attrs| - 1;
      var a := attrs[n];
      if a.typ == 0x8028 && |a.value| == 4 {
        ReadBigEndian32(a.value);
      } else {
        ClaimedIff(attrs[..n]);
        ClaimsStay(attrs, ClaimedFingerPrint(attrs));
      }
    }
  }

  lemma ClaimsStay(attrs: seq<Attr>, v: nat)
    requires attrs != [] && Claims(attrs[..|attrs| - 1], v)
    requires var a := attrs[|attrs| - 1]; !(a.typ == 0x8028 && |a.value| == 4)
    ensures Claims(attrs, v)
  {
    hide BigEndian;
    var n := |attrs| - 1;
    var init := attrs[..n];
    assert forall j :: 0 <= j < n ==> init[j] == attrs[j];
    if j :| 0 <= j < n && init[j].typ == 0x8028 && |init[j].value| == 4 && v == BigEndian(init[j].value)
            && forall i :: j < i < n ==> !(init[i].typ == 0x8028 && |init[i].value| == 4) {
      assert attrs[j].typ == 0x8028 && |attrs[j].value| == 4 && v == BigEndian(attrs[j].value);
    }
  }

  lemma ClaimsUnique(attrs: seq<Attr>, v: nat, w: nat)
    requires Claims(attrs, v) && Claims(attrs, w)
    ensures v == w
  {
  }

  /** A binding request from "meshnode" whose last attribute is a FINGERPRINT, claiming the checksum of all
      but the last eight bytes with its bits flipped where 0x5354554E has a one. */
  ghost predicate Asks(crc: seq<byte> -> uint32, b: seq<byte>, tx: TxID, attrs: seq<Attr>, pads: seq<seq<byte>>, v: uint32) {
    AllEncodable(attrs, pads) && |b| >= 20 && WireMessage(b, [0, 1], tx, BigEndian(b[2..4])) && b[20..] == AttrsBytes(attrs, pads)
    && Attr(0x8022, [0x6D, 0x65, 0x73, 0x68, 0x6E, 0x6F, 0x64, 0x65]) in attrs && attrs[|attrs| - 1].typ == 0x8028
    && Claims(attrs, v) && |b| >= 8 && MaskedBits(v, crc(b[..|b| - 8]), 0x5354_554E, 32)
  }

  lemma FingerPrintIff(crc: seq<byte> -> uint32, b: seq<byte>, v: uint32)
    ensures v == FingerPrint(crc, b) <==> MaskedBits(v, crc(b), 0x5354_554E, 32)
  {
    hide MaskedBits, Xor, Pow2;
    Pow2Values();
    MaskedIsXor(v, crc(b), 0x5354_554E, 32);
  }

  /** For every byte string and checksum: it is accepted with this transaction id if and only if it is such
      a request; the length field is not looked at. */
  lemma BindingIff(crc: seq<byte> -> uint32, b: seq<byte>, tx: TxID)
    ensures BindingOf(crc, b) == Accepted(tx) <==> exists attrs, pads, v :: Asks(crc, b, tx, attrs, pads, v)
  {
    hide Walk, AttrsBytes, AllEncodable, Claims, ClaimedFingerPrint, FingerPrint, BigEndian, MaskedBits;
    if BindingOf(crc, b) == Accepted(tx) {
      var attrs := Walk(b[20..]).attrs;
      var pads := WalkedIsEncoding(b[20..]);
      var v := ClaimedFingerPrint(attrs);
      ClaimedIff(attrs);
      FingerPrintIff(crc, b[..|b| - 8], v);
      assert Asks(crc, b, tx, attrs, pads, v);
    }
    if attrs: seq<Attr>, pads: seq<seq<byte>>, v: uint32 :| Asks(crc, b, tx, attrs, pads, v) {
      WalkVisitsAll(attrs, pads);
      ClaimedIff(attrs);
      ClaimsUnique(attrs, v, ClaimedFingerPrint(attrs));
      FingerPrintIff(crc, b[..|b| - 8], v);
      assert b[0] == b[..2][0] == 0;
    }
  }

  // ---- what is sent ----

  /** The response carries one attribute: XOR-MAPPED-ADDRESS with the address masked. */
  lemma ResponseOnTheWire(tx: TxID, ip: seq<byte>, port: uint16)
    requires |ip| in {4, 16}
    ensures var b := ResponseBytes(tx, ip, port);
            WireMessage(b, [1, 1], tx, 8 + |ip|) && |b| == 28 + |ip|
            && BigEndian(b[20..22]) == 0x0020 && BigEndian(b[22..24]) == 4 + |ip| && b[24] == 0
            && MaskedAddress(tx, b[24..], Address(ip, port))
  {
    hide PutU16, BigEndian, MaskedAddress, XorMappedAddress, ResponseValue, Padded;
    var a := ResponseAttribute(tx, ip, port);
    var v := ResponseValue(tx, ip, port);
    var attr := AttrBytes(a, []);
    var b := ResponseBytes(tx, ip, port);
    ResponseValueLength(tx, ip, port);
    assert attr == PutU16(0x0020) + PutU16(4 + |ip|) + v;
    assert b == [0x01, 0x01] + PutU16(8 + |ip|) + MAGIC_COOKIE + tx + attr;
    assert b[2..4] == PutU16(8 + |ip|) && b[20..22] == PutU16(0x0020) && b[22..24] == PutU16(4 + |ip|) && b[24..] == v;
    WrittenBigEndian16(8 + |ip|);
    WrittenBigEndian16(0x0020);
    WrittenBigEndian16(4 + |ip|);
    FirstIsZero(tx, ip, port);
    ResponseAttr(tx, ip, port);
    XorMappedIff(tx, v, Address(ip, port));
  }

  lemma FirstIsZero(tx: TxID, ip: seq<byte>, port: uint16)
    requires |ip| in {4, 16}
    ensures ResponseValue(tx, ip, port)[0] == 0
  {
  }

  /** IPv4-mapped IPv6 addresses, and only those, are reduced. */
  lemma ReducedExact(ip: seq<byte>)
    requires |ip| in {4, 16}
    ensures (exists v4 :: |v4| == 4 && ip == [0, 0, 0, 0, 0, 0, 0, 0, 0, 0, 0xFF, 0xFF] + v4 && Reduced(ip) == v4)
            || (Reduced(ip) == ip && forall v4 :: |v4| == 4 ==> ip != [0, 0, 0, 0, 0, 0, 0, 0, 0, 0, 0xFF, 0xFF] + v4)
  {
    var prefix: seq<byte> := [0, 0, 0, 0, 0, 0, 0, 0, 0, 0, 0xFF, 0xFF];
    if To4(ip).Some? && |ip| == 16 {
      assert ip == prefix + ip[12..];
    } else {
      forall v4: seq<byte> | |v4| == 4 ensures ip != prefix + v4 {
        var mapped := prefix + v4;
        assert mapped[10] == 0xFF && mapped[11] == 0xFF && forall i :: 0 <= i < 10 ==> mapped[i] == 0;
      }
    }
  }

  /** The request, byte for byte up to its fingerprint. */
  lemma RequestOnTheWire(crc: seq<byte> -> uint32, tx: TxID)
    ensures var b := RequestBytes(crc, tx);
            |b| == 40 && WireMessage(b, [0, 1], tx, 20)
            && b[20..32] == [0x80, 0x22, 0, 8, 0x6D, 0x65, 0x73, 0x68, 0x6E, 0x6F, 0x64, 0x65] && b[32..36] == [0x80, 0x28, 0, 4]
            && MaskedBits(BigEndian(b[36..40]), crc(b[..32]), 0x5354_554E, 32)
  {
    hide BigEndian, MaskedBits, FingerPrint, PutU32;
    RequestLayout(crc, tx);
    var b := RequestBytes(crc, tx);
    var fp := FingerPrint(crc, RequestBody(tx));
    ReadBigEndian16(b[2..4]);
    WrittenBigEndian32(fp);
    FingerPrintIff(crc, RequestBody(tx), fp);
    assert b[36..40] == b[36..];
    assert b[20..32] == AttrBytes(Attr(ATTR_SOFTWARE, SOFTWARE), []);
    assert b[32..36] == PutU16(ATTR_FINGERPRINT) + PutU16(4);
  }

  // ---- why a message is refused ----

  ghost predicate WireStun(b: seq<byte>) {
    |b| >= 20 && b[0] < 0x40 && b[4..8] == [0x21, 0x12, 0xA4, 0x42]
  }

  ghost predicate IsList(b: seq<byte>) {
    exists attrs, pads :: ListedAs(b, attrs, pads)
  }

  ghost predicate ListedAs(b: seq<byte>, attrs: seq<Attr>, pads: seq<seq<byte>>) {
    AllEncodable(attrs, pads) && b == AttrsBytes(attrs, pads)
  }

  lemma WalksIff(b: seq<byte>)
    ensures Walk(b).ok <==> IsList(b)
    ensures forall attrs, pads :: ListedAs(b, attrs, pads) ==> Walk(b).attrs == attrs
  {
    hide Walk, AllEncodable, AttrsBytes;
    if Walk(b).ok {
      var pads := WalkedIsEncoding(b);
      assert ListedAs(b, Walk(b).attrs, pads);
    }
    forall attrs, pads | ListedAs(b, attrs, pads) ensures Walk(b) == Walked(attrs, true) {
      WalkVisitsAll(attrs, pads);
    }
  }

  /** The reason a request is refused is the first that applies: not STUN, not a binding request, not a list
      of attributes, not from meshnode, not ending in a FINGERPRINT; what is left has a wrong one. */
  lemma RefusedFor(crc: seq<byte> -> uint32, b: seq<byte>, attrs: seq<Attr>, pads: seq<seq<byte>>)
    ensures BindingOf(crc, b) == Refused(NotStun) <==> !WireStun(b)
    ensures BindingOf(crc, b) == Refused(NotBindingRequest) <==> WireStun(b) && b[..2] != [0, 1]
    ensures BindingOf(crc, b) == Refused(MalformedAttrs) <==> WireStun(b) && b[..2] == [0, 1] && !IsList(b[20..])
    ensures WireStun(b) && b[..2] == [0, 1] && ListedAs(b[20..], attrs, pads) ==>
              var meshnode := Attr(0x8022, [0x6D, 0x65, 0x73, 0x68, 0x6E, 0x6F, 0x64, 0x65]);
              (BindingOf(crc, b) == Refused(WrongSoftware) <==> meshnode !in attrs)
              && (BindingOf(crc, b) == Refused(NoFingerprint) <==> meshnode in attrs && attrs[|attrs| - 1].typ != 0x8028)
  {
    hide Walk, ListedAs, ClaimedFingerPrint, FingerPrint;
    if |b| >= 20 {
      WalksIff(b[20..]);
    }
  }

  /** A response fails as not STUN, else as no success, else as malformed. */
  lemma FailedFor(b: seq<byte>)
    ensures ResponseOf(b).Fail? && ResponseOf(b).error == NotStun <==> !WireStun(b)
    ensures ResponseOf(b).Fail? && ResponseOf(b).error == NotSuccessResponse <==> WireStun(b) && b[..2] != [1, 1]
    ensures ResponseOf(b).Fail? && WireStun(b) && b[..2] == [1, 1] ==> ResponseOf(b).error == MalformedAttrs
  {
    hide Walk, Select, AllWellFormed, AttrRegion;
  }
}
