/** The signed credential: `user | peer | expiration | ip length | ip | signature`.
    Hashing and RSA are a pair of functions on the signed bytes; times are nanoseconds. */
module Credential {
  import opened Bytes

  const HEADER_SIZE := 25
  const IPV4_LEN := 4

  type Signer = seq<byte> -> seq<byte>
  type Verifier = (seq<byte>, seq<byte>) -> bool

  datatype Verdict = Valid(userID: uint64, peerID: uint64, ip: seq<byte>) | Invalid | OutOfRange
  datatype Lease = Lease(issuedAt: int, duration: int)

  ghost predicate Matching(sign: Signer, verify: Verifier) {
    forall data :: verify(data, sign(data))
  }

  /** Whole seconds of a time in nanoseconds, as an int64. */
  function Unix(t: int): int {
    Wrap64(t / 1_000_000_000)
  }

  function Expiration(l: Lease): int {
    Unix(l.issuedAt + l.duration)
  }

  // ---- issuing and verifying ----

  function Layout(userID: uint64, peerID: uint64, expirationAt: int, ip: seq<byte>): (data: seq<byte>)
    ensures |data| == HEADER_SIZE + |ip|
  {
    PutU64(userID) + PutU64(peerID) + PutU64(ToUint64(expirationAt)) + [|ip| % 0x100] + ip
  }

  ghost function Issued(sign: Signer, userID: uint64, peerID: uint64, ip: seq<byte>, l: Lease): seq<byte> {
    var data := Layout(userID, peerID, Expiration(l), ip);
    data + sign(data)
  }

  method Issue(sign: Signer, userID: uint64, peerID: uint64, ip: seq<byte>, l: Lease) returns (credential: seq<byte>)
    ensures credential == Issued(sign, userID, peerID, ip, l)
  {
    hide PutU64, ToUint64, Expiration;
    var data := new byte[HEADER_SIZE + |ip|];
    Store(data, 0, PutU64(userID));
    Store(data, 8, PutU64(peerID));
    assert data[..16] == PutU64(userID) + PutU64(peerID);
    Store(data, 16, PutU64(ToUint64(Expiration(l))));
    assert data[..24] == PutU64(userID) + PutU64(peerID) + PutU64(ToUint64(Expiration(l)));
    data[HEADER_SIZE - 1] := |ip| % 0x100;
    assert data[..25] == data[..24] + [data[24]];
    Store(data, HEADER_SIZE, ip);
    assert data[..] == Layout(userID, peerID, Expiration(l), ip);
    credential := data[..] + sign(data[..]);
  }

  /** The end of the signed bytes is computed in a byte, so it wraps; slices past the end panic. */
  function Verify(verify: Verifier, credential: seq<byte>, now: int): Verdict {
    if |credential| <= HEADER_SIZE + IPV4_LEN then Invalid
    else
      var end := (HEADER_SIZE + credential[HEADER_SIZE - 1]) % 0x100;
      if end > |credential| then OutOfRange
      else if !verify(credential[..end], credential[end..]) then Invalid
      else if Unix(now) > ToInt64(GetU64(credential[16..24])) then Invalid
      else if end < HEADER_SIZE then OutOfRange
      else Valid(GetU64(credential[..8]), GetU64(credential[8..16]), credential[HEADER_SIZE..end])
  }

  lemma LayoutFields(userID: uint64, peerID: uint64, expirationAt: int, ip: seq<byte>, tail: seq<byte>)
    ensures var c := Layout(userID, peerID, expirationAt, ip) + tail;
            GetU64(c[..8]) == userID && GetU64(c[8..16]) == peerID
            && GetU64(c[16..24]) == ToUint64(expirationAt) && c[24] == |ip| % 0x100
            && c[HEADER_SIZE..HEADER_SIZE + |ip|] == ip
  {
    hide PutU64, GetU64, ToUint64;
    var c := Layout(userID, peerID, expirationAt, ip) + tail;
    assert c[..8] == PutU64(userID) && c[8..16] == PutU64(peerID) && c[16..24] == PutU64(ToUint64(expirationAt));
    U64RoundTrip(userID, c[..8]);
    U64RoundTrip(peerID, c[8..16]);
    U64RoundTrip(ToUint64(expirationAt), c[16..24]);
  }

  lemma UnixRoundTrip(t: int)
    ensures ToInt64(ToUint64(Unix(t))) == Unix(t)
  {
  }

  lemma ValidLength(verify: Verifier, c: seq<byte>, now: int)
    ensures var v := Verify(verify, c, now);
            v.Valid? ==> |c| > HEADER_SIZE && |v.ip| <= c[HEADER_SIZE - 1] && HEADER_SIZE + |v.ip| < 0x100
  {
    hide GetU64, ToInt64, Unix;
  }

  /** The layout without naming how it is written: big-endian user, peer and two's complement
      expiration, the length of the address, the address. */
  lemma LayoutOnTheWire(userID: uint64, peerID: uint64, e: int, ip: seq<byte>)
    requires IsInt64(e)
    ensures var c := Layout(userID, peerID, e, ip);
            BigEndian(c[..8]) == userID && BigEndian(c[8..16]) == peerID
            && BigEndian(c[16..24]) == (if e >= 0 then e else e + 0x1_0000_0000_0000_0000)
            && c[24] == |ip| % 0x100 && c[25..] == ip
  {
    hide PutU64, BigEndian;
    var c := Layout(userID, peerID, e, ip);
    assert c[..8] == PutU64(userID) && c[8..16] == PutU64(peerID) && c[16..24] == PutU64(ToUint64(e));
    WrittenBigEndian64(userID);
    WrittenBigEndian64(peerID);
    WrittenBigEndian64(ToUint64(e));
  }

  ghost predicate IsInt64(e: int) {
    -0x8000_0000_0000_0000 <= e < 0x8000_0000_0000_0000
  }

  /** Whole seconds, rounded down, for every time whose seconds fit an int64. */
  lemma UnixExact(t: int)
    requires -0x8000_0000_0000_0000 * 1_000_000_000 <= t < 0x8000_0000_0000_0000 * 1_000_000_000
    ensures Unix(t) * 1_000_000_000 <= t < (Unix(t) + 1) * 1_000_000_000
  {
  }

  /** A lease expires with the second in which it ends. */
  lemma ExpirationExact(l: Lease)
    requires -0x8000_0000_0000_0000 * 1_000_000_000 <= l.issuedAt + l.duration < 0x8000_0000_0000_0000 * 1_000_000_000
    ensures Expiration(l) * 1_000_000_000 <= l.issuedAt + l.duration < (Expiration(l) + 1) * 1_000_000_000
  {
    hide Unix;
    UnixExact(l.issuedAt + l.duration);
  }

  /** The bytes are the layout of this triple under expiration `e`, with an accepted signature, in time. */
  ghost predicate Certifies(verify: Verifier, c: seq<byte>, now: int, userID: uint64, peerID: uint64, ip: seq<byte>, e: int) {
    var end := 25 + |ip|;
    end < 0x100 && end <= |c| && |c| > 29 && IsInt64(e) && Unix(now) <= e
    && c[..end] == Layout(userID, peerID, e, ip) && verify(c[..end], c[end..])
  }

  lemma LayoutRebuilt(c: seq<byte>, n: nat)
    requires |c| >= HEADER_SIZE + n && c[24] == n
    ensures c[..HEADER_SIZE + n] ==
            Layout(GetU64(c[..8]), GetU64(c[8..16]), ToInt64(GetU64(c[16..24])), c[HEADER_SIZE..HEADER_SIZE + n])
  {
    hide GetU64, PutU64;
    U64RoundTrip(0, c[..8]);
    U64RoundTrip(0, c[8..16]);
    U64RoundTrip(0, c[16..24]);
    assert ToUint64(ToInt64(GetU64(c[16..24]))) == GetU64(c[16..24]);
    assert c[..25 + n] == c[..8] + c[8..16] + c[16..24] + [c[24]] + c[25..25 + n];
  }

  /** For every byte string, verifier and time: what verifies is exactly what is laid out, signed and in
      time; in particular a string whose signature the verifier refuses never verifies. */
  lemma VerifyIff(verify: Verifier, c: seq<byte>, now: int, userID: uint64, peerID: uint64, ip: seq<byte>)
    ensures Verify(verify, c, now) == Valid(userID, peerID, ip) <==>
            exists e :: Certifies(verify, c, now, userID, peerID, ip, e)
  {
    hide GetU64, PutU64, Unix, Layout;
    if Verify(verify, c, now) == Valid(userID, peerID, ip) {
      LayoutRebuilt(c, |ip|);
      assert Certifies(verify, c, now, userID, peerID, ip, ToInt64(GetU64(c[16..24])));
    }
    if e :| Certifies(verify, c, now, userID, peerID, ip, e) {
      var end := 25 + |ip|;
      LayoutFields(userID, peerID, e, ip, c[end..]);
      assert c == Layout(userID, peerID, e, ip) + c[end..];
      assert ToInt64(ToUint64(e)) == e;
    }
  }

  /** The source panics exactly when the one-byte end lies past the bytes, or wraps to before the address of
      a string that is otherwise signed and in time. */
  lemma PanicsIff(verify: Verifier, c: seq<byte>, now: int)
    ensures Verify(verify, c, now) == OutOfRange <==>
            |c| > 29
            && if c[24] < 231 then 25 + c[24] > |c|
               else verify(c[..c[24] - 231], c[c[24] - 231..]) && Unix(now) <= ToInt64(GetU64(c[16..24]))
  {
    hide GetU64, Unix;
  }

  /** The signer's signature is the only one the verifier accepts. */
  ghost predicate AcceptsOnly(sign: Signer, verify: Verifier) {
    forall data, signature :: verify(data, signature) ==> signature == sign(data)
  }

  /** Then every credential that verifies was issued, for that triple and a lease that has not expired. */
  lemma ValidIsIssued(sign: Signer, verify: Verifier, c: seq<byte>, now: int, userID: uint64, peerID: uint64, ip: seq<byte>)
    requires AcceptsOnly(sign, verify) && Verify(verify, c, now) == Valid(userID, peerID, ip)
    ensures exists l :: c == Issued(sign, userID, peerID, ip, l) && Unix(now) <= Expiration(l)
  {
    hide Verify, Layout;
    VerifyIff(verify, c, now, userID, peerID, ip);
    var e :| Certifies(verify, c, now, userID, peerID, ip, e);
    var l := Lease(e * 1_000_000_000, 0);
    assert Expiration(l) == e;
    var end := 25 + |ip|;
    assert c == c[..end] + c[end..];
    assert c == Issued(sign, userID, peerID, ip, l);
  }

  /** A credential verifies, to exactly the triple it was issued for, if and only if the address is
      short enough for the one-byte arithmetic, the whole is long enough, and it has not expired. */
  lemma VerifyExact(sign: Signer, verify: Verifier, userID: uint64, peerID: uint64, ip: seq<byte>, l: Lease, now: int)
    requires Matching(sign, verify)
    ensures var data := Layout(userID, peerID, Expiration(l), ip);
            Verify(verify, Issued(sign, userID, peerID, ip, l), now) == Valid(userID, peerID, ip) <==>
            HEADER_SIZE + |ip| < 0x100 && |ip| + |sign(data)| > IPV4_LEN && Unix(now) <= Expiration(l)
  {
    hide GetU64, ToInt64, ToUint64, Unix;
    var data := Layout(userID, peerID, Expiration(l), ip);
    var c := Issued(sign, userID, peerID, ip, l);
    LayoutFields(userID, peerID, Expiration(l), ip, sign(data));
    UnixRoundTrip(l.issuedAt + l.duration);
    if HEADER_SIZE + |ip| < 0x100 {
      assert c[..HEADER_SIZE + |ip|] == data && c[HEADER_SIZE + |ip|..] == sign(data);
      assert verify(data, sign(data));
    } else {
      ValidLength(verify, c, now);
    }
  }

  /** At 231 bytes the one-byte end of the address wraps to zero, and no credential verifies. */
  lemma LongAddressNeverVerifies(sign: Signer, verify: Verifier, l: Lease, now: int)
    requires Matching(sign, verify)
    ensures var ip := seq(231, _ => 0);
            Verify(verify, Issued(sign, 1, 2, ip, l), now) != Valid(1, 2, ip)
  {
    hide Verify, Issued, Layout, Unix, Expiration;
    VerifyExact(sign, verify, 1, 2, seq(231, _ => 0), l, now);
  }

  /** An IPv4 or IPv6 credential with a signature verifies at exactly the times up to its expiration. */
  lemma VerifyUntilExpiration(sign: Signer, verify: Verifier, userID: uint64, peerID: uint64, ip: seq<byte>, l: Lease, now: int)
    requires Matching(sign, verify) && |ip| in {4, 16}
    requires sign(Layout(userID, peerID, Expiration(l), ip)) != []
    ensures Verify(verify, Issued(sign, userID, peerID, ip, l), now) ==
            if Unix(now) <= Expiration(l) then Valid(userID, peerID, ip) else Invalid
  {
    hide GetU64, ToInt64, ToUint64, Unix;
    VerifyExact(sign, verify, userID, peerID, ip, l, now);
    var data := Layout(userID, peerID, Expiration(l), ip);
    var c := Issued(sign, userID, peerID, ip, l);
    LayoutFields(userID, peerID, Expiration(l), ip, sign(data));
    UnixRoundTrip(l.issuedAt + l.duration);
    assert c[..HEADER_SIZE + |ip|] == data;
  }

  /** The signed bytes determine every field, so a signature binds the whole triple and the expiration. */
  lemma LayoutInjective(user1: uint64, peer1: uint64, l1: Lease, ip1: seq<byte>,
                        user2: uint64, peer2: uint64, l2: Lease, ip2: seq<byte>)
    requires Layout(user1, peer1, Expiration(l1), ip1) == Layout(user2, peer2, Expiration(l2), ip2)
    ensures user1 == user2 && peer1 == peer2 && Expiration(l1) == Expiration(l2) && ip1 == ip2
  {
    hide GetU64, PutU64, ToInt64, ToUint64, Unix, Layout;
    var data := Layout(user1, peer1, Expiration(l1), ip1);
    LayoutFields(user1, peer1, Expiration(l1), ip1, []);
    LayoutFields(user2, peer2, Expiration(l2), ip2, []);
    assert data + [] == data;
    UnixRoundTrip(l1.issuedAt + l1.duration);
    UnixRoundTrip(l2.issuedAt + l2.duration);
  }

  // ---- renewal ----

  /** The portal verifies the old credential at the time of the new lease and reissues its triple. */
  ghost function Renew(sign: Signer, verify: Verifier, previous: seq<byte>, l: Lease): Option<seq<byte>> {
    match Verify(verify, previous, l.issuedAt)
    case Valid(userID, peerID, ip) => Some(Issued(sign, userID, peerID, ip, l))
    case _ => None
  }

  ghost function RenewAll(sign: Signer, verify: Verifier, credential: seq<byte>, leases: seq<Lease>): Option<seq<byte>>
    decreases |leases|
  {
    if leases == [] then Some(credential)
    else
      match Renew(sign, verify, credential, leases[0])
      case Some(next) => RenewAll(sign, verify, next, leases[1..])
      case None => None
  }

  ghost predicate InTime(first: Lease, leases: seq<Lease>)
    decreases |leases|
  {
    leases == [] || (Unix(leases[0].issuedAt) <= Expiration(first) && InTime(leases[0], leases[1..]))
  }

  ghost function LastLease(first: Lease, leases: seq<Lease>): Lease {
    if leases == [] then first else leases[|leases| - 1]
  }

  ghost predicate Signs(sign: Signer) {
    forall data :: sign(data) != []
  }

  /** Any number of renewals succeeds if and only if each is made before the previous expiration, and
      then the result is a credential for the original triple under the last lease. */
  lemma {:induction false} RenewalChain(sign: Signer, verify: Verifier, userID: uint64, peerID: uint64, ip: seq<byte>,
                                        first: Lease, leases: seq<Lease>, now: int)
    requires Matching(sign, verify) && Signs(sign) && |ip| in {4, 16}
    ensures var r := RenewAll(sign, verify, Issued(sign, userID, peerID, ip, first), leases);
            (r.Some? <==> InTime(first, leases))
            && (r.Some? ==> Verify(verify, r.value, now) ==
                            if Unix(now) <= Expiration(LastLease(first, leases)) then Valid(userID, peerID, ip) else Invalid)
    decreases |leases|
  {
    hide Layout, Issued, Verify, Unix, Expiration, Matching;
    if leases == [] {
      VerifyUntilExpiration(sign, verify, userID, peerID, ip, first, now);
    } else {
      VerifyUntilExpiration(sign, verify, userID, peerID, ip, first, leases[0].issuedAt);
      if Unix(leases[0].issuedAt) <= Expiration(first) {
        RenewalChain(sign, verify, userID, peerID, ip, leases[0], leases[1..], now);
      }
    }
  }
}
