# A verified model of PairMesh

PairMesh joins the devices of its users into a virtual network. Nodes talk to relay servers over a
framed TCP stream, find each other by probes and catch-ups sent through those relays, agree on a key
per pair of nodes, and then exchange packets directly over UDP or through a relay. This project
models that core in Dafny and proves what it keeps on every input and over every run.

| file | part of the system |
|---|---|
| `Bytes.dfy` | words of fixed width, exclusive or, big-endian bytes |
| `RelayCodec.dfy` | the framing of the relay stream: a decoder fed arbitrary chunks |
| `Handshake.dfy` | one relay client and one session on FIFO links, from clear to sealed frames |
| `Registry.dfy` | the relay server's sessions, superseding, routing and probe replies |
| `PeerCodec.dfy` | the masked header of UDP fragments |
| `Stun.dfy` | STUN binding requests and responses (RFC 5389) |
| `Credential.dfy` | signed credentials and their renewal |
| `Tunnel.dfy`, `Peer.dfy` | one tunnel, one peer record, and their quadratic back-offs |
| `Router.dfy` | the route table kept by difference |
| `Mesh.dfy`, `Manager.dfy` | the mesh manager by value, and as maps of shared objects changed in place |
| `Topology.dfy` | network membership merged through pointers into a growing slice |
| `Driver.dfy`, `MeshKeys.dfy` | relayed frames at a node, and any number of nodes exchanging keys and data |

Where the source changes objects in place, a class does the same, and each method's contract ties its
new value to a function of the old one. Theorems about runs are then proved about those functions.
One handler call, one `Close` or one manager call is one atomic step. Foreign code is a parameter
with its law: key exchange commutes, opening undoes sealing, a verifier accepts what its signer
signed, and the checksum is any function. Clocks, nonces, relay availability and accepted sends
are parameters as well.

Beside the theorems about runs, each operation is characterised without naming how it is computed: bytes
on the wire by the bits and numbers they stand for, parsers and verifiers by an if-and-only-if over every
byte string, back-offs by exactly when something is sent, handlers by what one more event does to a
reachable state.

Where the code does not do what one would expect of it, the model follows the code and the exact
condition is proved:

- A payload under ten bytes that a call cuts is handed out late, or never (`DeliveryExact`,
  `CutPayloadIsHeldBack`).
- A frame of length zero stops the decoder for good (`ZeroLengthStalls`, `EmptyPayloadStops`,
  `EmptyPayloadLosesTheNext`).
- Merging a peer's networks loses an announcement that comes after an append moved the slice
  (`MergeExact`, `LateAnnouncementIsLost`).
- A failed key exchange leaves a new peer tabled without its route (`CatchupRoutesExact`,
  `FailedExchangeLosesRoute`).
- An address that does not parse makes `Update` and `PeerCatchup` return with the lock held, and a
  dropped peer that never got a tunnel makes `Update` panic with the lock held (`Manager.Update`).
- A second handshake of a registered session leaves a stale entry (`HandshakeExactIff`,
  `SecondHandshakeIsStale`).
- A close that is overtaken, between its swap and its hook, by the next handshake of the same peer
  evicts the live session (`HookExactIff`, `OvertakenCloseEvicts`).
- A credential verifies only for addresses short enough for arithmetic in one byte (`VerifyExact`,
  `LongAddressNeverVerifies`).

`dafny verify dfyconfig.toml` checks the whole project.

## Model

| member | source | states |
|---|---|---|
| Bytes.XorBits | internal/codec/relay_codec.go:67 | every bit of the exclusive or is one exactly where the operands differ |
| Bytes.MaskedIsXor | internal/codec/peer_codec.go:47-49 | among words of that width only the exclusive or has those bits |
| Bytes.WrittenBigEndian64 | internal/codec/peer_codec.go:50 | the eight bytes written for a word stand for it, most significant first |
| Bytes.ReadBigEndian64 | internal/codec/peer_codec.go:65 | what is read from eight bytes is the number they stand for |
| RelayCodec.HeaderRoundTrip | internal/codec/relay_codec.go:59-112 | reading a written header gives back nonce, type modulo 2^16 and size, whatever follows |
| RelayCodec.HeaderRebuild | internal/codec/relay_codec.go:91-112 | any ten bytes are the header of the fields read from them |
| RelayCodec.HeaderOnTheWire | internal/codec/relay_codec.go:59-73 | the ten bytes sent are big-endian nonce and size around the type, whose bits are flipped where the nonce has a one |
| RelayCodec.HeaderReadsTheWire | internal/codec/relay_codec.go:91-112 | the fields read from any ten bytes, bit by bit |
| RelayCodec.Codec.Encode | internal/codec/relay_codec.go:52-80 | the buffer filled in place is the header, as on the wire, followed by the payload |
| RelayCodec.Codec.Decode | internal/codec/relay_codec.go:83-147 | the loop's outcome and every field equal one `Feed` step of the specification |
| RelayCodec.ParseFrames | internal/codec/relay_codec.go:52-147 | the one-shot parser inverts framing, whatever follows |
| RelayCodec.RunAccounts | internal/codec/relay_codec.go:83-147 | on arbitrary input, until the first error: bytes fed = emitted frames ++ pending header ++ buffer |
| RelayCodec.RunRefinesParse | internal/codec/relay_codec.go:83-147 | for every stream and chunking the calls emit what one-shot parsing yields, short of at most one last packet of under ten bytes |
| RelayCodec.ValidStream | internal/codec/relay_codec.go:52-147 | on any part of an encoded stream no call fails, the output is a prefix and the rest is held |
| RelayCodec.ChunkingInvariance | internal/codec/relay_codec.go:52-147 | payloads of 10 to 2016 bytes in any chunks: after each call exactly the complete packets are out, at the end all of them, and under 2016 bytes stay buffered |
| RelayCodec.DeliveryExact | internal/codec/relay_codec.go:83-147 | payloads of 1 to 2016 bytes: everything is delivered iff the last payload has ten bytes or no call ended inside it; otherwise only the last is missing |
| RelayCodec.CutPayloadIsHeldBack | internal/codec/relay_codec.go:86-89 | a concrete two-byte payload cut in the middle that is never handed out |
| RelayCodec.ZeroLengthStalls | internal/codec/relay_codec.go:122-144 | for every stream and chunking without an error: whatever arrives next, nothing ever comes out again, iff a header of size zero follows the packets that parse |
| RelayCodec.StuckExact | internal/codec/relay_codec.go:83-147 | the pending size is zero iff the bytes fed hold such a header |
| RelayCodec.EmptyPayloadStops | internal/codec/relay_codec.go:52-147 | on encoded payloads of 0 to 2016 bytes in any chunks no call fails, nothing from the first empty payload on is handed out, and once its header is fed the output is exactly the packets before it |
| RelayCodec.EmptyPayloadLosesTheNext | internal/codec/relay_codec.go:122-144 | two concrete frames of which neither is ever handed out |
| RelayCodec.OversizeExact | internal/codec/relay_codec.go:122-147 | some call fails iff the stream, behind the packets that parse, holds a complete frame over the limit, whatever the chunks |
| RelayCodec.OneFrame | internal/codec/relay_codec.go:115-147 | a frame in one call is handed out up to 2016 bytes and refused above |
| PeerCodec.Encode | internal/codec/peer_codec.go:39-54 | the buffer has the wire layout and decodes to the nonce, type, peer id and ciphertext it was made of |
| PeerCodec.DecodeInvertsEncode | internal/codec/peer_codec.go:39-69 | decoding inverts encoding for every nonce, type, peer id and ciphertext |
| PeerCodec.EncodeInvertsDecode | internal/codec/peer_codec.go:57-69 | a datagram decodes iff it has 14 bytes, and re-encoding gives back the same bytes |
| PeerCodec.LayoutOnTheWire | internal/codec/peer_codec.go:43-51 | big-endian nonce, type and peer id, the type and the low half of the id flipped where the nonce has a one, the high half where it has a zero |
| PeerCodec.DecodeReadsTheWire | internal/codec/peer_codec.go:57-69 | what any datagram of 14 bytes decodes to, bit by bit |
| Stun.WalkVisitsAll | internal/stun/stun.go:155-173 | every attribute list with arbitrary padding is visited exactly and in order |
| Stun.WalkedIsEncoding | internal/stun/stun.go:155-173 | conversely bytes walked to the end are the encoding of what was visited |
| Stun.AttrOnTheWire | internal/stun/stun.go:155-173 | an attribute is its big-endian type and length, its value and padding to the next multiple of four |
| Stun.MappedIff | internal/stun/stun.go:335-349 | for every byte string: a plain address is read iff family, port and address bytes say so |
| Stun.XorMappedIff | internal/stun/stun.go:291-320 | for every byte string: a masked address is read iff it is the bytes with every bit flipped where the cookie and transaction id have a one |
| Stun.ReadXorMappedAddress | internal/stun/stun.go:291-320 | the loop unmasks every address byte, on every input |
| Stun.NoteAttr | internal/stun/stun.go:245-271 | the callback keeps the last address of each kind and family and rejects exactly malformed ones |
| Stun.LastOfExact | internal/stun/stun.go:245-271 | the address kept for a kind is that of the last attribute carrying one, and there is none exactly when no attribute does |
| Stun.CollectAddresses | internal/stun/stun.go:237-274 | the walk succeeds iff the list and all its addresses are well formed, and keeps the last of each kind |
| Stun.ParseResponse | internal/stun/stun.go:218-289 | on every byte string the result is the one its attribute list calls for |
| Stun.ResponseSelects | internal/stun/stun.go:218-289 | for all attributes, padding and trailing bytes: last XOR IPv4, else last MAPPED IPv4, else last XOR IPv6, else last MAPPED IPv6, and failure exactly otherwise |
| Stun.ResponseIff | internal/stun/stun.go:218-289 | every byte string parses to an id and address iff it is a success response of well-formed attributes of which that is the preferred, last address |
| Stun.Response | internal/stun/stun.go:176-213 | the built response parses to the id, port and address, IPv4-mapped addresses reduced to four bytes; nothing for other lengths |
| Stun.ResponseRoundTrip | internal/stun/stun.go:176-320 | parsing inverts building for every id, port and 4- or 16-byte address, whatever follows |
| Stun.ResponseOnTheWire | internal/stun/stun.go:189-212 | the response carries one XOR-MAPPED-ADDRESS attribute with the masked address |
| Stun.ReducedExact | internal/stun/stun.go:176-179 | exactly the IPv4-mapped IPv6 addresses are reduced to their last four bytes |
| Stun.Request | internal/stun/stun.go:66-91 | the built request is accepted with its id |
| Stun.ParseBindingRequest | internal/stun/stun.go:107-142 | on every byte string the verdict is the one its attribute list calls for |
| Stun.RequestRoundTrip | internal/stun/stun.go:66-142 | for every id and checksum the request is accepted, its length counts the attribute bytes and the fingerprint covers all before its attribute |
| Stun.BindingIff | internal/stun/stun.go:107-142 | every byte string is accepted with an id iff it is a request from meshnode ending in a FINGERPRINT that claims the masked checksum of all but the last eight bytes |
| Stun.RefusedFor | internal/stun/stun.go:107-142 | the reason a request is refused is the first that applies |
| Stun.FailedFor | internal/stun/stun.go:218-289 | the reason a response fails |
| Stun.RequestOnTheWire | internal/stun/stun.go:66-91 | the request byte for byte, and the bits of its fingerprint |
| Credential.Issue | security/credential.go:42-58 | the buffer filled in place is the layout followed by its signature |
| Credential.LayoutFields | security/credential.go:42-58 | every field can be read back at its offset |
| Credential.LayoutOnTheWire | security/credential.go:42-52 | big-endian user, peer and expiration, the length of the address and the address |
| Credential.ExpirationExact | security/credential.go:42-58 | a lease expires with the second in which it ends |
| Credential.VerifyIff | security/credential.go:61-83 | every byte string verifies to a triple iff it is long enough, lays out the triple with an unexpired time, and the verifier accepts its signature |
| Credential.ValidIsIssued | security/credential.go:42-83 | with a verifier that accepts only the signer's signatures, what verifies was issued for that triple |
| Credential.PanicsIff | security/credential.go:61-83 | a slice is out of range exactly when the one-byte end lies past the bytes or wraps before the address |
| Credential.VerifyExact | security/credential.go:61-83 | a credential verifies to its own triple iff the address fits the one-byte arithmetic, the length check passes and it has not expired |
| Credential.LongAddressNeverVerifies | security/credential.go:61-83 | an address of 231 bytes, for which the end of the signed bytes wraps to zero |
| Credential.VerifyUntilExpiration | security/credential.go:42-83 | for 4- and 16-byte addresses it verifies at exactly the times up to its expiration |
| Credential.LayoutInjective | security/credential.go:42-58 | the signed bytes determine user, peer, expiration and address |
| Credential.RenewalChain | portal/api/api_internal.go:350-370 | any number of renewals succeeds iff each is in time, and the result verifies for the original triple up to the last expiration |
| Registry.Session.Close | internal/relay/session.go:200-209 | closes once, runs the hook once, and evicts only as `CloseSession` says |
| Registry.Session.OnHandshake | internal/relay/session_handler.go:88-137 | sets the peer, queues the acknowledgement and registers the session, as one step of the specification |
| Registry.Server.OnSessionHandshake | internal/relay/server.go:167-191 | closes the registered session of the peer, then stores the new one |
| Registry.Server.OnRouted | relay/server/callbacks.go:39-86 | queues the frame at the destination's registered session only |
| Registry.Server.OnProbe | relay/server/callbacks.go:54-71 | replies with the requested ids split into online and offline |
| Registry.Server.Close | internal/relay/server.go:148-164 | closes every registered session once |
| Registry.RegistryExact | internal/relay/server.go:148-204 | in every reachable state of an open server the map holds exactly the running, unclosed, non-zero-peer sessions under their own id |
| Registry.HandshakeExactIff | internal/relay/server.go:167-191 | a handshake keeps the map exact iff the session is not registered yet, and open unless its peer id is zero |
| Registry.SecondHandshakeIsStale | internal/relay/server.go:167-191 | a concrete second handshake that leaves one session registered under two peers |
| Registry.CloseIsSwapThenHook | internal/relay/session.go:200-209 | the atomic close is the swap of the flag followed by the hook |
| Registry.HookExactIff | internal/relay/server.go:194-204 | a delayed hook leaves every live session registered iff its peer has no live session by then |
| Registry.SplitExact | internal/relay/session.go:200-209 | over every run with close split in two and no hook overtaken: every live session is registered, every entry is live or about to go, and between closes the map is exact |
| Registry.OvertakenCloseEvicts | internal/relay/server.go:194-204 | a concrete run in which a close, overtaken by the next handshake of its peer, evicts the live session |
| Registry.SupersededCloseIsHarmless | internal/relay/session.go:200-209 | closing a superseded session changes nothing and its successor stays registered |
| Registry.DestinationCheckPasses | relay/server/callbacks.go:39-86 | in every reachable state each queued Forward or SyncPeer frame is addressed to the session's own peer, and the session is running |
| Registry.ProbeSound | relay/server/callbacks.go:54-71 | in every reachable state a probe of an open running session appends one packet to its queue: an order-preserving partition of the request, online exactly for peers with an open running session, repeat-free if the request is; nothing else changes |
| Registry.RoutedExact | relay/server/callbacks.go:39-86 | a Forward or SyncPeer frame is appended unchanged to the queue of the one live session of its destination, or nothing happens |
| Registry.NoRoomNoChange | internal/relay/session.go:162-168 | without room nothing is queued |
| Registry.HandshakeExact | internal/relay/session_handler.go:125-137 | a handshake starts its session with one acknowledgement queued, closes the peer's other live session and leaves all others alone |
| Registry.HeartbeatExact | internal/relay/session_handler.go:140-144 | a heartbeat is echoed to the session it came from |
| Registry.CloseExact | internal/relay/session.go:200-209 | a close marks the session, takes out its own entry and changes nothing else |
| Handshake.ClientTransporter.Dial | internal/relay/client_transporter.go:130-174 | from the initial state only: queues one handshake and starts connecting |
| Handshake.ClientTransporter.Handle | internal/relay/client_handler.go:52-107 | the gate, the decryption and the callbacks, as one step of the specification |
| Handshake.SessionTransporter.Handle | internal/relay/session_handler.go:54-137 | the gate, the decryption and the handshake, as one step of the specification |
| Handshake.FramesOnTheWire | internal/relay/write_packet.go:37-63 | over every run a frame is clear iff it is a handshake or its acknowledgement; all others are sealed under the one shared key |
| Handshake.HandshakeSound | internal/relay/session_handler.go:54-137 | over every run no frame meets a closed gate, a missing cipher or a failed decryption; at most one handshake is accepted, the signal closes at most once, and both ciphers are the same |
| Handshake.AcceptedIff | internal/relay/session_handler.go:88-131 | over every run the session runs iff it met the hello with a valid credential, and is as new until then |
| Handshake.HandshakeCompletes | internal/relay/client_handler.go:85-107 | from every reachable state with the hello on its way, a valid credential, the written acknowledgement and its reading leave both ends with the key of their two secrets, the client connected with the server's interval and signalled once |
| Handshake.HelloReachesTheWire | internal/relay/client_transporter.go:130-174 | connecting and writing puts the hello on the wire |
| Handshake.SessionMovesOnly | internal/relay/session_handler.go:54-131 | in any state a session moves only on a valid clear hello, or on a frame sealed under its own cipher |
| Handshake.ClientMovesOnly | internal/relay/client_handler.go:52-107 | in any state a client moves only on an acknowledgement sealed under the key it computes |
| Handshake.GatesClosed | internal/relay/session_handler.go:54-60 | before the handshake every other frame is refused |
| Handshake.SessionAnswers | internal/relay/session_handler.go:54-85 | what a running session queues for each kind of frame |
| Handshake.ClientAnswers | internal/relay/client_handler.go:52-83 | which frames a connected client has callbacks for |
| Router.Router.Issue | node/device/router.go:57-70 | the issued commands turn the table into the one without the deletions and with the additions |
| Router.Router.Set | node/device/router.go:37-74 | the routes installed by all commands so far are exactly the given ones; nothing was added twice or deleted when absent |
| Router.Router.Add | node/device/router.go:76-106 | the given routes join the installed ones, none added twice |
| Tunnel.Tunnel.Write | node/mesh/tunnel/tunnel.go:108-180 | what is sent directly, relayed or asked, and the back-off state, are those of the specification |
| Tunnel.Tunnel.OnUDPPacket | node/mesh/tunnel/tunnel.go:183-225 | every datagram is ignored, rejected, or opened as discovery or fragment, as specified |
| Tunnel.DirectArrives | node/mesh/tunnel/tunnel.go:108-225 | what one end writes directly the other, with the same key, receives byte for byte |
| Tunnel.RunSpaced | node/mesh/tunnel/tunnel.go:108-180 | over a tunnel's life pair requests i and i+1 are more than i squared seconds apart |
| Tunnel.PairRequestRate | node/mesh/tunnel/tunnel.go:108-180 | n >= 2 pair requests span more than (n-1)n(2n-1)/6 seconds, whatever the writes, failures and discovery phases |
| Tunnel.PairRequestIff | node/mesh/tunnel/tunnel.go:108-180 | after any events a write sends a pair request, to the peer, naming this node and its endpoints, iff nothing is reachable, a relay takes it, no discovery runs, there are endpoints, and more than k squared seconds have passed since the k-th |
| Tunnel.DataSentIff | node/mesh/tunnel/tunnel.go:108-146 | data goes as one datagram to a reachable endpoint, else as one relayed fragment, both sealed under the tunnel's key and nonce |
| Tunnel.NotReceived | node/mesh/tunnel/tunnel.go:183-205 | which datagrams are ignored, undecodable or of a wrong type |
| Tunnel.ReceiveIff | node/mesh/tunnel/tunnel.go:183-225 | every datagram is taken as a fragment or discovery message iff it encodes a ciphertext of that type which the key opens |
| Peer.CatchupRate | node/mesh/peer/peer.go:99-139 | sends k and k+1 are more than 30(k+1)^2 seconds apart, so n >= 2 of them span more than 30(n(n+1)(2n+1)/6 - 1) seconds |
| Peer.NoSendAfterCatchup | node/mesh/peer/peer.go:99-139 | nothing is sent after a completed catch-up, whatever follows |
| Peer.SendIff | node/mesh/peer/peer.go:99-129 | a probed record sends again iff nothing completed and more than 30(k+1)^2 seconds have passed since its k-th send |
| Mesh.SortUnique | node/mesh/manager.go:522-541 | a list has one sorted permutation, so comparing sorted lists compares multisets |
| Mesh.LessEqIff | node/mesh/manager.go:522-523 | the order of sorted endpoints is the lexicographic one |
| Mesh.EndpointChangeExact | node/mesh/manager.go:521-586 | a call is a no-op iff its endpoints are a permutation, with multiplicity, of the stored ones; otherwise the sorted list is stored and held by every tunnel |
| Mesh.EndpointsOnly | node/mesh/manager.go:521-560 | a change touches nothing but the stored list and the tunnels' copies |
| Mesh.MergedAt | node/mesh/manager.go:174-245 | a listed peer keeps its record, or gets a new one for its last listing |
| Mesh.MergedKeys | node/mesh/manager.go:174-245 | the new table lists exactly the latest peers |
| Mesh.NewlyListed | node/mesh/manager.go:199-206 | a newly listed peer enters under its last listing, never probed, never asked, without a tunnel |
| Mesh.RunAgrees | node/mesh/manager.go:174-586 | in every state of every orderly run of updates, catch-ups, acknowledgements, probes and endpoint changes: keys are peer ids, the index holds exactly the tabled addresses, installed routes are exactly the remote peers', every tunnel has the stored endpoints |
| Mesh.CatchupRoutesExact | node/mesh/manager.go:374-431 | a catch-up keeps routes and table in step iff the peer was known, the exchange succeeded or the prefix was installed |
| Mesh.FailedExchangeLosesRoute | node/mesh/manager.go:388-431 | a concrete catch-up that leaves a peer without its route |
| Mesh.CandidatesExact | node/mesh/manager.go:292-313 | the peers to catch up are exactly the online tabled ones that need it, in order |
| Mesh.ProbeIsOneEvent | node/mesh/manager.go:292-371 | a repeat-free response is, for each record it names, one check and at most one send |
| Mesh.ProbeStatusExact | node/mesh/manager.go:292-323 | after a response the peers it names offline are offline, the others it names online are online, and no other status changed |
| Mesh.CatchupRecordExact | node/mesh/manager.go:374-426 | the record a catch-up leaves, field by field, for known and unknown peers and both outcomes of the exchange |
| Mesh.AckExact | node/mesh/manager.go:460-492 | an acknowledgement does to a tabled peer what a catch-up does, and otherwise nothing |
| Mesh.RecordFollows | node/mesh/manager.go:174-492 | from the update or catch-up that created it, a record's status is that of the events concerning it |
| Mesh.LeavesExact | node/mesh/manager.go:292-371 | a catch-up to a peer is among the messages sent iff the peer is tabled, its record needs one at the check and the send is accepted; it announces this node's id, address, primary server and public key |
| Mesh.SentOnce | node/mesh/manager.go:352-370 | no response makes a node send two catch-ups to one peer |
| Mesh.NodeCatchupRate | node/mesh/manager.go:247-371 | over every run of a node, failed exchanges included, and for every record however created: the catch-ups that leave for it obey the quadratic back-off and its span |
| Mesh.LeavesIff | node/mesh/manager.go:292-371 | over every run, before completion: a catch-up to a peer leaves iff a response read while connected names it, the send is accepted, and more than 30(k+1)^2 seconds have passed since the k-th that left |
| Mesh.NodeCatchupStops | node/mesh/manager.go:292-492 | once a catch-up or acknowledgement of a peer completed, no catch-up to it leaves while its record stays |
| Manager.Manager.MergeLatest | node/mesh/manager.go:199-217 | builds the new table out of the tabled objects and new ones, and the routes; fails iff some remote address does not parse |
| Manager.Manager.CloseDropped | node/mesh/manager.go:223-229 | closes dropped tunnels in any order and fails iff some dropped peer has none; nothing but their flags changes |
| Manager.Manager.Update | node/mesh/manager.go:174-245 | the value becomes an `Updated` one and dropped tunnels are closed; it fails exactly on an unparsable address, with nothing changed, and panics exactly on a dropped peer without a tunnel, with at most dropped tunnels closed; both leave the lock held |
| Manager.Manager.SetUpTunnel | node/mesh/manager.go:412-426 | one record gets a new tunnel under the exchanged key with the stored endpoints, the others are untouched |
| Manager.Manager.PeerCatchup | node/mesh/manager.go:374-457 | the value becomes the caught-up one, the acknowledgement sent and the verdict are exact, including the paths that fail |
| Manager.Manager.PeerCatchupAck | node/mesh/manager.go:460-492 | a known peer gets its tunnel and completes; an unknown one changes nothing |
| Manager.Manager.ProbeResult | node/mesh/manager.go:292-371 | statuses, back-off counters and the catch-ups sent are exactly the specified ones |
| Manager.Manager.ProbeGroups | node/mesh/manager.go:247-263 | each group holds exactly the due remote peers of its server, once each, and every due peer is in one |
| Manager.Manager.SyncEndpoints | node/mesh/manager.go:521-586 | the comparison loop and the update of shared tunnels give the specified value; exactly the discovered tunnels' peers are notified, and only on a change |
| Topology.Networks.Pointers | node/mesh/manager.go:609-613 | one pointer per stored id, to its last entry in the slice |
| Topology.Networks.JoinAnnounced | node/mesh/manager.go:616-637 | the first pass, writing through pointers while the slice grows, is the specified merge |
| Topology.Networks.Update | node/mesh/manager.go:600-664 | both passes together are the specified merge |
| Topology.MergeKeepsTheRest | node/mesh/manager.go:600-664 | every network keeps its place, name and other members in order, and unknown announced networks are appended |
| Topology.MembersExact | node/mesh/manager.go:616-662 | a peer that joins goes to the end of the members, one that leaves is removed where it first stood, otherwise the list stays |
| Topology.UnknownInOrder | node/mesh/manager.go:630-636 | the appended networks are the announced ones that are not stored, in order, with their names and the peer alone |
| Topology.MergeExact | node/mesh/manager.go:600-664 | afterwards the peer is in a network iff it announced it, if and only if no late announcement goes through a detached pointer |
| Topology.MergeStaysWellKept | node/mesh/manager.go:600-664 | distinct ids and repeat-free members survive every merge |
| Topology.SpareLeft | node/mesh/manager.go:630-636 | how many slots a merge leaves before the next append moves the slice |
| Topology.KnownFirstHolds | node/mesh/manager.go:600-664 | announcing known networks before new ones is enough, for every capacity |
| Topology.LateAnnouncementIsLost | node/mesh/manager.go:616-637 | a concrete announcement that the merge loses |
| Driver.NodeDriver.OnForward | node/driver/relay_callback.go:31-63 | a relayed fragment is rejected, or opened under its sender's tunnel and passed to the device, as specified |
| Driver.NodeDriver.OnSyncPeer | node/driver/relay_callback.go:66-96 | a message for this node is a catch-up or acknowledgement step with the specified reply; any other changes nothing |
| Driver.ForwardedIff | node/driver/relay_callback.go:31-63 | which relayed fragments are refused and why, and that the others are delivered iff the sender's tunnel opens them |
| Driver.ProbeReplyDistinct | relay/server/callbacks.go:54-71 | a repeat-free request gets a reply whose online peers are repeat-free |
| Driver.RelayedIsAccepted | node/driver/relay_callback.go:38-40 | no Forward queued for a node's session is rejected by its driver for the destination |
| Driver.RelayedSyncIsAccepted | node/driver/relay_callback.go:66-96 | nor is a SyncPeer message; only an unparsable address of an unknown peer stops it |
| MeshKeys.TunnelKeysAgree | node/mesh/manager.go:334-492 | in every state of every run of any number of nodes: each sync message carries its sender's own id and public key, each tunnel X holds for Y uses DH(X, Y), and both ends have the same key |
| MeshKeys.DatagramsArrive | node/mesh/tunnel/tunnel.go:108-225 | every UDP fragment in flight opens to the written bytes at any receiver with a tunnel for the sender, however often and late |
| MeshKeys.ForwardsArrive | node/driver/relay_callback.go:31-63 | every relayed fragment is delivered byte for byte, unless the receiver does not know the sender or has no tunnel yet |
| MeshKeys.TunnelsTalk | node/mesh/tunnel/tunnel.go:108-225 | with tunnels on both sides, what one node writes and a socket or relay takes is opened to the same bytes by the other |
| MeshKeys.ExchangeCompletes | node/mesh/manager.go:374-492 | a delivered catch-up is acknowledged, and the acknowledgement leaves tunnels with the same key at both ends, over which what is written arrives byte for byte |

## Left out

- Sockets, channel capacities, deadlines, contexts and goroutine scheduling: queues are sequences and handlers are atomic, except for `Close`, which `Registry.SplitExact` takes in two steps.
- RelayCodec.Codec.Encode: demands that ten bytes and the payload length modulo 2^32 fit an unsigned 32-bit size, because beyond it the source's buffer is too short and it panics.
- Handshake.HandshakeSound: covers one client and one session whose links stay open; closing and reconnecting are not steps of that model. A handshake is one step: in the source the session is registered before its acknowledgement is queued, so a Forward of another session can overtake the acknowledgement and be refused by the connecting client.
- Handshake.ClientTransporter.Dial: stands for the part of `Connect` up to the queued handshake, without its failures; waiting for the signal is the `returned` step of a run.
- Registry.Session.OnHandshake: starts after the credential is verified and the noise reply is written; a refused handshake changes nothing.
- Registry.SplitExact: splits the closes of serving loops; the close inside a handshake or a server close stays part of that step.
- Tunnel.PairRequestRate: assumes a life shorter than the range of a Duration, about 292 years, where the interval would wrap.
- Peer.CatchupRate: assumes a run shorter than the range of a Duration, for the same reason.
- Mesh.NodeCatchupRate: assumes a run shorter than the range of a Duration, for the same reason.
- Credential.Issue: takes the buffer handed to the signature as exactly full, so appending the signature never shares it.
- Router.Router.Set: takes every route command as successful; the source logs a failed one and goes on.
- Router.Router.Add: takes every route command as successful, as above.
- Manager.Manager.Update: leaves out the stored networks, replaced before the lock is taken, and the probing of peers at the end.
- Manager.Manager.ProbeGroups: models the grouping of `probePeers`; sending the requests and storing their times, which no other result reads, is left out.
- Manager.Manager.PeerCatchup: takes a message with peer information and a primary server. Without the former the driver dereferences nil before the manager would return, without the latter the manager panics. The merge of networks is `Topology`'s.
- Manager.Manager.SyncEndpoints: sorts a copy, while the source sorts its argument in place; which relay carries the notifications is left out.
- Driver.NodeDriver.OnSyncPeer: models the catch-up and acknowledgement branches; pair requests, pair responses and endpoint changes are left out.
- Topology.Networks.Update: member lists are values, so sharing of their backing arrays between networks is not captured.
- Endpoint pruning, latency order and the discovery loop of tunnels; the heartbeat time a session stores.
- The reconnect logic of the client manager and the cached summary of the mesh manager.
- The inside of Noise, ChaCha20-Poly1305, X25519, RSA, CRC32 and protobuf.
- The portal's HTTP and database code, the GUI, device drivers, firewall and build tools.
