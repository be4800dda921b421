# Verification of the Trojan front end

A Dafny model of how `trojan-rust` treats a client: the connection front end that peeks at a
stream until it can tell a Trojan header from anything else and then proxies or falls back, the
address and header codecs it rests on, the UDP association with its event loop, and the Vision
request codec with its connection state machine and splice loop.

Check it with `dafny verify dfyconfig.toml` (Dafny 4.11).

## How the system is modelled

- **Streams.** `Streams.ByteStream` is a connected stream: all the bytes its peer will send, how many
  have been read, and what has been written back. A read returns any non-empty part of what is asked
  for, and nothing only at the end, so what is proved of a method holds for every way the network
  may cut the bytes into chunks. `Fallback.PrefixedStream` is the source's wrapper that gives unread
  bytes back.
- **Readers.** A streaming reader is specified by a function from the bytes still to come to a
  `Step`: its result and how many bytes it has taken. Methods do the reads one by one and are proved
  to do that `Step`; the lemmas compare the functions with the slice parsers and the encoders.
- **Addresses.** An address holds a socket address of either family, with the IPv6 flow and scope
  that the encoders drop (`OnWire` is what is left). A domain is a byte sequence that is valid UTF-8.
- **The world.** What the operating system decides is a parameter: whether a connection is made,
  which write fails and after how many bytes, what a name resolves to, the clock, and, for the two
  `select!` loops, a script that says who wins each race. A finite script is a finite beginning of a
  run, so a statement for every script is a statement at every loop head of every run.
- **SHA-224** is a parameter of which only the length of the digest is used.
- **Arithmetic.** The counters and the Vision timestamp test wrap, as in the release profile of
  `Cargo.toml`. The test with overflow checks is modelled beside it.

Modules: `Errors`, `Bytes`, `Utf8`, `Streams`, `Addresses` (command and address), `Headers` (header and
header end), `Fallback` (prefixed stream, peeking, forwarding), `Server` (the connection), `UdpFrames`
(framing), `UdpRelay` (the event loop as a state machine), `Udp` (the event loop itself), `Vision`,
`StateMachine`, `Splice`,
`Passwords` (hexadecimal digests and what verifies), `WireLayout` (the formats byte by byte, in numbers).

## Main results

- Any fragmentation, one decision: `Server.PeekHeader` and `Server.HandleConnection` decide by
  `Dispatch` on the whole stream, after at most 320 non-empty reads; `Server.ProxiedIffHeaderThenPayload` says
  independently of the parser which streams are proxied. The fallback backend is sent the whole
  stream, a proxied target exactly what follows the header.
- The streaming parser refines the slice parser (`Headers.StreamingRefinesSlice`), and the three
  address readers agree up to the empty domain (`UdpFrames.AddressReadersAgree`).
- Codecs invert each other in both directions, as equivalences: `Addresses.ParseIffWireForm`,
  `Headers.TryParseIffForm`, `UdpFrames.FrameIffEncoding`, `UdpFrames.DecodeIffEncodings`,
  `Vision.AcceptedIffEncoding`.
- The UDP loop: `UdpRelay.RelayConserves` holds for every run and says when the frames handed on are
  the decoding of the bytes taken, namely iff no read of a frame was dropped half-way or failed.
  A datagram that arrives while a frame is half read does drop it: `UdpRelay.HalfReadFrameIsLost`
  shows that this can happen at every byte of every frame and that the frame is then never handed on.
- The model's own vocabulary is pinned to the protocols' numbers: `WireLayout` gives every format byte by
  byte, and `Passwords.VerifyIffKnownDigest` says who is let in, in terms of digests.
- The Vision timestamp window is 300 seconds on a circle of 2^64 plus the opposite point
  (`Vision.FreshIsCircular`), so for a present-day clock exactly one timestamp too many is accepted.

## Model

| member | source | states |
|---|---|---|
| Utf8.ValidUtf8IsEncodedScalars | src/protocol/address.rs:35 | what `String::from_utf8` accepts (section 4 of RFC 3629) is exactly the encodings of sequences of scalar values (section 3) |
| Addresses.Command.FromU8 | src/protocol/command.rs:10-21 | `from_u8` is the inverse of `as_u8` and rejects every other byte, naming it |
| Addresses.Encode | src/protocol/address.rs:128-171 | the vector pushed together is the specified encoding, with the error cases for the empty or over-long domain and for a socket of the other family |
| Addresses.Ipv6FromGroups | src/protocol/address.rs:42-51 | building the address from eight big-endian groups gives back the sixteen octets |
| Addresses.ParseIffWireForm | src/protocol/address.rs:68-125 | `parse_from_buf` yields an address in n bytes iff the first n bytes are that address on the wire |
| Addresses.ParseOfEncoding | src/protocol/address.rs:68-171 | encode then parse, with anything behind it, returns the address and its length; it is the same address iff flow and scope are zero |
| Addresses.ParsedIsEncoding | src/protocol/address.rs:68-171 | parse then encode returns the bytes consumed, at most 259; the empty domain is the only accepted address that cannot be encoded |
| Addresses.ParseIsStable | src/protocol/address.rs:68-125 | a decided parse is not changed by more data |
| Addresses.UndecidedIsShort | src/protocol/address.rs:68-125 | "data insufficient" is answered to fewer than 259 bytes only |
| Addresses.ReadFrom | src/protocol/address.rs:20-57 | the streaming reader does exactly the specified step, errors and bytes taken included |
| Addresses.ReadingRefinesParsing | src/protocol/address.rs:20-125 | the streaming reader accepts the same addresses from the same bytes as the slice parser, reports its errors, and fails with EOF where that wants more data, except for a malformed domain met before its port |
| Headers.TryParseIsStable | src/protocol/header.rs:60-119 | a header or an error found in a buffer is found in every extension of it, with the same header end |
| Headers.TryParseIffForm | src/protocol/header.rs:60-119 | a header is parsed and ends at n iff the first n bytes are hash, CRLF, command, address, CRLF of that header |
| Headers.HeaderEndIsExact | src/server.rs:198-218 | on a parsed buffer no defensive branch is taken, the end lies in the buffer just behind a CRLF, and is at most 320 |
| Headers.HeaderBytesAreForm | src/server.rs:198-218 | the bytes before the header end are the bytes of the parsed header |
| Headers.HeaderEndIsMinimal | src/server.rs:198-218 | every prefix shorter than the header end is undecided and every longer one parses to the same header with the same end |
| Headers.UndecidedHeaderIsShort | src/protocol/header.rs:7-10 | an undecided buffer has at most 319 bytes, so the peek window of 512 is never filled |
| Headers.UndecidedHeaderBoundIsTight | src/protocol/header.rs:7-10 | the bound of 319 is attained |
| Headers.ReadHeader | src/protocol/header.rs:25-49 | the streaming header reader does exactly the specified step, errors and bytes taken included |
| Headers.StreamingRefinesSlice | src/protocol/header.rs:25-119 | on every stream: same header and exactly the bytes to the header end; same error; and where the slice parser wants more data, EOF or one of two early rejections |
| Headers.ParsersAcceptTheSame | src/protocol/header.rs:25-119 | `read_from` returns a header having taken n bytes iff `try_parse_from_buf` returns it and the header end is n |
| Headers.VerifyIffLowercaseMember | src/protocol/header.rs:121-128 | a hash verifies iff its lower-case form is that of a configured password |
| Fallback.PrefixedStream.constructor | src/proxy/fallback.rs:27-32 | the new stream has the prefix followed by the inner stream to deliver |
| Fallback.PrefixedStream.PollRead | src/proxy/fallback.rs:35-49 | a read takes the next bytes of prefix then inner stream, leaves the inner stream alone while prefix remains, and leaves a buffer empty only at the end |
| Fallback.PrefixedStream.ReadExact | src/proxy/fallback.rs:35-49 | reading exactly n bytes through the wrapper is reading them from the concatenation, across the seam |
| Fallback.PeekClientData | src/proxy/fallback.rs:119-127 | the peeked buffer is the front of the stream, empty only at the end or for no capacity |
| Fallback.TurnConserves | src/proxy/fallback.rs:101-103 | one turn of a copy loop keeps delivered and unread bytes the two ends of the stream |
| Fallback.HandleFallback | src/proxy/fallback.rs:77-111 | the backend is sent the peeked bytes and then the rest of the client stream, in order; a gap between read and delivered needs a failed write |
| Fallback.Relay | src/proxy/relay.rs:4-21 | whatever the buffer sizes, the remote side receives a prefix of the prefixed stream in order, all of it if the copy ends, and every turn makes progress |
| Server.DecidedBufferDecides | src/server.rs:134-168 | the decision on a decided buffer is the decision on every stream it begins |
| Server.ProxiedIffHeaderThenPayload | src/server.rs:136-177 | a client is proxied, with a header and a payload, iff its stream is the bytes of that header, with a known password, followed by that payload |
| Server.PeekHeader | src/server.rs:104-168 | for every chunking the peek loop ends after at most 320 non-empty reads with the one-shot decision on the whole stream, and loses no byte |
| Server.HandleConnection | src/server.rs:96-190 | drop, fall back with the whole stream, forward exactly the bytes after the header, or run UDP on exactly those, as the one-shot decision says; short of UDP the client is sent nothing by the server itself, and no datagram leaves |
| UdpFrames.BuildUdpFrame | src/proxy/udp.rs:188-215 | the frame pushed together is refused iff the payload exceeds 65535 bytes, and reads back as the peer's family, address and port and the payload |
| UdpFrames.ReadTargetAddress | src/proxy/udp.rs:149-186 | the UDP address reader does exactly the specified step |
| UdpFrames.ReadUdpFrame | src/proxy/udp.rs:125-147 | the frame reader does exactly the specified step, errors and bytes taken included |
| UdpFrames.ReadingFrame | src/proxy/udp.rs:125-130 | no frame is returned without error iff the stream is at its end on a frame boundary |
| UdpFrames.AddressReadersAgree | src/proxy/udp.rs:149-186 | the three address readers accept the same bytes with the same value and length, except that the UDP reader refuses the empty domain |
| UdpFrames.FrameIffEncoding | src/proxy/udp.rs:125-147 | a frame is read from n bytes iff those bytes are its encoding |
| UdpFrames.FrameReadingIsStable | src/proxy/udp.rs:125-147 | a read that is not out of bytes is not changed by more, and one that is has taken them all |
| UdpFrames.BeginningIsPending | src/proxy/udp.rs:125-147 | every proper beginning of an encoded frame leaves the reader waiting |
| UdpFrames.DecodeOfEncodings | src/proxy/udp.rs:125-215 | reading a concatenation of encoded frames returns these frames, less flow and scope, and goes on with what follows |
| UdpFrames.DecodedIsEncodings | src/proxy/udp.rs:125-186 | a stream that decodes to its end is the concatenation of the encodings of its frames |
| UdpFrames.DecodeIffEncodings | src/proxy/udp.rs:125-186 | unique decodability: a stream decodes to these frames and then to none iff it is their encoding |
| UdpRelay.ClientFrameIsSent | src/proxy/udp.rs:76-97 | a client frame is taken whole; for an IP address, or a domain that resolves, exactly its payload is sent to exactly that address and counted, if the socket can send, and else nothing is sent; the loop goes on |
| UdpRelay.ClientEndsLoop | src/proxy/udp.rs:98-105 | the end of the client stream ends the loop well and a malformed frame ends it with its error, sending nothing |
| UdpRelay.DatagramIsDelivered | src/proxy/udp.rs:106-110 | a datagram is written to the client as one frame that reads back as its source and payload, and is counted; a failed write ends the loop |
| UdpRelay.OtherEventsEndLoop | src/proxy/udp.rs:64-73 | a timeout ends the loop well and a failed receive with its error, moving nothing else |
| UdpRelay.EveryRaceIsOpen | src/proxy/udp.rs:56-61 | with nothing half read every event may come next, with any datagram of up to 65535 bytes |
| UdpRelay.NextKeeps | src/proxy/udp.rs:55-115 | every turn of the loop, whoever wins the race, conserves the bytes of both directions and both counters |
| UdpRelay.RunLoses | src/proxy/udp.rs:55-115 | client bytes are lost in a run iff a read of a frame was dropped half-way or failed in it |
| UdpRelay.RelayConserves | src/proxy/udp.rs:55-115 | in every run: taken bytes are the logged ones in order, sends are what the handed frames resolved to, an IP address to itself, and the handed frames are the decoding of the taken bytes iff no read was dropped half-way or failed |
| UdpRelay.CleanRunDecodesStream | src/proxy/udp.rs:55-115 | in every run in which no event finds a frame half read, the frames handed on and the decoding of the rest are the decoding of the whole stream, a malformed end included |
| UdpRelay.HalfReadFrameIsLost | src/proxy/udp.rs:55-62 | a datagram can arrive at any byte inside any frame, and the frame is then never handed on, however the run continues |
| UdpRelay.DatagramsFit | src/proxy/udp.rs:14-15 | `build_udp_frame` succeeds on a datagram iff it fits the receive buffer, hence on all that are received |
| UdpRelay.ClientReceivesDatagrams | src/proxy/udp.rs:106-110 | in every run the client's bytes decode to one frame for each datagram received, in order, with its payload and the family, address and port of its peer; the counter is their total length |
| Udp.HandleUdp | src/proxy/udp.rs:29-123 | the loop over real streams, socket and counters does, for every script of races, exactly the run of the state machine |
| Vision.EncodeRequest | src/reality/vision.rs:97-137 | the buffer appended together is the specified encoding with a fresh digest |
| Vision.FreshIsCircular | src/reality/vision.rs:75-80 | over all clocks and timestamps the wrapping test accepts exactly a distance of at most 300 modulo 2^64, and 2^63 |
| Vision.FreshBelow63Bits | src/reality/vision.rs:75-80 | below 2^63 the test accepts exactly the distances up to 300, with and without overflow checks |
| Vision.FreshAcceptsOneMore | src/reality/vision.rs:75-80 | for a clock from 300 to 2^63 exactly one timestamp outside the window is accepted, 2^63 after the clock |
| Vision.CheckedPanicsExactly | src/reality/vision.rs:75-80 | with overflow checks the test panics exactly for timestamps from 2^63 to 2^63 past the clock, and agrees elsewhere |
| Vision.ReadRequest | src/reality/vision.rs:41-95 | the request reader does exactly the specified step, errors and bytes taken included |
| Vision.AcceptedIffEncoding | src/reality/vision.rs:41-148 | a request is accepted from n bytes iff it is well formed, in the window, carries its digest, and the bytes are its encoding; so the empty domain, which has no encoding, is never accepted |
| Vision.EncodedRequestIsAccepted | src/reality/vision.rs:41-148 | every well-formed encodable request is accepted from its encoding with its digest made right, leaving what follows unread |
| Vision.SpoiledRequestIsRefused | src/reality/vision.rs:75-148 | an encodable request with an expired timestamp or another digest is refused with that complaint |
| Vision.NewRequestAuthenticates | src/reality/vision.rs:26-187 | a request made by `new` and encoded is read back unchanged by a server whose clock is in the window, and authenticates iff the password is known |
| Vision.AuthenticatorsAgree | src/reality/vision.rs:174-179 | the Vision and the Trojan password checks know the same hashes |
| Vision.Authenticate | src/reality/vision.rs:160-187 | authentication is reading a request and finding its hash, or a timeout; the hash is always a string |
| Bytes.Be64Layout | src/reality/vision.rs:118 | the timestamp's bytes are its base-256 digits, the most significant first |
| WireLayout.AddressLayout | src/protocol/address.rs:128-171 | type 1, 3 or 4, the address bytes (length and name for a domain) and the port, each at its place, and exactly which addresses can be encoded (section 5 of RFC 1928) |
| WireLayout.HeaderLayout | src/protocol/header.rs:60-119 | hash, 0d 0a, command 1 or 3, address, 0d 0a, each at its place |
| WireLayout.FrameLayout | src/proxy/udp.rs:188-215 | address, length, 0d 0a, payload, each at its place, and exactly which frames can be encoded |
| WireLayout.RequestLayout | src/reality/vision.rs:108-137 | fe 01, command, address, timestamp, hash, and the digest of all that precedes it, each at its place |
| WireLayout.HeaderRefusals | src/protocol/header.rs:77-97 | a wrong first CRLF, command or address type is refused with a complaint naming it |
| WireLayout.HeaderWithoutEndIsRefused | src/protocol/header.rs:104-112 | a header with anything else where its last CRLF belongs is refused for that |
| WireLayout.FrameRefusals | src/proxy/udp.rs:149-186 | an unknown address type and the empty domain are refused with their complaint |
| WireLayout.FrameWithoutCrlfIsRefused | src/proxy/udp.rs:135-141 | a frame with anything else where its CRLF belongs is refused for that |
| WireLayout.RequestRefusals | src/reality/vision.rs:42-59 | a wrong magic, version or command byte is refused at that byte |
| WireLayout.RequestNeedsClock | src/reality/vision.rs:75-80 | without a clock a request read in full is refused |
| Passwords.HexRoundTrip | src/protocol/header.rs:131-135 | decoding the lower-case hexadecimal of any bytes gives them back |
| Passwords.HexCheckIffDigest | src/protocol/header.rs:67-72 | fifty-six bytes pass the check iff, up to the case of letters, they are the hexadecimal of 28 bytes |
| Passwords.HashRefusedIffNoDigest | src/protocol/header.rs:60-72 | from 58 bytes on the header is refused for its hash iff that is not the hexadecimal of a digest in either case |
| Passwords.HonestHeaderParses | src/protocol/header.rs:60-135 | the hexadecimal of any digest, in either case, with a command and an encodable address is parsed as that header and ends where it ends |
| Passwords.VerifyIffSameText | src/protocol/header.rs:121-128 | a header verifies iff some configured password has 56 bytes, each equal to the hash's or the other case of the same letter |
| Passwords.VerifyIffKnownDigest | src/protocol/header.rs:121-128 | both authenticators let a client in iff the digest its hash spells is spelt by a configured password |
| Passwords.DifferentHashesNeverVerify | src/protocol/header.rs:121-135 | the hash of one password verifies against that of another iff the two are equal |
| StateMachine.ConnectionStateMachine.constructor | src/reality/state_machine.rs:29-36 | a new machine holds its stream, in the handshake, with no result |
| StateMachine.ConnectionStateMachine.SetFallback | src/reality/state_machine.rs:38-40 | setting the fallback keeps the machine reachable and changes nothing else |
| StateMachine.ConnectionStateMachine.TransitionToAuthenticating | src/reality/state_machine.rs:50-89 | success leads to an authenticated machine whose result is that of an accepted, password-matching request and whose stream is advanced by exactly its encoding; each failure has its error and state, and the stream is put back |
| StateMachine.ConnectionStateMachine.TransitionToForwarding | src/reality/state_machine.rs:91-125 | forwarding succeeds iff the machine is authenticated and the connection is made, and hands over the stream at the end of the request |
| StateMachine.Drive | src/reality/state_machine.rs:29-125 | whatever operations are applied, a machine still held is reachable and has its stream |
| Splice.DirectSplice.Splice | src/reality/splice.rs:25-74 | for every script of races both sides have been written exactly what was read from the other, turn by turn only ready reads move bytes, the counter grew by the sum, and the loop ends well only at an EOF or a failed read |

## Where the code differs from its documents

The model follows the code.

- `XTLS_REALITY_DESIGN.md` promises a window of five minutes for Vision timestamps; the code accepts
  one timestamp more (`Vision.FreshAcceptsOneMore`).
- The same document has a failed Vision authentication redirected to the fallback; the code records
  the state `Fallback` or `Closed` and returns the error, so nothing is redirected.
- The same document shows a request without a password hash; the code has 56 bytes of it after the
  timestamp.
- The repository's README promises UDP forwarding with error handling; a datagram that arrives while a
  client frame is half read loses that frame without an error of its own (`UdpRelay.HalfReadFrameIsLost`).

## Left out

- TLS, certificates and the Reality handshake: a TLS stream is a byte stream here.
- Permits and accepting in `Server::run`, session ids and durations, configuration and logging: no protocol state.
- Name resolution, sockets, connects and their timeouts: parameters with any outcome.
- Read errors other than EOF, and errors while peeking: a stream delivers bytes or ends.
- The remote-to-client half of `copy_bidirectional`: the same copy the other way; its failing is a turn's failed write.
- The bind of the UDP socket and its failure: the loop is entered with a bound socket.
- `tcp_splice`, `handle_authenticated_connection`, `UnwrapStream` and `is_vision_packet`: library copies and plain delegation.
- SHA-224 itself and `hash_password`: nothing proved depends on the digest.
- The messages of protocol errors: `Errors.Fault` names the complaint, so the two header parsers' wordings of one complaint are equal.
- Fairness and wall-clock time: a timeout is an event that may always come, and a script may be any length.
- Vision.Authenticate: says of a timed-out attempt only that it fails with a timeout, because how much had been read is up to the clock.
- Splice.DirectSplice.Splice: after a failed write only a prefix of the bytes read is known to be delivered, which is all the source gives.
