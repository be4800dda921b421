/** src/server.rs: `handle_connection`, from the first byte of a client to the end of its forwarding. */
module Server {
  import opened Errors
  import opened Bytes
  import opened Utf8
  import opened Streams
  import opened Addresses
  import opened Headers
  import opened Fallback
  import opened UdpFrames
  import opened UdpRelay
  import opened Udp

  /** What is to be done with a client whose whole stream is known. */
  datatype Decision =
    | Drop
    | Proxy(header: Header, payload: seq<byte>)
    | FallBack(all: seq<byte>)

  /**
   * The decision as a function of the client's stream alone: nothing sent, nothing done; a header
   * with a known password, and what follows it is proxied; anything else, and the fallback backend
   * gets it all.
   */
  function Dispatch(stream: seq<byte>, passwords: seq<Str>): (decision: Decision)
    ensures decision.Drop? <==> stream == []
    ensures decision.FallBack? ==> decision.all == stream
  {
    if stream == [] then Drop
    else if IsHeader(stream) && VerifyPassword(TryParseFromBuf(stream).value.value, passwords)
    then Proxy(TryParseFromBuf(stream).value.value, stream[HeaderEnd(stream)..])
    else FallBack(stream)
  }

  predicate IsUdp(decision: Decision) {
    decision.Proxy? && decision.header.command.UdpAssociate?
  }

  function HeaderEnd(stream: seq<byte>): (end: nat)
    requires IsHeader(stream)
    ensures end <= |stream|
  {
    HeaderEndIsExact(stream);
    ComputeHeaderEnd(stream)
  }

  /** A decided buffer decides the stream it begins, and its header ends where the stream's does. */
  lemma DecidedBufferDecides(peeked: seq<byte>, later: seq<byte>, passwords: seq<Str>)
    requires !NeedsMore(peeked)
    ensures Dispatch(peeked + later, passwords)
         == if IsHeader(peeked) && VerifyPassword(TryParseFromBuf(peeked).value.value, passwords)
            then Proxy(TryParseFromBuf(peeked).value.value, peeked[HeaderEnd(peeked)..] + later)
            else FallBack(peeked + later)
  {
    hide TryParseFromBuf, ComputeHeaderEnd, VerifyPassword;
    TryParseIsStable(peeked, later);
    EmptyNeedsMore();
    if IsHeader(peeked) {
      var end := HeaderEnd(peeked);
      HeaderEndIsExact(peeked);
      assert (peeked + later)[end..] == peeked[end..] + later;
    }
  }

  /**
   * Who is proxied: exactly the clients whose stream is the form of a header with a known password
   * followed by the payload.
   */
  lemma ProxiedIffHeaderThenPayload(stream: seq<byte>, passwords: seq<Str>, h: Header, payload: seq<byte>)
    ensures Dispatch(stream, passwords) == Proxy(h, payload) <==>
            && WellFormedHeader(h) && VerifyPassword(h, passwords)
            && HeaderForm(h).Ok? && stream == HeaderForm(h).value + payload
  {
    hide TryParseFromBuf, ComputeHeaderEnd, VerifyPassword, WellFormedHeader, HeaderForm;
    EmptyNeedsMore();
    if Dispatch(stream, passwords) == Proxy(h, payload) {
      HeaderEndMeaning(stream);
      TryParseIffForm(stream, h, HeaderEnd(stream));
      assert stream == stream[..HeaderEnd(stream)] + payload;
    }
    if WellFormedHeader(h) && VerifyPassword(h, passwords) && HeaderForm(h).Ok? && stream == HeaderForm(h).value + payload {
      TryParseOfForm(h, payload);
      HeaderEndMeaning(stream);
      assert stream[|HeaderForm(h).value|..] == payload;
    }
  }

  lemma EmptyNeedsMore()
    ensures NeedsMore([])
  {
  }

  /** What the outside world does to a connection. */
  datatype World = World(net: Net, script: seq<Event>)

  /** A connection that is made moves on with every turn, and fails only where the world makes a write fail. */
  predicate Finishes(net: Net, p: Progress, r: Forwarded) {
    && (r == Ok(false) ==> p.taken >= |net.turns|)
    && (net.connect == Connected && r.Err? ==> r.error == WriteFailed && (net.replay.Some? || Faulty(net.turns)))
  }

  /** The UDP races, if it comes to UDP, are legal ones. */
  predicate WorldIsLegal(stream: seq<byte>, passwords: seq<Str>, world: World) {
    && (forall t :: t in world.net.turns ==> t.room > 0)
    && (var decision := Dispatch(stream, passwords);
        IsUdp(decision) ==> LegalRun(Start(decision.payload), world.script))
  }

  /**
   * Step 1 and 2 of `handle_connection`: peek until the header is decided or the client stops. The
   * answer is the header if the client may be proxied, and in any case what has been peeked. The
   * stream may be cut anywhere: at most 320 chunks, none of them empty, bring the same answer.
   */
  method PeekHeader(stream: ByteStream, passwords: seq<Str>)
    returns (header: Option<Header>, peeked: seq<byte>, ghost chunks: nat)
    requires stream.Valid()
    modifies stream`pos
    ensures stream.Valid() && Taken(old(stream.Rest()), peeked, stream.Rest())
    ensures chunks <= MAX_HEADER_LEN
    ensures match Dispatch(old(stream.Rest()), passwords)
            case Drop => header.None? && peeked == []
            case FallBack(all) => header.None? && peeked != []
            case Proxy(h, payload) => header == Some(h) && IsHeader(peeked) && payload == peeked[HeaderEnd(peeked)..] + stream.Rest()
  {
    hide ByteStream.Valid, ByteStream.Rest, TryParseFromBuf, ComputeHeaderEnd, VerifyPassword, HeaderEnd, Dispatch;
    ghost var all := stream.Rest();
    peeked, chunks := [], 0;
    EmptyNeedsMore();
    while true
      invariant stream.Valid() && Taken(all, peeked, stream.Rest()) && NeedsMore(peeked)
      invariant chunks <= |peeked| < MAX_HEADER_LEN
      decreases |stream.Rest()|
    {
      if |peeked| >= PEEK_SIZE {
        // The source falls back here, but no undecided buffer gets this far.
        assert false;
      }
      var chunk := PeekClientData(stream, PEEK_SIZE - |peeked|);
      if chunk == [] {
        StoppedClient(all, peeked, passwords);
        return None, peeked, chunks;
      }
      Extends(all, peeked, chunk, stream.Rest());
      peeked, chunks := peeked + chunk, chunks + 1;
      var parsed := TryParseFromBuf(peeked);
      assert all == peeked + stream.Rest();
      if parsed == Ok(None) {
        UndecidedHeaderIsShort(peeked);
      } else {
        DecidedBufferDecides(peeked, stream.Rest(), passwords);
        if parsed.Ok? && VerifyPassword(parsed.value.value, passwords) {
          return Some(parsed.value.value), peeked, chunks;
        } else {
          return None, peeked, chunks;
        }
      }
    }
  }

  /** A client that stops before its header is complete is dropped or falls back. */
  lemma StoppedClient(all: seq<byte>, peeked: seq<byte>, passwords: seq<Str>)
    requires Taken(all, peeked, []) && NeedsMore(peeked)
    ensures Dispatch(all, passwords) == if peeked == [] then Drop else FallBack(all)
  {
    assert all == peeked;
  }

  lemma Extends(all: seq<byte>, peeked: seq<byte>, chunk: seq<byte>, left: seq<byte>)
    requires |peeked| <= |all| && peeked == all[..|peeked|] && Taken(all[|peeked|..], chunk, left)
    ensures Taken(all, peeked + chunk, left)
  {
  }

  /**
   * `handle_connection`. For every way the client's stream may be cut into chunks:
   * the decision is that of `Dispatch` on the whole stream; the fallback backend is sent the whole
   * stream from its first byte; a TCP target is sent exactly what follows the header; a UDP
   * association runs on exactly what follows the header.
   */
  method HandleConnection(stream: ByteStream, passwords: seq<Str>, backend: ByteStream,
                          socket: UdpSocket, session: Session, world: World)
    returns (r: Forwarded, ghost p: Progress, ghost udp: RelayState)
    requires stream.Valid() && backend != stream && WorldIsLegal(stream.Rest(), passwords, world)
    requires socket.sent == [] && session.bytesSent == 0 && session.bytesReceived == 0
    modifies stream`pos, stream`written, backend`written, socket, session
    ensures stream.Valid()
    ensures match Dispatch(old(stream.Rest()), passwords)
            case Drop =>
              r == Ok(true) && backend.written == old(backend.written)
            case FallBack(all) =>
              && all == old(stream.Rest()) && p.Fits(all, r) && Left(all, p.taken, stream.Rest())
              && backend.written == old(backend.written) + all[..p.arrived]
              && (world.net.connect != Connected ==> r == Err(RemoteConnectFailed) && p.arrived == 0)
              && Finishes(world.net, p, r)
            case Proxy(h, payload) =>
              match h.command
              case Connect =>
                && p.Fits(payload, r)
                && backend.written == old(backend.written) + payload[..p.arrived]
                && (world.net.connect == Refused ==> r == Err(RemoteConnectFailed) && p.arrived == 0)
                && (world.net.connect == TimedOut ==> r == Err(Timeout) && p.arrived == 0)
                && Finishes(world.net, p, r)
              case UdpAssociate =>
                && udp == Run(Start(payload), world.script)
                && socket.sent == udp.sends && stream.written == old(stream.written) + udp.toClient
                && session.bytesSent == udp.bytesSent && session.bytesReceived == udp.bytesReceived
                && backend.written == old(backend.written)
                && r == (match udp.ended case None => Ok(false) case Some(Ok(_)) => Ok(true) case Some(Err(e)) => Err(e))
    // Short of a UDP association the client is sent nothing of the server's own and no datagram leaves.
    ensures !IsUdp(Dispatch(old(stream.Rest()), passwords)) ==>
              && stream.written == old(stream.written) && socket.sent == old(socket.sent)
              && session.bytesSent == old(session.bytesSent) && session.bytesReceived == old(session.bytesReceived)
  {
    hide TryParseFromBuf, ComputeHeaderEnd, VerifyPassword, Dispatch, Run, LegalRun, HeaderEnd;
    ghost var all := stream.Rest();
    p, udp := Progress(0, 0), Start([]);
    var header, peeked;
    ghost var chunks;
    header, peeked, chunks := PeekHeader(stream, passwords);
    if header.None? {
      if peeked == [] {
        return Ok(true), p, udp;
      }
      assert peeked + stream.Rest() == all;
      r, p := HandleFallback(stream, peeked, backend, world.net);
      return r, p, udp;
    }
    HeaderEndMeaning(peeked);
    var headerEnd := ComputeHeaderEnd(peeked);
    var leftover := peeked[headerEnd..];
    var client := new PrefixedStream(leftover, stream);
    match header.value.command {
      case Connect =>
        r, p := HandleTcp(client, backend, world.net);
      case UdpAssociate =>
        var ended;
        ended, udp := HandleUdp(client, socket, session, world.script);
        r := match ended case None => Ok(false) case Some(Ok(_)) => Ok(true) case Some(Err(e)) => Err(e);
    }
  }

  lemma HeaderEndMeaning(buf: seq<byte>)
    requires IsHeader(buf)
    ensures HeaderEnd(buf) == ComputeHeaderEnd(buf) <= |buf|
  {
  }

  /** `handle_tcp` and `relay`: connect to the target and forward. */
  method HandleTcp(client: PrefixedStream, remote: ByteStream, net: Net) returns (r: Forwarded, ghost p: Progress)
    requires client.Valid() && remote != client.inner
    requires forall t :: t in net.turns ==> t.room > 0
    modifies client`position, client.inner`pos, remote`written
    ensures client.Valid() && p.Fits(old(client.Remaining()), r)
    ensures net.connect == Refused ==> r == Err(RemoteConnectFailed) && p.arrived == 0
    ensures net.connect == TimedOut ==> r == Err(Timeout) && p.arrived == 0
    ensures r == Ok(false) ==> p.taken >= |net.turns|
    ensures net.connect == Connected && r.Err? ==> r.error == WriteFailed && Faulty(net.turns)
    ensures Left(old(client.Remaining()), p.taken, client.Remaining())
    ensures remote.written == old(remote.written) + old(client.Remaining())[..p.arrived]
  {
    p := Progress(0, 0);
    match net.connect {
      case Refused => return Err(RemoteConnectFailed), p;
      case TimedOut => return Err(Timeout), p;
      case Connected => r, p := Relay(client, remote, net.turns);
    }
  }
}
