/** src/proxy/udp.rs: `handle_udp`, which runs the event loop of `UdpRelay` on real streams. */
module Udp {
  import opened Errors
  import opened Bytes
  import opened Streams
  import opened Addresses
  import opened Fallback
  import opened UdpFrames
  import opened UdpRelay

  /** The bound socket: what it has been made to send. */
  class UdpSocket {
    var sent: seq<Datagram>

    constructor ()
      ensures sent == []
    {
      sent := [];
    }
  }

  /** The counters of src/proxy/session.rs; `fetch_add` wraps around. */
  class Session {
    var bytesSent: u64
    var bytesReceived: u64

    constructor ()
      ensures bytesSent == 0 && bytesReceived == 0
    {
      bytesSent, bytesReceived := 0, 0;
    }

    method AddSent(bytes: nat)
      modifies this`bytesSent
      ensures bytesSent == (old(bytesSent) + bytes) % U64
    {
      bytesSent := (bytesSent + bytes) % U64;
    }

    method AddReceived(bytes: nat)
      modifies this`bytesReceived
      ensures bytesReceived == (old(bytesReceived) + bytes) % U64
    {
      bytesReceived := (bytesReceived + bytes) % U64;
    }
  }

  /** The streams, the socket and the counters are as the state machine has them. */
  ghost predicate Shows(st: RelayState, written: seq<byte>, client: PrefixedStream, socket: UdpSocket, session: Session)
    reads client, client.inner, socket, session
  {
    && client.Valid()
    && client.Remaining() == st.rest
    && client.inner.written == written + st.toClient
    && socket.sent == st.sends
    && session.bytesSent == st.bytesSent
    && session.bytesReceived == st.bytesReceived
  }

  /**
   * `handle_udp` after the socket is bound, for the races and answers that `script` lays down. The
   * result is `None` while the loop would still go on.
   */
  method HandleUdp(client: PrefixedStream, socket: UdpSocket, session: Session, script: seq<Event>)
    returns (r: Option<Result<()>>, ghost st: RelayState)
    requires client.Valid() && LegalRun(Start(client.Remaining()), script)
    requires socket.sent == [] && session.bytesSent == 0 && session.bytesReceived == 0
    modifies client`position, client.inner`pos, client.inner`written, socket, session
    ensures st == Run(Start(old(client.Remaining())), script)
    ensures Shows(st, old(client.inner.written), client, socket, session) && r == st.ended
  {
    hide Legal, Next, Pending, PrefixedStream.Valid, PrefixedStream.Remaining;
    ghost var written := client.inner.written;
    ghost var goal := Run(Start(client.Remaining()), script);
    st := Start(client.Remaining());
    assert written + [] == written;
    assert script[0..] == script;
    var udpRecvBuf := seq(UDP_BUFFER_SIZE, _ => 0);
    for i := 0 to |script|
      invariant st.ended.None? && LegalRun(st, script[i..]) && Run(st, script[i..]) == goal
      invariant Shows(st, written, client, socket, session) && |udpRecvBuf| == UDP_BUFFER_SIZE
    {
      var ended;
      ghost var next := Next(st, script[i]);
      ended, udpRecvBuf := Turn(client, socket, session, udpRecvBuf, script[i], written, st);
      st := next;
      assert script[i..][1..] == script[i + 1..];
      if ended.Some? {
        return ended, st;
      }
    }
    return None, st;
  }

  /** The body of the loop. */
  method Turn(client: PrefixedStream, socket: UdpSocket, session: Session, udpRecvBuf: seq<byte>, event: Event,
              ghost written: seq<byte>, ghost st: RelayState)
    returns (ended: Option<Result<()>>, buf: seq<byte>)
    requires Shows(st, written, client, socket, session) && st.ended.None? && Legal(st, event)
    requires |udpRecvBuf| == UDP_BUFFER_SIZE
    modifies client`position, client.inner`pos, client.inner`written, socket, session
    ensures Shows(Next(st, event), written, client, socket, session) && ended == Next(st, event).ended
    ensures |buf| == UDP_BUFFER_SIZE
  {
    hide PrefixedStream.Valid, PrefixedStream.Remaining, Skip, ReadingFrame, FrameEncoding, FrameBytes, Pending;
    buf := udpRecvBuf;
    match event {
      case Client(dns, sendOk) =>
        ended := OnClient(client, socket, session, dns, sendOk, written, st);
      case Remote(halfRead, datagram, fault) =>
        DropHalfRead(client, halfRead);
        var len := |datagram.payload|;
        buf := datagram.payload + buf[len..];
        assert buf[..len] == datagram.payload;
        ended := OnRemote(client, session, buf[..len], datagram.peer, fault);
        ghost var out := Written(FrameBytes(FrameOf(datagram)), fault);
        assert written + st.toClient + out == written + (st.toClient + out);
      case RemoteError(halfRead) =>
        DropHalfRead(client, halfRead);
        ended := Some(Err(ReceiveFailed));
      case Idle(halfRead) =>
        DropHalfRead(client, halfRead);
        ended := Some(Ok(()));
    }
  }

  /** Dropping the losing `read_udp_frame`: what it had read is gone. */
  method DropHalfRead(client: PrefixedStream, halfRead: nat)
    requires client.Valid() && halfRead <= |client.Remaining()|
    modifies client`position, client.inner`pos
    ensures client.Valid()
    ensures client.Remaining() == if halfRead == 0 then old(client.Remaining()) else Skip(old(client.Remaining()), halfRead)
  {
    hide PrefixedStream.Valid, PrefixedStream.Remaining, Skip;
    var _ := client.ReadExact(halfRead);
  }

  method OnClient(client: PrefixedStream, socket: UdpSocket, session: Session,
                  dns: Option<SocketAddr>, sendOk: bool, ghost written: seq<byte>, ghost st: RelayState)
    returns (ended: Option<Result<()>>)
    requires Shows(st, written, client, socket, session) && st.ended.None?
    modifies client`position, client.inner`pos, socket, session
    ensures Shows(AfterClient(st, dns, sendOk), written, client, socket, session)
    ensures ended == AfterClient(st, dns, sendOk).ended
  {
    hide PrefixedStream.Valid, PrefixedStream.Remaining, Skip, ReadingFrame, FrameBytes, Written;
    var event := ReadUdpFrame(client);
    match event {
      case Ok(Some(frame)) =>
        var resolved := ResolveTarget(frame.address, dns);
        if resolved.None? || !sendOk {
          return None;
        }
        socket.sent := socket.sent + [Datagram(resolved.value, frame.payload)];
        session.AddSent(|frame.payload|);
        return None;
      case Ok(None) =>
        return Some(Ok(()));
      case Err(e) =>
        return Some(Err(e));
    }
  }

  method OnRemote(client: PrefixedStream, session: Session, payload: seq<byte>, source: SocketAddr, fault: Option<nat>)
    returns (ended: Option<Result<()>>)
    requires |payload| <= UDP_BUFFER_SIZE
    modifies client.inner`written, session`bytesReceived
    ensures client.inner.written == old(client.inner.written) + Written(FrameBytes(FrameOf(Datagram(source, payload))), fault)
    ensures ended == if fault.Some? then Some(Err(WriteFailed)) else None
    ensures session.bytesReceived
         == if fault.Some? then old(session.bytesReceived) else (old(session.bytesReceived) + |payload|) % U64
  {
    var frame := BuildUdpFrame(source, payload);
    var sent := client.WriteAll(frame.value, fault);
    if sent.Err? {
      return Some(sent);
    }
    session.AddReceived(|payload|);
    return None;
  }
}
