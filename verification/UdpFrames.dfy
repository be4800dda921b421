/** src/proxy/udp.rs: UDP datagrams framed on a byte stream. */
module UdpFrames {
  import opened Errors
  import opened Bytes
  import opened Utf8
  import opened Streams
  import opened Addresses
  import opened Fallback

  const UDP_BUFFER_SIZE: nat := 65_535
  const UDP_MAX_PAYLOAD_LEN: nat := 65_535

  datatype UdpFrame = UdpFrame(address: Address, payload: seq<byte>)

  /** A datagram to or from `peer`. */
  datatype Datagram = Datagram(peer: SocketAddr, payload: seq<byte>)

  // ---------------------------------------------------------------- writing

  /** The framing both directions use: address, length, CRLF, payload. */
  function FrameEncoding(f: UdpFrame): Result<seq<byte>> {
    if |f.payload| > UDP_MAX_PAYLOAD_LEN then Err(Protocol(UdpPayloadLimit))
    else
      var address := Encoding(f.address);
      if address.Err? then Err(address.error)
      else Ok(address.value + FrameTail(f.payload))
  }

  predicate Encodable(f: UdpFrame) {
    FrameEncoding(f).Ok?
  }

  /** The bytes of a frame that has an encoding. */
  function FrameBytes(f: UdpFrame): seq<byte> {
    if Encodable(f) then FrameEncoding(f).value else []
  }

  function FrameTail(payload: seq<byte>): (bs: seq<byte>)
    requires |payload| <= UDP_MAX_PAYLOAD_LEN
    ensures |bs| == 4 + |payload|
  {
    Be16(|payload|) + CRLF + payload
  }

  function AddressOf(sa: SocketAddr): Address {
    if sa.V4? then IPv4(sa) else IPv6(sa)
  }

  function FrameOf(d: Datagram): UdpFrame {
    UdpFrame(AddressOf(d.peer), d.payload)
  }

  /** `f` is the frame a client should get for `d`: its payload, and its peer's family, address and port, with no flow or scope. */
  predicate Reports(f: UdpFrame, d: Datagram) {
    && f.payload == d.payload
    && match d.peer
       case V4(ip, port) => f.address == IPv4(V4(ip, port))
       case V6(ip, port, _, _) => f.address == IPv6(V6(ip, port, 0, 0))
  }

  /** `build_udp_frame`, pushing onto a growing vector: the frame of the datagram. */
  method BuildUdpFrame(addr: SocketAddr, payload: seq<byte>) returns (r: Result<seq<byte>>)
    ensures r == FrameEncoding(FrameOf(Datagram(addr, payload)))
    ensures r.Ok? <==> |payload| <= UDP_MAX_PAYLOAD_LEN
    ensures r.Ok? ==> var step := ReadingFrame(r.value);
                      && step.result.Ok? && step.result.value.Some? && step.used == |r.value|
                      && Reports(step.result.value.value, Datagram(addr, payload))
  {
    hide ReadingFrame;
    if |payload| > UDP_MAX_PAYLOAD_LEN {
      return Err(Protocol(UdpPayloadLimit));
    }
    var frame: seq<byte> := [];
    match addr {
      case V4(ip, port) =>
        frame := frame + [TYPE_IPV4];
        frame := frame + ip;
        frame := frame + Be16(port);
        assert frame == [TYPE_IPV4] + ip + Be16(port);
      case V6(ip, port, _, _) =>
        frame := frame + [TYPE_IPV6];
        frame := frame + ip;
        frame := frame + Be16(port);
        assert frame == [TYPE_IPV6] + ip + Be16(port);
    }
    ghost var address := frame;
    frame := frame + Be16(|payload|);
    frame := frame + CRLF;
    frame := frame + payload;
    assert frame == address + FrameTail(payload);
    BuiltFrameReads(Datagram(addr, payload), []);
    assert frame + [] == frame;
    return Ok(frame);
  }

  /** What of a frame survives the wire. */
  function OnWireFrame(f: UdpFrame): UdpFrame {
    f.(address := OnWire(f.address))
  }

  // ---------------------------------------------------------------- reading

  /** What `read_target_address` does with the bytes that follow the type byte: as `Address::read_from`, but for the empty domain. */
  function ReadingTarget(atyp: byte, s: seq<byte>): (step: Step<Address>)
    ensures step.used <= |s|
  {
    if atyp == TYPE_DOMAIN && s != [] && s[0] == 0 then Step(Err(Protocol(UdpDomainLength)), 1)
    else ReadingBody(atyp, s)
  }

  /** Length, CRLF and payload. */
  function ReadingTail(s: seq<byte>): (step: Step<seq<byte>>)
    ensures step.used <= |s|
  {
    if |s| < 4 then Eof(s)
    else if s[2..4] != CRLF then Step(Err(Protocol(UdpCrlf)), 4)
    else
      var end := 4 + FromBe16(s[0], s[1]) as nat;
      if |s| < end then Eof(s) else Step(Ok(s[4..end]), end)
  }

  /** What `read_udp_frame` does with the bytes to come. */
  function ReadingFrame(s: seq<byte>): (step: Step<Option<UdpFrame>>)
    ensures step.used <= |s|
    ensures step.result == Ok(None) <==> s == []
    ensures step.used == 0 <==> s == []
  {
    if s == [] then Step(Ok(None), 0)
    else
      var target := ReadingTarget(s[0], s[1..]);
      var pos := 1 + target.used;
      if target.result.Err? then Step(Err(target.result.error), pos)
      else
        var tail := ReadingTail(s[pos..]);
        if tail.result.Err? then Step(Err(tail.result.error), pos + tail.used)
        else Step(Ok(Some(UdpFrame(target.result.value, tail.result.value))), pos + tail.used)
  }

  /** `read_target_address`; the arms of its `match` are the three methods below. */
  method ReadTargetAddress(reader: PrefixedStream, atyp: byte) returns (r: Result<Address>)
    requires reader.Valid()
    modifies reader`position, reader.inner`pos
    ensures reader.Valid()
    ensures Took(old(reader.Remaining()), reader.Remaining(), ReadingTarget(atyp, old(reader.Remaining())), r)
  {
    hide PrefixedStream.Valid, PrefixedStream.Remaining, ReadingIPv4, ReadingDomain, ReadingIPv6;
    if atyp == TYPE_IPV4 {
      r := TargetIPv4(reader);
    } else if atyp == TYPE_DOMAIN {
      r := TargetDomain(reader);
    } else if atyp == TYPE_IPV6 {
      r := TargetIPv6(reader);
    } else {
      r := Err(InvalidAddressType(atyp));
    }
  }

  method TargetIPv4(reader: PrefixedStream) returns (r: Result<Address>)
    requires reader.Valid()
    modifies reader`position, reader.inner`pos
    ensures reader.Valid()
    ensures Took(old(reader.Remaining()), reader.Remaining(), ReadingIPv4(old(reader.Remaining())), r)
  {
    hide PrefixedStream.Valid, PrefixedStream.Remaining, ValidUtf8;
    var octets :- reader.ReadExact(4);
    var port :- reader.ReadU16();
    return Ok(IPv4(V4(octets, port)));
  }

  method TargetDomain(reader: PrefixedStream) returns (r: Result<Address>)
    requires reader.Valid()
    modifies reader`position, reader.inner`pos
    ensures reader.Valid()
    ensures Took(old(reader.Remaining()), reader.Remaining(), ReadingTarget(TYPE_DOMAIN, old(reader.Remaining())), r)
  {
    hide PrefixedStream.Valid, PrefixedStream.Remaining;
    ghost var s := reader.Remaining();
    var len :- reader.ReadU8();
    if len == 0 {
      return Err(Protocol(UdpDomainLength));
    }
    var domain :- reader.ReadExact(len);
    assert domain == s[1..1 + len as nat];
    if !ValidUtf8(domain) {
      return Err(InvalidUtf8);
    }
    var port :- reader.ReadU16();
    return Ok(Domain(domain, port));
  }

  method TargetIPv6(reader: PrefixedStream) returns (r: Result<Address>)
    requires reader.Valid()
    modifies reader`position, reader.inner`pos
    ensures reader.Valid()
    ensures Took(old(reader.Remaining()), reader.Remaining(), ReadingIPv6(old(reader.Remaining())), r)
  {
    hide PrefixedStream.Valid, PrefixedStream.Remaining, ValidUtf8;
    var octets :- reader.ReadExact(16);
    var port :- reader.ReadU16();
    return Ok(IPv6(V6(octets, port, 0, 0)));
  }

  /** `read_udp_frame`: `None` is the end of the stream on a frame boundary. */
  method ReadUdpFrame(reader: PrefixedStream) returns (r: Result<Option<UdpFrame>>)
    requires reader.Valid()
    modifies reader`position, reader.inner`pos
    ensures reader.Valid()
    ensures Took(old(reader.Remaining()), reader.Remaining(), ReadingFrame(old(reader.Remaining())), r)
  {
    hide PrefixedStream.Valid, PrefixedStream.Remaining, ReadingTarget;
    ghost var s := reader.Remaining();
    var first := reader.ReadU8();
    if first.Err? {
      // The only error a read can meet here is the end of the stream.
      return Ok(None);
    }
    assert reader.Remaining() == s[1..];
    var address :- ReadTargetAddress(reader, first.value);
    assert reader.Remaining() == s[1 + ReadingTarget(s[0], s[1..]).used..];
    var payload :- ReadTail(reader);
    return Ok(Some(UdpFrame(address, payload)));
  }

  method ReadTail(reader: PrefixedStream) returns (r: Result<seq<byte>>)
    requires reader.Valid()
    modifies reader`position, reader.inner`pos
    ensures reader.Valid()
    ensures Took(old(reader.Remaining()), reader.Remaining(), ReadingTail(old(reader.Remaining())), r)
  {
    hide PrefixedStream.Valid, PrefixedStream.Remaining;
    ghost var s := reader.Remaining();
    var payloadLen :- reader.ReadU16();
    var crlf :- reader.ReadExact(2);
    assert crlf == s[2..4] && reader.Remaining() == s[4..];
    if crlf != CRLF {
      return Err(Protocol(UdpCrlf));
    }
    var end := 4 + payloadLen as nat;
    r := reader.ReadExact(payloadLen);
    assert end <= |s| ==> s[4..][..payloadLen] == s[4..end];
  }

  // ---------------------------------------------------------------- one frame

  /** The three address readers accept the same bytes with the same address, except that the UDP reader refuses the empty domain. */
  lemma AddressReadersAgree(s: seq<byte>, a: Address, n: nat)
    requires s != []
    ensures Reading(s) == Step(Ok(a), n) <==> ParseFromBuf(s) == Ok((a, Some(n)))
    ensures ReadingTarget(s[0], s[1..]) == Step(Ok(a), n) <==>
            ParseFromBuf(s) == Ok((a, Some(n + 1))) && !(a.Domain? && a.name == [])
  {
    ReadingRefinesParsing(s);
  }

  lemma TailOfEncoding(payload: seq<byte>, t: seq<byte>)
    requires |payload| <= UDP_MAX_PAYLOAD_LEN
    ensures ReadingTail(FrameTail(payload) + t) == Step(Ok(payload), |FrameTail(payload)|)
  {
    var s := FrameTail(payload) + t;
    assert s[2..4] == CRLF;
    assert s[4..4 + |payload|] == payload;
  }

  lemma TailIsEncoding(s: seq<byte>)
    requires ReadingTail(s).result.Ok?
    ensures var payload := ReadingTail(s).result.value;
            |payload| <= UDP_MAX_PAYLOAD_LEN && s[..ReadingTail(s).used] == FrameTail(payload)
  {
    var end := ReadingTail(s).used;
    assert s[..end] == [s[0], s[1]] + s[2..4] + s[4..end];
  }

  /** An encoded frame reads back, whatever follows, as the frame less the flow and scope of its address. */
  lemma FrameOfEncoding(f: UdpFrame, t: seq<byte>)
    requires Encodable(f)
    ensures ReadingFrame(FrameBytes(f) + t) == Step(Ok(Some(OnWireFrame(f))), |FrameBytes(f)|)
  {
    hide ReadingTail, FrameTail, ReadingTarget;
    var address := Encoding(f.address).value;
    var tail := FrameTail(f.payload);
    var s := FrameBytes(f) + t;
    assert s == address + (tail + t);
    ParseOfEncoding(f.address, tail + t);
    AddressReadersAgree(s, OnWire(f.address), |address|);
    AddressReadersAgree(s, OnWire(f.address), |address| - 1);
    assert s[|address|..] == tail + t;
    TailOfEncoding(f.payload, t);
  }

  /** A built frame reads back, whatever follows, as the report of its datagram. */
  lemma BuiltFrameReads(d: Datagram, t: seq<byte>)
    requires |d.payload| <= UDP_MAX_PAYLOAD_LEN
    ensures var step := ReadingFrame(FrameBytes(FrameOf(d)) + t);
            && step.result.Ok? && step.result.value.Some? && step.used == |FrameBytes(FrameOf(d))|
            && Reports(step.result.value.value, d)
  {
    hide ReadingFrame;
    FrameOfEncoding(FrameOf(d), t);
  }

  /** The reader accepts no other form of a frame than its encoding. */
  lemma FrameIsEncoding(s: seq<byte>)
    requires ReadingFrame(s).result.Ok? && s != []
    ensures var (f, n) := (ReadingFrame(s).result.value.value, ReadingFrame(s).used);
            0 < n <= |s| && OnWireFrame(f) == f && FrameEncoding(f) == Ok(s[..n]) && FrameBytes(f) == s[..n]
  {
    hide ReadingTail, FrameTail, ReadingTarget, ParseFromBuf, Encoding;
    var target := ReadingTarget(s[0], s[1..]);
    var pos := 1 + target.used;
    AddressReadersAgree(s, target.result.value, target.used);
    ParsedIsEncoding(s);
    TailIsEncoding(s[pos..]);
    var tail := s[pos..][..ReadingTail(s[pos..]).used];
    assert s[..pos + |tail|] == s[..pos] + tail;
  }

  /** `read_udp_frame` returns `f` having taken `n` bytes iff those bytes encode `f`. */
  lemma FrameIffEncoding(s: seq<byte>, f: UdpFrame, n: nat)
    ensures ReadingFrame(s) == Step(Ok(Some(f)), n) <==>
            n <= |s| && OnWireFrame(f) == f && FrameEncoding(f) == Ok(s[..n])
  {
    hide FrameEncoding, OnWireFrame, ReadingFrame;
    if ReadingFrame(s) == Step(Ok(Some(f)), n) {
      FrameIsEncoding(s);
    }
    if n <= |s| && OnWireFrame(f) == f && FrameEncoding(f) == Ok(s[..n]) {
      FrameOfEncoding(f, s[n..]);
      assert s[..n] + s[n..] == s;
    }
  }

  // ---------------------------------------------------------------- reading what has arrived

  lemma TargetIsStable(atyp: byte, s: seq<byte>, t: seq<byte>)
    requires ReadingTarget(atyp, s).result != Err(UnexpectedEof)
    ensures ReadingTarget(atyp, s + t) == ReadingTarget(atyp, s)
  {
    if atyp == TYPE_IPV4 {
      assert (s + t)[..4] == s[..4];
    } else if atyp == TYPE_DOMAIN {
      var end := 1 + s[0] as nat;
      assert (s + t)[1..end] == s[1..end];
    } else if atyp == TYPE_IPV6 {
      assert (s + t)[..16] == s[..16];
    }
  }

  lemma TailIsStable(s: seq<byte>, t: seq<byte>)
    requires ReadingTail(s).result != Err(UnexpectedEof)
    ensures ReadingTail(s + t) == ReadingTail(s)
  {
    assert (s + t)[2..4] == s[2..4];
    var end := 4 + FromBe16(s[0], s[1]) as nat;
    if end <= |s| {
      assert (s + t)[4..end] == s[4..end];
    }
  }

  /** Only a read that is out of bytes can change its mind when more arrive, and it has taken them all. */
  lemma FrameReadingIsStable(s: seq<byte>, t: seq<byte>)
    requires s != []
    ensures if ReadingFrame(s).result == Err(UnexpectedEof) then ReadingFrame(s) == Eof(s)
            else ReadingFrame(s + t) == ReadingFrame(s)
  {
    hide ReadingTail;
    assert (s + t)[1..] == s[1..] + t;
    var target := ReadingTarget(s[0], s[1..]);
    if target.result != Err(UnexpectedEof) {
      TargetIsStable(s[0], s[1..], t);
    }
    var pos := 1 + target.used;
    assert (s + t)[pos..] == s[pos..] + t;
    TailAtEof(s[pos..]);
    if ReadingTail(s[pos..]).result != Err(UnexpectedEof) {
      TailIsStable(s[pos..], t);
    }
  }

  lemma TailAtEof(s: seq<byte>)
    ensures ReadingTail(s).result == Err(UnexpectedEof) ==> ReadingTail(s).used == |s|
  {
  }

  /** Every proper beginning of an encoded frame leaves the reader waiting for the rest. */
  lemma BeginningIsPending(f: UdpFrame, k: nat)
    requires Encodable(f) && 0 < k < |FrameBytes(f)|
    ensures ReadingFrame(FrameBytes(f)[..k]) == Eof(FrameBytes(f)[..k])
  {
    hide ReadingFrame, FrameBytes;
    var bs := FrameBytes(f);
    FrameReadingIsStable(bs[..k], bs[k..]);
    assert bs[..k] + bs[k..] == bs == bs + [];
    FrameOfEncoding(f, []);
  }

  // ---------------------------------------------------------------- sequences of frames

  function FramesEncoding(fs: seq<UdpFrame>): seq<byte> {
    if fs == [] then [] else FrameBytes(fs[0]) + FramesEncoding(fs[1..])
  }

  /** What repeated reading yields: the frames, and how the last read ended. */
  datatype Decoded = Decoded(frames: seq<UdpFrame>, end: Result<()>)

  function DecodeFrames(s: seq<byte>): Decoded {
    var step := ReadingFrame(s);
    match step.result
    case Err(e) => Decoded([], Err(e))
    case Ok(None) => Decoded([], Ok(()))
    case Ok(Some(f)) =>
      FrameIsEncoding(s);
      var more := DecodeFrames(Skip(s, step.used));
      Decoded([f] + more.frames, more.end)
  }

  lemma DecodeStep(s: seq<byte>)
    ensures var step := ReadingFrame(s);
            match step.result
            case Err(e) => DecodeFrames(s) == Decoded([], Err(e))
            case Ok(None) => DecodeFrames(s) == Decoded([], Ok(()))
            case Ok(Some(f)) =>
              var more := DecodeFrames(Skip(s, step.used));
              DecodeFrames(s) == Decoded([f] + more.frames, more.end)
  {
    hide ReadingFrame;
  }

  lemma Reassociate(a: seq<UdpFrame>, b: seq<UdpFrame>, c: seq<UdpFrame>)
    ensures a + (b + c) == a + b + c
  {
  }

  function OnWireFrames(fs: seq<UdpFrame>): (r: seq<UdpFrame>)
    ensures |r| == |fs| && forall i :: 0 <= i < |fs| ==> r[i] == OnWireFrame(fs[i])
  {
    seq(|fs|, i requires 0 <= i < |fs| => OnWireFrame(fs[i]))
  }

  /** Reading the concatenation of encoded frames yields those frames and then goes on with what follows. */
  lemma {:induction false} DecodeOfEncodings(fs: seq<UdpFrame>, t: seq<byte>)
    requires forall f :: f in fs ==> Encodable(f)
    ensures DecodeFrames(FramesEncoding(fs) + t) == Decoded(OnWireFrames(fs) + DecodeFrames(t).frames, DecodeFrames(t).end)
  {
    hide FrameBytes, Encodable, OnWireFrame, ReadingFrame, DecodeFrames;
    var s := FramesEncoding(fs) + t;
    if fs == [] {
      assert s == t;
    } else {
      var first, tail := FrameBytes(fs[0]), FramesEncoding(fs[1..]) + t;
      assert s == first + tail && s[|first|..] == tail;
      assert fs[0] in fs;
      FrameOfEncoding(fs[0], tail);
      DecodeStep(s);
      DecodeOfEncodings(fs[1..], t);
      assert OnWireFrames(fs) == [OnWireFrame(fs[0])] + OnWireFrames(fs[1..]);
      Reassociate([OnWireFrame(fs[0])], OnWireFrames(fs[1..]), DecodeFrames(t).frames);
    }
  }

  /** A stream that decodes without error is the concatenation of the encodings of its frames. */
  lemma {:induction false} DecodedIsEncodings(s: seq<byte>)
    requires DecodeFrames(s).end.Ok?
    ensures var fs := DecodeFrames(s).frames;
            && OnWireFrames(fs) == fs
            && (forall f :: f in fs ==> Encodable(f))
            && FramesEncoding(fs) == s
    decreases |s|
  {
    hide FrameEncoding, FrameBytes, OnWireFrame, ReadingFrame, DecodeFrames, Skip;
    DecodeStep(s);
    if s != [] {
      var step := ReadingFrame(s);
      FrameIsEncoding(s);
      SkipShortens(s, step.used);
      DecodedIsEncodings(Skip(s, step.used));
      var fs := DecodeFrames(s).frames;
      assert fs[1..] == DecodeFrames(Skip(s, step.used)).frames;
    }
  }

  /** The framing is uniquely decodable: `s` decodes cleanly to `fs` iff `s` is the encoding of `fs`. */
  lemma DecodeIffEncodings(s: seq<byte>, fs: seq<UdpFrame>)
    requires forall f :: f in fs ==> Encodable(f) && OnWireFrame(f) == f
    ensures DecodeFrames(s) == Decoded(fs, Ok(())) <==> FramesEncoding(fs) == s
  {
    hide FrameEncoding, OnWireFrame, ReadingFrame;
    if DecodeFrames(s) == Decoded(fs, Ok(())) {
      DecodedIsEncodings(s);
    }
    if FramesEncoding(fs) == s {
      DecodeOfEncodings(fs, []);
      assert OnWireFrames(fs) == fs;
      assert s + [] == s;
      assert DecodeFrames([]) == Decoded([], Ok(()));
    }
  }

  lemma {:induction false} FramesEncodingSnoc(fs: seq<UdpFrame>, f: UdpFrame)
    ensures FramesEncoding(fs + [f]) == FramesEncoding(fs) + FrameBytes(f)
  {
    hide FrameBytes;
    if fs == [] {
      assert fs + [f] == [f];
      assert [f][1..] == [];
    } else {
      assert (fs + [f])[1..] == fs[1..] + [f];
      FramesEncodingSnoc(fs[1..], f);
    }
  }
}
