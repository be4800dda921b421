/** The wire formats byte by byte, with the numbers of the protocols written out. */
module WireLayout {
  import opened Errors
  import opened Bytes
  import opened Utf8
  import opened Streams
  import opened Addresses
  import opened Headers
  import opened UdpFrames
  import opened Vision

  /** Big-endian, at index `k`. */
  predicate PortAt(bs: seq<byte>, k: nat, port: u16) {
    k + 2 <= |bs| && bs[k] as int == port / 0x100 && bs[k + 1] as int == port % 0x100
  }

  /** Section 4 of RFC 1928: CONNECT is 1 and UDP ASSOCIATE is 3. */
  predicate CommandAt(bs: seq<byte>, k: nat, command: Command) {
    k < |bs| && bs[k] == (if command == Connect then 0x01 else 0x03)
  }

  /** Section 5 of RFC 1928: type 1 with four bytes, type 3 with a length and a name, type 4 with sixteen bytes; then the port. */
  lemma AddressLayout(a: Address)
    ensures Encoding(a).Ok? <==>
            match a
            case IPv4(sa) => sa.V4?
            case IPv6(sa) => sa.V6?
            case Domain(name, _) => 1 <= |name| <= 255
    ensures Encoding(a).Ok? ==>
              var bs := Encoding(a).value;
              match a
              case IPv4(sa) => |bs| == 7 && bs[0] == 0x01 && bs[1..5] == sa.ip4 && PortAt(bs, 5, sa.port)
              case IPv6(sa) => |bs| == 19 && bs[0] == 0x04 && bs[1..17] == sa.ip6 && PortAt(bs, 17, sa.port)
              case Domain(name, port) =>
                && |bs| == 4 + |name| && bs[0] == 0x03 && bs[1] as int == |name|
                && bs[2..2 + |name|] == name && PortAt(bs, 2 + |name|, port)
  {
    if Encoding(a).Ok? {
      var bs := Encoding(a).value;
      var port := Be16(a.Port());
      match a {
        case IPv4(V4(ip, _)) => Between([TYPE_IPV4], ip, port);
        case IPv6(V6(ip, _, _, _)) => Between([TYPE_IPV6], ip, port);
        case Domain(name, _) => Between([TYPE_DOMAIN, |name|], name, port);
      }
      assert bs[|bs| - 2..] == port;
      assert bs[|bs| - 2] == port[0] && bs[|bs| - 1] == port[1];
    }
  }

  /** Hash, CRLF, command, address, CRLF. */
  lemma HeaderLayout(h: Header)
    requires WellFormedHeader(h) && Encoding(h.address).Ok?
    ensures HeaderForm(h).Ok?
    ensures var (bs, a) := (HeaderForm(h).value, Encoding(h.address).value);
            && |bs| == 61 + |a| && bs[..56] == h.passwordHash && bs[56] == 0x0d && bs[57] == 0x0a
            && CommandAt(bs, 58, h.command) && bs[59..59 + |a|] == a
            && bs[59 + |a|] == 0x0d && bs[60 + |a|] == 0x0a
  {
    hide Encoding, AllHex, OnWire;
    assert WireForm(h.address) == Encoding(h.address) by { FormOfEncodable(h.address); }
    Between(h.passwordHash + CRLF + [h.command.AsU8()], Encoding(h.address).value, CRLF);
  }

  lemma FormOfEncodable(a: Address)
    requires Encoding(a).Ok?
    ensures WireForm(a) == Encoding(a)
  {
  }

  /** Address, length, CRLF, payload. */
  lemma FrameLayout(f: UdpFrame)
    ensures FrameEncoding(f).Ok? <==> Encoding(f.address).Ok? && |f.payload| <= 65535
    ensures FrameEncoding(f).Ok? ==>
              var (bs, a) := (FrameEncoding(f).value, Encoding(f.address).value);
              && |bs| == |a| + 4 + |f.payload| && bs[..|a|] == a && PortAt(bs, |a|, |f.payload|)
              && bs[|a| + 2] == 0x0d && bs[|a| + 3] == 0x0a && bs[|a| + 4..] == f.payload
  {
    hide Encoding;
    if FrameEncoding(f).Ok? {
      var a := Encoding(f.address).value;
      var tail := FrameTail(f.payload);
      assert FrameEncoding(f).value == a + tail;
      assert tail[4..] == f.payload;
      assert (a + tail)[|a| + 4..] == tail[4..];
    }
  }

  /** Magic, version, command, address, timestamp, hash, digest of all that precedes it. */
  lemma RequestLayout(r: VisionAuthRequest, sha: Sha224)
    ensures RequestEncoding(r, sha).Ok? <==> Encoding(r.address).Ok?
    ensures r.magic == VISION_MAGIC_HEADER && r.version == VISION_VERSION && RequestEncoding(r, sha).Ok? ==>
              var (bs, a) := (RequestEncoding(r, sha).value, Encoding(r.address).value);
              var k := 3 + |a|;
              && |bs| == k + 92 && bs[0] == 0xfe && bs[1] == 0x01 && CommandAt(bs, 2, r.command) && bs[3..k] == a
              && bs[k..k + 8] == Be64(r.timestamp) && bs[k + 8..k + 64] == r.passwordHash
              && bs[k + 64..] == sha(bs[..k + 64])
  {
    hide Encoding, Be64;
    if RequestEncoding(r, sha).Ok? {
      var a := Encoding(r.address).value;
      var base := BaseEncoding(r).value;
      var front := [r.magic, r.version] + ([r.command.AsU8()] + a);
      var time := Be64(r.timestamp);
      assert front[3..] == a;
      assert base == front + time + r.passwordHash == front + (time + r.passwordHash);
      Between(front, time, r.passwordHash);
      var bs := base + sha(base);
      assert bs[..|base|] == base && bs[|base|..] == sha(base);
      assert bs[3..3 + |a|] == front[3..];
      assert bs[|front|..|front| + 8] == base[|front|..|front| + 8];
      assert bs[|front| + 8..|front| + 64] == base[|front| + 8..] == r.passwordHash;
    }
  }

  // ---------------------------------------------------------------- refusals

  /** A header is refused at the first byte that is wrong, and the complaint names it. */
  lemma HeaderRefusals(buf: seq<byte>)
    requires |buf| >= 60 && AllHex(buf[..56])
    ensures buf[56] != 0x0d || buf[57] != 0x0a ==> TryParseFromBuf(buf) == Err(Protocol(NoCrlfAfterHash))
    ensures buf[56] == 0x0d && buf[57] == 0x0a && buf[58] != 0x01 && buf[58] != 0x03 ==>
              TryParseFromBuf(buf) == Err(InvalidCommand(buf[58]))
    ensures buf[56] == 0x0d && buf[57] == 0x0a && (buf[58] == 0x01 || buf[58] == 0x03)
            && buf[59] != 0x01 && buf[59] != 0x03 && buf[59] != 0x04 ==>
              TryParseFromBuf(buf) == Err(InvalidAddressType(buf[59]))
  {
    hide AllHex, ValidUtf8, Ipv6FromGroups;
    assert buf[ADDR_START..][0] == buf[59];
  }

  /** A header whose last CRLF is wrong is refused for that. */
  lemma HeaderWithoutEndIsRefused(h: Header, x: byte, y: byte, t: seq<byte>)
    requires WellFormedHeader(h) && Encoding(h.address).Ok? && (x != 0x0d || y != 0x0a)
    ensures var bs := h.passwordHash + [0x0d, 0x0a, h.command.AsU8()] + Encoding(h.address).value + [x, y] + t;
            TryParseFromBuf(bs) == Err(Protocol(NoCrlfAfterAddress))
  {
    hide ParseFromBuf, Encoding, AllHex;
    var a := Encoding(h.address).value;
    var bs := h.passwordHash + [0x0d, 0x0a, h.command.AsU8()] + a + [x, y] + t;
    assert bs[..56] == h.passwordHash;
    assert bs[56] == 0x0d && bs[57] == 0x0a && bs[58] == h.command.AsU8();
    assert bs[59..] == a + ([x, y] + t);
    ParseOfEncoding(h.address, [x, y] + t);
    var tail := bs[59 + |a|..];
    assert tail == [x, y] + t;
    assert tail[0] == x && tail[1] == y;
  }

  /** A frame is refused for an unknown address type, for the empty domain, and for a wrong CRLF. */
  lemma FrameRefusals(s: seq<byte>)
    requires |s| >= 2
    ensures s[0] != 0x01 && s[0] != 0x03 && s[0] != 0x04 ==> ReadingFrame(s).result == Err(InvalidAddressType(s[0]))
    ensures s[0] == 0x03 && s[1] == 0x00 ==> ReadingFrame(s).result == Err(Protocol(UdpDomainLength))
  {
    hide ReadingTail, ValidUtf8;
  }

  lemma FrameWithoutCrlfIsRefused(a: Address, hi: byte, lo: byte, x: byte, y: byte, t: seq<byte>)
    requires Encoding(a).Ok? && (x != 0x0d || y != 0x0a)
    ensures ReadingFrame(Encoding(a).value + [hi, lo, x, y] + t).result == Err(Protocol(UdpCrlf))
  {
    hide Encoding, ReadingTarget;
    var bs := Encoding(a).value;
    var s := bs + [hi, lo, x, y] + t;
    assert s == bs + ([hi, lo, x, y] + t);
    AddressLayout(a);
    ParseOfEncoding(a, [hi, lo, x, y] + t);
    AddressReadersAgree(s, OnWire(a), |bs| - 1);
    var tail := s[|bs|..];
    assert tail == [hi, lo, x, y] + t;
    assert tail[2..4] == [x, y];
  }

  /** A request is refused at the first byte that is wrong, and without a clock after the last. */
  lemma RequestRefusals(s: seq<byte>, clock: Option<u64>, sha: Sha224)
    requires |s| >= 3
    ensures s[0] != 0xfe ==> ReadingRequest(s, clock, sha) == Step(Err(Protocol(VisionMagic(s[0]))), 1)
    ensures s[0] == 0xfe && s[1] != 0x01 ==> ReadingRequest(s, clock, sha) == Step(Err(Protocol(VisionVersion(s[1]))), 2)
    ensures s[0] == 0xfe && s[1] == 0x01 && s[2] != 0x01 && s[2] != 0x03 ==>
              ReadingRequest(s, clock, sha) == Step(Err(InvalidCommand(s[2])), 3)
  {
    hide Reading, ReadingCredentials;
  }

  lemma RequestNeedsClock(r: VisionAuthRequest, digest: Digest, sha: Sha224, rest: seq<byte>)
    requires r.magic == VISION_MAGIC_HEADER && r.version == VISION_VERSION && AllHex(r.passwordHash)
    requires Encoding(r.address).Ok?
    ensures ReadingRequest(BaseEncoding(r).value + digest + rest, None, sha).result == Err(Protocol(ClockBeforeEpoch))
  {
    hide AllHex, ReadingRequest, Encoding;
    BaseNeedsAddress(r);
    ReadingOfEncoding(r, digest, None, sha, rest);
  }
}
