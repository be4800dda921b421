/** src/protocol/command.rs and src/protocol/address.rs: the SOCKS5-style command and address. */
module Addresses {
  import opened Errors
  import opened Bytes
  import opened Utf8
  import opened Streams

  // ---------------------------------------------------------------- commands

  datatype Command = Connect | UdpAssociate {
    function AsU8(): byte {
      match this
      case Connect => 0x01
      case UdpAssociate => 0x03
    }

    static function FromU8(value: byte): (r: Result<Command>)
      ensures forall c: Command :: r == Ok(c) <==> value == c.AsU8()
      ensures r.Err? ==> r.error == InvalidCommand(value)
    {
      if value == 0x01 then Ok(Connect)
      else if value == 0x03 then Ok(UdpAssociate)
      else Err(InvalidCommand(value))
    }
  }

  // ---------------------------------------------------------------- addresses

  type Ipv4Addr = s: seq<byte> | |s| == 4 witness [0, 0, 0, 0]
  type Ipv6Addr = s: seq<byte> | |s| == 16 witness [0, 0, 0, 0, 0, 0, 0, 0, 0, 0, 0, 0, 0, 0, 0, 0]

  /** `std::net::SocketAddr`: IPv6 socket addresses carry two fields that are never put on the wire. */
  datatype SocketAddr =
    | V4(ip4: Ipv4Addr, port: u16)
    | V6(ip6: Ipv6Addr, port: u16, flowinfo: u32, scopeId: u32)

  /** As in the source, nothing in the type ties the variant to the family of its socket address. */
  datatype Address =
    | IPv4(addr: SocketAddr)
    | IPv6(addr: SocketAddr)
    | Domain(name: Str, port: u16)
  {
    /** `Address::port`. */
    function Port(): u16 {
      if Domain? then port else addr.port
    }
  }

  const TYPE_IPV4: byte := 0x01
  const TYPE_DOMAIN: byte := 0x03
  const TYPE_IPV6: byte := 0x04

  /** The longest encoding: a domain of 255 bytes. */
  const MAX_ADDRESS_LEN: nat := 259

  /** `Ipv6Addr::new` applied to the eight big-endian groups of `bs` is the address with octets `bs`. */
  function Ipv6FromGroups(bs: seq<byte>): (ip: Ipv6Addr)
    requires |bs| >= 16
    ensures ip == bs[..16]
  {
    Be16(FromBe16(bs[0], bs[1])) + Be16(FromBe16(bs[2], bs[3]))
    + Be16(FromBe16(bs[4], bs[5])) + Be16(FromBe16(bs[6], bs[7]))
    + Be16(FromBe16(bs[8], bs[9])) + Be16(FromBe16(bs[10], bs[11]))
    + Be16(FromBe16(bs[12], bs[13])) + Be16(FromBe16(bs[14], bs[15]))
  }

  /** The address that comes with "more data needed"; callers look at the missing length only. */
  const INCOMPLETE: Result<(Address, Option<nat>)> := Ok((Domain([], 0), None))

  /** `Address::parse_from_buf`: the address at the front of `buf` and its length, if it is all there. */
  function ParseFromBuf(buf: seq<byte>): (r: Result<(Address, Option<nat>)>) {
    if buf == [] then INCOMPLETE
    else
      var payload := buf[1..];
      if buf[0] == TYPE_IPV4 then
        if |payload| < 6 then INCOMPLETE
        else Ok((IPv4(V4(payload[..4], FromBe16(payload[4], payload[5]))), Some(1 + 6)))
      else if buf[0] == TYPE_DOMAIN then
        if payload == [] then INCOMPLETE
        else
          var len := payload[0] as nat;
          if |payload| < 1 + len + 2 then INCOMPLETE
          else if !ValidUtf8(payload[1..1 + len]) then Err(InvalidUtf8)
          else Ok((Domain(payload[1..1 + len], FromBe16(payload[1 + len], payload[1 + len + 1])),
                   Some(1 + 1 + len + 2)))
      else if buf[0] == TYPE_IPV6 then
        if |payload| < 18 then INCOMPLETE
        else Ok((IPv6(V6(Ipv6FromGroups(payload), FromBe16(payload[16], payload[17]), 0, 0)), Some(1 + 18)))
      else Err(InvalidAddressType(buf[0]))
  }

  /** What `Address::encode` returns. */
  function Encoding(a: Address): Result<seq<byte>> {
    match a
    case IPv4(V4(ip, port)) => Ok([TYPE_IPV4] + ip + Be16(port))
    case IPv6(V6(ip, port, _, _)) => Ok([TYPE_IPV6] + ip + Be16(port))
    case Domain(name, port) =>
      if name == [] || |name| > 255 then Err(Protocol(DomainLength))
      else Ok([TYPE_DOMAIN, |name|] + name + Be16(port))
    case _ => Err(Protocol(SocketFamily))
  }

  /** `Address::encode`, pushing onto a growing vector. */
  method Encode(a: Address) returns (r: Result<seq<byte>>)
    ensures r == Encoding(a)
  {
    var result: seq<byte> := [];
    match a {
      case IPv4(addr) =>
        result := result + [TYPE_IPV4];
        match addr {
          case V4(ip, _) => result := result + ip;
          case V6(_, _, _, _) => return Err(Protocol(SocketFamily));
        }
        result := result + Be16(addr.port);
        assert result == [TYPE_IPV4] + addr.ip4 + Be16(addr.port);
      case Domain(name, port) =>
        if name == [] || |name| > 255 {
          return Err(Protocol(DomainLength));
        }
        result := result + [TYPE_DOMAIN];
        result := result + [|name|];
        result := result + name;
        result := result + Be16(port);
        assert result == [TYPE_DOMAIN, |name|] + name + Be16(port);
      case IPv6(addr) =>
        result := result + [TYPE_IPV6];
        match addr {
          case V6(ip, _, _, _) => result := result + ip;
          case V4(_, _) => return Err(Protocol(SocketFamily));
        }
        result := result + Be16(addr.port);
        assert result == [TYPE_IPV6] + addr.ip6 + Be16(addr.port);
    }
    return Ok(result);
  }

  // ---------------------------------------------------------------- the codec

  /** What of a socket address survives the wire. */
  function OnWireSocket(sa: SocketAddr): SocketAddr {
    if sa.V6? then sa.(flowinfo := 0, scopeId := 0) else sa
  }

  function OnWire(a: Address): Address {
    if a.Domain? then a else a.(addr := OnWireSocket(a.addr))
  }

  /** The bytes the parser takes for `a`: its encoding, or for the empty domain, which has none, a form of its own. */
  function WireForm(a: Address): Result<seq<byte>> {
    if a.Domain? && a.name == [] then Ok([TYPE_DOMAIN, 0] + Be16(a.port)) else Encoding(a)
  }

  /** The wire form of an address parses, whatever follows it, to the address less its flow and scope. */
  lemma ParseOfWireForm(a: Address, t: seq<byte>)
    requires WireForm(a).Ok?
    ensures ParseFromBuf(WireForm(a).value + t) == Ok((OnWire(a), Some(|WireForm(a).value|)))
  {
    hide ParseFromBuf, ValidUtf8;
    var tail := Be16(a.Port()) + t;
    match a {
      case IPv4(V4(ip, port)) =>
        assert WireForm(a).value + t == [TYPE_IPV4] + (ip + tail);
        ParseIPv4(ip, port, t);
      case IPv6(V6(ip, port, _, _)) =>
        assert WireForm(a).value + t == [TYPE_IPV6] + (ip + tail);
        ParseIPv6(ip, port, t);
      case Domain(name, port) =>
        assert WireForm(a).value + t == [TYPE_DOMAIN] + ([|name|] + name + tail);
        ParseDomain(name, port, t);
    }
  }

  lemma ParseIPv4(ip: Ipv4Addr, port: u16, t: seq<byte>)
    ensures ParseFromBuf([TYPE_IPV4] + (ip + (Be16(port) + t))) == Ok((IPv4(V4(ip, port)), Some(7)))
  {
    hide ValidUtf8;
    var payload := ip + (Be16(port) + t);
    assert ([TYPE_IPV4] + payload)[1..] == payload;
    assert payload[..4] == ip;
  }

  lemma ParseIPv6(ip: Ipv6Addr, port: u16, t: seq<byte>)
    ensures ParseFromBuf([TYPE_IPV6] + (ip + (Be16(port) + t))) == Ok((IPv6(V6(ip, port, 0, 0)), Some(19)))
  {
    hide ValidUtf8, Ipv6FromGroups;
    var payload := ip + (Be16(port) + t);
    assert ([TYPE_IPV6] + payload)[1..] == payload;
    assert payload[..16] == ip;
  }

  lemma ParseDomain(name: Str, port: u16, t: seq<byte>)
    requires |name| <= 255
    ensures ParseFromBuf([TYPE_DOMAIN] + ([|name|] + name + (Be16(port) + t)))
         == Ok((Domain(name, port), Some(4 + |name|)))
  {
    hide ValidUtf8;
    var payload := [|name|] + name + (Be16(port) + t);
    assert ([TYPE_DOMAIN] + payload)[1..] == payload;
    Between([|name|], name, Be16(port) + t);
  }

  /** The parser accepts wire forms only. */
  lemma ParsedIsWireForm(buf: seq<byte>)
    requires ParseFromBuf(buf).Ok? && ParseFromBuf(buf).value.1.Some?
    ensures var (a, n) := ParseFromBuf(buf).value;
            n.value <= |buf| && n.value <= MAX_ADDRESS_LEN && OnWire(a) == a && WireForm(a) == Ok(buf[..n.value])
  {
    hide ValidUtf8;
    var (a, n) := ParseFromBuf(buf).value;
    assert WireForm(a).Ok? && WireForm(a).value == buf[..n.value];
  }

  /** `parse_from_buf(b)` yields `a` in `n` bytes iff those bytes are the wire form of `a`. */
  lemma ParseIffWireForm(buf: seq<byte>, a: Address, n: nat)
    ensures ParseFromBuf(buf) == Ok((a, Some(n))) <==> n <= |buf| && OnWire(a) == a && WireForm(a) == Ok(buf[..n])
  {
    hide ParseFromBuf, WireForm, OnWire;
    if ParseFromBuf(buf) == Ok((a, Some(n))) {
      ParsedIsWireForm(buf);
    }
    if n <= |buf| && OnWire(a) == a && WireForm(a) == Ok(buf[..n]) {
      ParseOfWireForm(a, buf[n..]);
      assert buf[..n] + buf[n..] == buf;
    }
  }

  /** `encode` then `parse_from_buf`: the address comes back iff it has no flow or scope to lose. */
  lemma ParseOfEncoding(a: Address, t: seq<byte>)
    requires Encoding(a).Ok?
    ensures ParseFromBuf(Encoding(a).value + t) == Ok((OnWire(a), Some(|Encoding(a).value|)))
    ensures OnWire(a) == a <==> (a.IPv6? ==> a.addr.flowinfo == 0 && a.addr.scopeId == 0)
  {
    hide ParseFromBuf;
    ParseOfWireForm(a, t);
  }

  /** `parse_from_buf` then `encode`: the bytes come back, but for the empty domain, which is refused. */
  lemma ParsedIsEncoding(buf: seq<byte>)
    requires ParseFromBuf(buf).Ok? && ParseFromBuf(buf).value.1.Some?
    ensures var (a, n) := ParseFromBuf(buf).value;
            && n.value <= |buf| && n.value <= MAX_ADDRESS_LEN && OnWire(a) == a
            && Encoding(a) == if a.Domain? && a.name == [] then Err(Protocol(DomainLength)) else Ok(buf[..n.value])
  {
    hide ParseFromBuf;
    ParsedIsWireForm(buf);
  }

  /** Only "more data needed" can change when more data arrives. */
  lemma ParseIsStable(buf: seq<byte>, t: seq<byte>)
    requires ParseFromBuf(buf).Ok? ==> ParseFromBuf(buf).value.1.Some?
    ensures ParseFromBuf(buf + t) == ParseFromBuf(buf)
  {
    var payload := buf[1..];
    assert (buf + t)[1..] == payload + t;
    if buf[0] == TYPE_DOMAIN {
      var len := payload[0] as nat;
      assert (payload + t)[1..1 + len] == payload[1..1 + len];
    } else if buf[0] == TYPE_IPV4 {
      assert (payload + t)[..4] == payload[..4];
    } else if buf[0] == TYPE_IPV6 {
      assert (payload + t)[..16] == payload[..16];
    }
  }

  /** An undecided buffer is shorter than the longest address. */
  lemma UndecidedIsShort(buf: seq<byte>)
    requires ParseFromBuf(buf).Ok? && ParseFromBuf(buf).value.1.None?
    ensures |buf| < MAX_ADDRESS_LEN
  {
  }

  // ---------------------------------------------------------------- the streaming reader

  // What the streaming readers do with the bytes that follow the type byte.

  function ReadingIPv4(s: seq<byte>): Step<Address> {
    if |s| < 6 then Eof(s) else Step(Ok(IPv4(V4(s[..4], FromBe16(s[4], s[5])))), 6)
  }

  function ReadingDomain(s: seq<byte>): Step<Address> {
    if s == [] || |s| < 1 + s[0] as nat then Eof(s)
    else
      var end := 1 + s[0] as nat;
      if !ValidUtf8(s[1..end]) then Step(Err(InvalidUtf8), end)
      else if |s| < end + 2 then Eof(s)
      else Step(Ok(Domain(s[1..end], FromBe16(s[end], s[end + 1]))), end + 2)
  }

  function ReadingIPv6(s: seq<byte>): Step<Address> {
    if |s| < 18 then Eof(s) else Step(Ok(IPv6(V6(s[..16], FromBe16(s[16], s[17]), 0, 0))), 18)
  }

  function ReadingBody(atyp: byte, s: seq<byte>): (step: Step<Address>)
    ensures step.used <= |s|
  {
    if atyp == TYPE_IPV4 then ReadingIPv4(s)
    else if atyp == TYPE_DOMAIN then ReadingDomain(s)
    else if atyp == TYPE_IPV6 then ReadingIPv6(s)
    else Step(Err(InvalidAddressType(atyp)), 0)
  }

  /** What `Address::read_from` does with the bytes to come. */
  function Reading(s: seq<byte>): (step: Step<Address>)
    ensures step.used <= |s|
  {
    if s == [] then Eof(s)
    else
      var body := ReadingBody(s[0], s[1..]);
      Step(body.result, 1 + body.used)
  }

  /** `Address::read_from`; the arms of its `match` are the three methods below. */
  method ReadFrom(reader: ByteStream) returns (r: Result<Address>)
    requires reader.Valid()
    modifies reader`pos
    ensures reader.Valid() && Took(old(reader.Rest()), reader.Rest(), Reading(old(reader.Rest())), r)
  {
    hide ByteStream.Valid, ByteStream.Rest, ReadingIPv4, ReadingDomain, ReadingIPv6;
    var addrType :- reader.ReadU8();
    if addrType == TYPE_IPV4 {
      r := ReadIPv4(reader);
    } else if addrType == TYPE_DOMAIN {
      r := ReadDomain(reader);
    } else if addrType == TYPE_IPV6 {
      r := ReadIPv6(reader);
    } else {
      r := Err(InvalidAddressType(addrType));
    }
  }

  method ReadIPv4(reader: ByteStream) returns (r: Result<Address>)
    requires reader.Valid()
    modifies reader`pos
    ensures reader.Valid() && Took(old(reader.Rest()), reader.Rest(), ReadingIPv4(old(reader.Rest())), r)
  {
    hide ByteStream.Valid, ByteStream.Rest;
    var buf :- reader.ReadExact(4);
    var port :- reader.ReadU16();
    return Ok(IPv4(V4(buf, port)));
  }

  method ReadDomain(reader: ByteStream) returns (r: Result<Address>)
    requires reader.Valid()
    modifies reader`pos
    ensures reader.Valid() && Took(old(reader.Rest()), reader.Rest(), ReadingDomain(old(reader.Rest())), r)
  {
    hide ByteStream.Valid, ByteStream.Rest;
    ghost var s := reader.Rest();
    var len :- reader.ReadU8();
    var buf :- reader.ReadExact(len);
    assert buf == s[1..1 + len as nat];
    if !ValidUtf8(buf) {
      return Err(InvalidUtf8);
    }
    var port :- reader.ReadU16();
    return Ok(Domain(buf, port));
  }

  method ReadIPv6(reader: ByteStream) returns (r: Result<Address>)
    requires reader.Valid()
    modifies reader`pos
    ensures reader.Valid() && Took(old(reader.Rest()), reader.Rest(), ReadingIPv6(old(reader.Rest())), r)
  {
    hide ByteStream.Valid, ByteStream.Rest;
    var buf :- reader.ReadExact(16);
    var ip := Ipv6FromGroups(buf);
    assert ip == buf;
    var port :- reader.ReadU16();
    return Ok(IPv6(V6(ip, port, 0, 0)));
  }

  /** A command byte and an address, as both request headers carry them. */
  function ReadingCommandAddress(s: seq<byte>): (step: Step<(Command, Address)>)
    ensures step.used <= |s|
  {
    if s == [] then Eof(s)
    else if Command.FromU8(s[0]).Err? then Step(Err(InvalidCommand(s[0])), 1)
    else
      var address := Reading(s[1..]);
      if address.result.Err? then Step(Err(address.result.error), 1 + address.used)
      else Step(Ok((Command.FromU8(s[0]).value, address.result.value)), 1 + address.used)
  }

  method ReadCommandAddress(reader: ByteStream) returns (r: Result<(Command, Address)>)
    requires reader.Valid()
    modifies reader`pos
    ensures reader.Valid() && Took(old(reader.Rest()), reader.Rest(), ReadingCommandAddress(old(reader.Rest())), r)
  {
    hide ByteStream.Valid, ByteStream.Rest;
    var cmdByte :- reader.ReadU8();
    var command :- Command.FromU8(cmdByte);
    var address :- ReadFrom(reader);
    return Ok((command, address));
  }

  /** The stream ends between a complete but malformed domain and the end of its port. */
  predicate BadDomainBeforePort(s: seq<byte>) {
    |s| >= 2 && s[0] == TYPE_DOMAIN && 2 + s[1] as nat <= |s| < 4 + s[1] as nat && !ValidUtf8(s[2..2 + s[1] as nat])
  }

  lemma SliceOfTail(s: seq<byte>, end: nat)
    requires 1 <= end < |s|
    ensures s[1..][1..end] == s[2..end + 1]
  {
  }

  /**
   * The streaming reader refines the slice parser: the same address from the same bytes, the same
   * errors, and EOF where the slice parser wants more data, except that a malformed domain is
   * reported before its port is read.
   */
  lemma ReadingRefinesParsing(s: seq<byte>)
    ensures match ParseFromBuf(s)
            case Ok((a, Some(n))) => Reading(s) == Step(Ok(a), n)
            case Ok((_, None)) =>
              Reading(s) == if BadDomainBeforePort(s) then Step(Err(InvalidUtf8), 2 + s[1] as nat) else Eof(s)
            case Err(e) => Reading(s).result == Err(e)
  {
    if |s| >= 2 && s[0] == TYPE_DOMAIN && 2 + s[1] as nat <= |s| {
      SliceOfTail(s, 1 + s[1] as nat);
    }
  }
}
