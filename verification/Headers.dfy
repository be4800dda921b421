/** src/protocol/header.rs: the Trojan request header, and `compute_header_end` of src/server.rs. */
module Headers {
  import opened Errors
  import opened Bytes
  import opened Utf8
  import opened Streams
  import opened Addresses

  const PASSWORD_HEX_LEN: nat := 56

  /** Where the address starts: after the hash, a CRLF and the command. */
  const ADDR_START: nat := PASSWORD_HEX_LEN + 2 + 1

  /** The most that is read before giving up on a header. */
  const PEEK_SIZE: nat := 512

  /** The longest header: 56 + 2 + 1 + 259 + 2. */
  const MAX_HEADER_LEN: nat := ADDR_START + MAX_ADDRESS_LEN + 2

  datatype Header = Header(passwordHash: seq<byte>, command: Command, address: Address)

  /** `Header::try_parse_from_buf`: a header, "more data needed", or an error. */
  function TryParseFromBuf(buf: seq<byte>): Result<Option<Header>> {
    if |buf| < PASSWORD_HEX_LEN + 2 then Ok(None)
    else if !AllHex(buf[..PASSWORD_HEX_LEN]) then Err(Protocol(HashNotHex))
    else if buf[56] != 0x0d || buf[57] != 0x0a then Err(Protocol(NoCrlfAfterHash))
    else if |buf| < ADDR_START then Ok(None)
    else
      var command := Command.FromU8(buf[58]);
      if command.Err? then Err(command.error)
      else
        match ParseFromBuf(buf[ADDR_START..])
        case Err(e) => Err(e)
        case Ok((_, None)) => Ok(None)
        case Ok((address, Some(len))) =>
          var pos := ADDR_START + len;
          if |buf| < pos + 2 then Ok(None)
          else if buf[pos] != 0x0d || buf[pos + 1] != 0x0a then Err(Protocol(NoCrlfAfterAddress))
          else Ok(Some(Header(buf[..PASSWORD_HEX_LEN], command.value, address)))
  }

  /** `compute_header_end`, with its two defensive answers. */
  function ComputeHeaderEnd(buf: seq<byte>): nat {
    if |buf| <= ADDR_START then |buf|
    else
      match ParseFromBuf(buf[ADDR_START..])
      case Ok((_, Some(len))) => ADDR_START + len + 2
      case _ => |buf|
  }

  /** `Header::verify_password`: one of the configured hex strings is the hash, up to case. */
  predicate VerifyPassword(h: Header, passwords: seq<Str>) {
    exists i :: 0 <= i < |passwords|
                && |passwords[i]| == PASSWORD_HEX_LEN && EqIgnoreAsciiCase(passwords[i], h.passwordHash)
  }

  predicate IsHeader(buf: seq<byte>) {
    TryParseFromBuf(buf).Ok? && TryParseFromBuf(buf).value.Some?
  }

  predicate NeedsMore(buf: seq<byte>) {
    TryParseFromBuf(buf) == Ok(None)
  }

  // ---------------------------------------------------------------- the slice parser

  /** Only "more data needed" can change when more data arrives. */
  lemma TryParseIsStable(buf: seq<byte>, t: seq<byte>)
    requires !NeedsMore(buf)
    ensures TryParseFromBuf(buf + t) == TryParseFromBuf(buf)
    ensures IsHeader(buf) ==> ComputeHeaderEnd(buf + t) == ComputeHeaderEnd(buf)
  {
    assert (buf + t)[..PASSWORD_HEX_LEN] == buf[..PASSWORD_HEX_LEN];
    if |buf| >= ADDR_START {
      assert (buf + t)[ADDR_START..] == buf[ADDR_START..] + t;
      if ParseFromBuf(buf[ADDR_START..]).Ok? ==> ParseFromBuf(buf[ADDR_START..]).value.1.Some? {
        ParseIsStable(buf[ADDR_START..], t);
      }
    }
  }

  /** The bytes of a header: hash, CRLF, command, address, CRLF. */
  function HeaderForm(h: Header): Result<seq<byte>> {
    var address := WireForm(h.address);
    if address.Err? then Err(address.error)
    else Ok(h.passwordHash + CRLF + [h.command.AsU8()] + address.value + CRLF)
  }

  predicate WellFormedHeader(h: Header) {
    |h.passwordHash| == PASSWORD_HEX_LEN && AllHex(h.passwordHash) && OnWire(h.address) == h.address
  }

  /** The header end is exact: it lies in the buffer, just after a CRLF, and no defensive answer is taken. */
  lemma HeaderEndIsExact(buf: seq<byte>)
    requires IsHeader(buf)
    ensures var (h, end) := (TryParseFromBuf(buf).value.value, ComputeHeaderEnd(buf));
            && ADDR_START < end <= |buf| && end <= MAX_HEADER_LEN
            && ParseFromBuf(buf[ADDR_START..]) == Ok((h.address, Some(end - ADDR_START - 2)))
            && buf[end - 2..end] == CRLF
            && |h.passwordHash| == PASSWORD_HEX_LEN && AllHex(h.passwordHash)
  {
    var end := ComputeHeaderEnd(buf);
    ParsedIsEncoding(buf[ADDR_START..]);
    assert buf[end - 2..end] == CRLF;
  }

  /** The bytes before the header end are the header's form. */
  lemma HeaderBytesAreForm(buf: seq<byte>)
    requires IsHeader(buf)
    ensures var (h, end) := (TryParseFromBuf(buf).value.value, ComputeHeaderEnd(buf));
            WellFormedHeader(h) && end <= |buf| && HeaderForm(h) == Ok(buf[..end])
  {
    var (h, end) := (TryParseFromBuf(buf).value.value, ComputeHeaderEnd(buf));
    var rest := buf[ADDR_START..];
    HeaderEndIsExact(buf);
    ParsedIsWireForm(rest);
    hide ParseFromBuf, AllHex, WireForm;
    var address := WireForm(h.address).value;
    assert address == rest[..|address|] == buf[ADDR_START..end - 2];
    assert buf[56..58] == CRLF;
    assert buf[58..59] == [h.command.AsU8()];
    assert buf[..end] == buf[..56] + buf[56..58] + buf[58..59] + buf[59..end - 2] + buf[end - 2..end];
  }

  /** A header's form parses, whatever follows it, to the header, and ends where it ends. */
  lemma TryParseOfForm(h: Header, t: seq<byte>)
    requires WellFormedHeader(h) && HeaderForm(h).Ok?
    ensures var bs := HeaderForm(h).value;
            TryParseFromBuf(bs + t) == Ok(Some(h)) && ComputeHeaderEnd(bs + t) == |bs|
  {
    hide ParseFromBuf, WireForm, AllHex;
    var address := WireForm(h.address).value;
    var buf := HeaderForm(h).value + t;
    assert buf[..56] == h.passwordHash;
    assert buf[58] == h.command.AsU8();
    assert buf[ADDR_START..] == address + (CRLF + t);
    ParseOfWireForm(h.address, CRLF + t);
    var tail := buf[ADDR_START + |address|..];
    assert tail[0] == 0x0d && tail[1] == 0x0a;
  }

  /** The parser yields `h`, ending at `n`, iff the first `n` bytes are the form of `h`. */
  lemma TryParseIffForm(buf: seq<byte>, h: Header, n: nat)
    ensures TryParseFromBuf(buf) == Ok(Some(h)) && ComputeHeaderEnd(buf) == n <==>
            n <= |buf| && WellFormedHeader(h) && HeaderForm(h) == Ok(buf[..n])
  {
    hide TryParseFromBuf, ComputeHeaderEnd, WellFormedHeader, HeaderForm;
    if TryParseFromBuf(buf) == Ok(Some(h)) && ComputeHeaderEnd(buf) == n {
      HeaderBytesAreForm(buf);
    }
    if n <= |buf| && WellFormedHeader(h) && HeaderForm(h) == Ok(buf[..n]) {
      TryParseOfForm(h, buf[n..]);
      assert buf[..n] + buf[n..] == buf;
    }
  }

  /** The header end is minimal: the bytes before it are enough, and no shorter buffer is decided. */
  lemma HeaderEndIsMinimal(buf: seq<byte>, k: nat)
    requires IsHeader(buf) && k <= |buf|
    ensures var end := ComputeHeaderEnd(buf);
            if k < end then NeedsMore(buf[..k])
            else TryParseFromBuf(buf[..k]) == TryParseFromBuf(buf) && ComputeHeaderEnd(buf[..k]) == end
  {
    var end := ComputeHeaderEnd(buf);
    HeaderEndIsExact(buf);
    assert buf[..k] + buf[k..] == buf;
    if k < end {
      if !NeedsMore(buf[..k]) {
        TryParseIsStable(buf[..k], buf[k..]);
        HeaderEndIsExact(buf[..k]);
        assert false;
      }
    } else {
      var h := TryParseFromBuf(buf).value.value;
      TryParseIffForm(buf, h, end);
      assert buf[..k][..end] == buf[..end];
      TryParseIffForm(buf[..k], h, end);
    }
  }

  /** The peek window is never filled: an undecided buffer is shorter than the longest header. */
  lemma UndecidedHeaderIsShort(buf: seq<byte>)
    requires NeedsMore(buf)
    ensures |buf| < MAX_HEADER_LEN < PEEK_SIZE
  {
    if |buf| >= ADDR_START {
      var rest := buf[ADDR_START..];
      var parsed := ParseFromBuf(rest);
      if parsed.Ok? && parsed.value.1.None? {
        UndecidedIsShort(rest);
      } else if parsed.Ok? {
        ParsedIsEncoding(rest);
      }
    }
  }

  /** The bound is attained: 319 bytes can leave the parser undecided. */
  lemma UndecidedHeaderBoundIsTight() returns (buf: seq<byte>)
    ensures NeedsMore(buf) && |buf| == MAX_HEADER_LEN - 1
  {
    var hash := seq(56, i => 0x61);
    var name := seq(255, i => 0x61);
    HexIsUtf8(name);
    var h := Header(hash, Connect, Domain(name, 443));
    var bs := HeaderForm(h).value;
    TryParseOfForm(h, []);
    assert bs + [] == bs;
    HeaderEndIsMinimal(bs, |bs| - 1);
    buf := bs[..|bs| - 1];
  }

  // ---------------------------------------------------------------- the streaming parser

  /** `expect_crlf`. */
  function ReadingCrlf(s: seq<byte>, missing: Fault): Step<()> {
    if |s| < 2 then Eof(s) else if s[..2] != CRLF then Step(Err(Protocol(missing)), 2) else Step(Ok(()), 2)
  }

  /** What `Header::read_from` does with the bytes to come. */
  function ReadingHeader(s: seq<byte>): Step<Header> {
    if |s| < PASSWORD_HEX_LEN then Eof(s)
    else if !AllHex(s[..PASSWORD_HEX_LEN]) then Step(Err(Protocol(HashNotHex)), PASSWORD_HEX_LEN)
    else
      var first := ReadingCrlf(s[56..], NoCrlfAfterHash);
      if first.result.Err? then Step(Err(first.result.error), 56 + first.used)
      else
        var target := ReadingCommandAddress(s[58..]);
        var pos := 58 + target.used;
        if target.result.Err? then Step(Err(target.result.error), pos)
        else
          var second := ReadingCrlf(s[pos..], NoCrlfAfterAddress);
          if second.result.Err? then Step(Err(second.result.error), pos + second.used)
          else Step(Ok(Header(s[..PASSWORD_HEX_LEN], target.result.value.0, target.result.value.1)), pos + 2)
  }

  /** `Header::read_from`. */
  method ReadHeader(reader: ByteStream) returns (r: Result<Header>)
    requires reader.Valid()
    modifies reader`pos
    ensures reader.Valid() && Took(old(reader.Rest()), reader.Rest(), ReadingHeader(old(reader.Rest())), r)
  {
    hide ByteStream.Valid, ByteStream.Rest, ReadingCommandAddress, AllHex;
    ghost var s := reader.Rest();
    var passwordHash :- reader.ReadExact(PASSWORD_HEX_LEN);
    if !AllHex(passwordHash) {
      return Err(Protocol(HashNotHex));
    }
    var _ :- ExpectCrlf(reader, NoCrlfAfterHash);
    assert reader.Rest() == s[58..];
    var target :- ReadCommandAddress(reader);
    assert reader.Rest() == s[58 + ReadingCommandAddress(s[58..]).used..];
    var _ :- ExpectCrlf(reader, NoCrlfAfterAddress);
    return Ok(Header(passwordHash, target.0, target.1));
  }

  method ExpectCrlf(reader: ByteStream, missing: Fault) returns (r: Result<()>)
    requires reader.Valid()
    modifies reader`pos
    ensures reader.Valid() && Took(old(reader.Rest()), reader.Rest(), ReadingCrlf(old(reader.Rest()), missing), r)
  {
    hide ByteStream.Valid, ByteStream.Rest;
    var crlf :- reader.ReadExact(2);
    return if crlf != CRLF then Err(Protocol(missing)) else Ok(());
  }

  /** The two rejections the streaming parser makes while the slice parser still waits for more. */
  predicate RejectedEarly(s: seq<byte>) {
    || (56 <= |s| < 58 && !AllHex(s[..56]))
    || (|s| > ADDR_START && BadDomainBeforePort(s[ADDR_START..]))
  }

  /**
   * The streaming parser refines the slice parser on every stream: it accepts the same headers and
   * takes exactly the bytes up to the header end, it reports the same errors, and where the slice
   * parser wants more data it fails, with EOF unless one of two checks is reached before the end.
   */
  lemma StreamingRefinesSlice(s: seq<byte>)
    ensures match TryParseFromBuf(s)
            case Ok(Some(h)) => ReadingHeader(s) == Step(Ok(h), ComputeHeaderEnd(s))
            case Err(e) => ReadingHeader(s).result == Err(e)
            case Ok(None) =>
              if RejectedEarly(s)
              then ReadingHeader(s).result == Err(if |s| < 58 then Protocol(HashNotHex) else InvalidUtf8)
              else ReadingHeader(s) == Eof(s)
  {
    if |s| >= 58 {
      assert s[56..][..2] == [s[56], s[57]];
    }
    if |s| >= ADDR_START {
      assert s[58..][1..] == s[ADDR_START..];
      ReadingRefinesParsing(s[ADDR_START..]);
      var pos := ADDR_START + Reading(s[ADDR_START..]).used;
      if |s| >= pos + 2 {
        assert s[pos..][..2] == [s[pos], s[pos + 1]];
      }
    }
  }

  /** Hence the two parsers accept the same streams, with the same header and the same length. */
  lemma ParsersAcceptTheSame(s: seq<byte>, h: Header, n: nat)
    ensures ReadingHeader(s) == Step(Ok(h), n) <==> TryParseFromBuf(s) == Ok(Some(h)) && ComputeHeaderEnd(s) == n
  {
    StreamingRefinesSlice(s);
  }

  // ---------------------------------------------------------------- passwords

  function LowerAll(s: seq<byte>): seq<byte> {
    seq(|s|, i requires 0 <= i < |s| => Lower(s[i]))
  }

  /** A header verifies iff its hash in lower case is that of a configured password. */
  lemma VerifyIffLowercaseMember(h: Header, passwords: seq<Str>)
    requires |h.passwordHash| == PASSWORD_HEX_LEN
    ensures VerifyPassword(h, passwords) <==> exists p: Str :: p in passwords && LowerAll(p) == LowerAll(h.passwordHash)
  {
    forall p: Str
      ensures LowerAll(p) == LowerAll(h.passwordHash) <==> EqIgnoreAsciiCase(p, h.passwordHash)
    {
      SameLowerCase(p, h.passwordHash);
    }
  }

  lemma SameLowerCase(a: seq<byte>, b: seq<byte>)
    ensures LowerAll(a) == LowerAll(b) <==> EqIgnoreAsciiCase(a, b)
  {
    if LowerAll(a) == LowerAll(b) {
      assert |a| == |LowerAll(a)| == |b|;
      forall i | 0 <= i < |a| ensures Lower(a[i]) == Lower(b[i]) {
        assert LowerAll(a)[i] == LowerAll(b)[i];
      }
    }
  }
}
