/** src/reality/vision.rs: the Vision authentication request. */
module Vision {
  import opened Errors
  import opened Bytes
  import opened Utf8
  import opened Streams
  import opened Addresses
  import opened Headers

  const VISION_MAGIC_HEADER: byte := 0xfe
  const VISION_VERSION: byte := 0x01
  const VISION_PASSWORD_HEX_LEN: nat := 56
  const VISION_HASH_LEN: nat := 28

  type PasswordHash = s: seq<byte> | |s| == VISION_PASSWORD_HEX_LEN witness seq(VISION_PASSWORD_HEX_LEN, _ => 0)
  type Digest = s: seq<byte> | |s| == VISION_HASH_LEN witness seq(VISION_HASH_LEN, _ => 0)

  /** SHA-224 (section 6.3 of FIPS 180-4), of which nothing but the length of its results is used. */
  type Sha224 = seq<byte> -> Digest

  datatype VisionAuthRequest = VisionAuthRequest(
    magic: byte, version: byte, command: Command, address: Address,
    timestamp: u64, passwordHash: PasswordHash, integrityHash: Digest)

  // ---------------------------------------------------------------- writing

  /** `encoded_without_integrity_hash`. */
  function BaseEncoding(r: VisionAuthRequest): Result<seq<byte>> {
    var address := Encoding(r.address);
    if address.Err? then Err(address.error)
    else Ok([r.magic, r.version] + ([r.command.AsU8()] + address.value) + Credentials(r.timestamp, r.passwordHash))
  }

  function Credentials(timestamp: u64, passwordHash: PasswordHash): (bs: seq<byte>)
    ensures |bs| == 64
  {
    Be64(timestamp) + passwordHash
  }

  /** `encode`: the digest is computed afresh, whatever the request carries. */
  function RequestEncoding(r: VisionAuthRequest, sha: Sha224): Result<seq<byte>> {
    var base := BaseEncoding(r);
    if base.Err? then Err(base.error) else Ok(base.value + sha(base.value))
  }

  /** `with_integrity_hash`. */
  function WithIntegrityHash(r: VisionAuthRequest, sha: Sha224): Result<VisionAuthRequest> {
    var base := BaseEncoding(r);
    if base.Err? then Err(base.error) else Ok(r.(integrityHash := sha(base.value)))
  }

  method EncodedWithoutIntegrityHash(r: VisionAuthRequest) returns (res: Result<seq<byte>>)
    ensures res == BaseEncoding(r)
  {
    var buf: seq<byte> := [];
    buf := buf + [r.magic];
    buf := buf + [r.version];
    buf := buf + [r.command.AsU8()];
    var addrBytes :- Encode(r.address);
    buf := buf + addrBytes;
    buf := buf + Be64(r.timestamp);
    buf := buf + r.passwordHash;
    assert buf == [r.magic, r.version] + ([r.command.AsU8()] + addrBytes) + (Be64(r.timestamp) + r.passwordHash);
    return Ok(buf);
  }

  /** `encode`. */
  method EncodeRequest(r: VisionAuthRequest, sha: Sha224) returns (res: Result<seq<byte>>)
    ensures res == RequestEncoding(r, sha)
  {
    var base :- EncodedWithoutIntegrityHash(r);
    var request := r.(integrityHash := sha(base));
    var buf := EncodedWithoutIntegrityHash(request);
    return if buf.Err? then buf else Ok(buf.value + request.integrityHash);
  }

  // ---------------------------------------------------------------- the timestamp window

  const TWO63: int := 0x8000_0000_0000_0000

  /** `n as i64`. */
  function AsI64(n: u64): int {
    if n < TWO63 then n else n - U64
  }

  predicate FitsI64(n: int) {
    -TWO63 <= n < TWO63
  }

  /** What two's complement makes of a result outside `i64`. */
  function WrapI64(n: int): (r: int)
    ensures FitsI64(r) && (r - n) % U64 == 0
    ensures FitsI64(n) ==> r == n
  {
    var m := n % U64;
    if m < TWO63 then m else m - U64
  }

  function Abs(n: int): int {
    if n < 0 then -n else n
  }

  /** `!((now as i64 - ts as i64).abs() > 300)` in the release profile, where `i64` arithmetic wraps. */
  predicate Fresh(now: u64, ts: u64) {
    WrapI64(Abs(WrapI64(AsI64(now) - AsI64(ts)))) <= 300
  }

  /** The same with overflow checks; `None` is the panic. */
  function FreshChecked(now: u64, ts: u64): Option<bool> {
    var d := AsI64(now) - AsI64(ts);
    if !FitsI64(d) || !FitsI64(Abs(d)) then None else Some(Abs(d) <= 300)
  }

  /** Over all of `u64`: the window is 300 seconds on a circle of 2^64, and its opposite point. */
  lemma FreshIsCircular(now: u64, ts: u64)
    ensures var d := (now - ts) % U64;
            Fresh(now, ts) <==> d <= 300 || d >= U64 - 300 || d == TWO63
  {
    var e := WrapI64(AsI64(now) - AsI64(ts));
    var d := (now - ts) % U64;
    assert d == if e >= 0 then e else e + U64;
  }

  /** Below 2^63 the window is what it is meant to be. */
  lemma FreshBelow63Bits(now: u64, ts: u64)
    requires now < TWO63 && ts < TWO63
    ensures Fresh(now, ts) <==> Abs(now - ts) <= 300
    ensures FreshChecked(now, ts) == Some(Fresh(now, ts))
  {
  }

  /** For a clock between 300 and 2^63 wrap-around accepts one further timestamp, and no more. */
  lemma FreshAcceptsOneMore(now: u64, ts: u64)
    requires 300 <= now < TWO63
    ensures Fresh(now, ts) <==> Abs(now - ts) <= 300 || ts == now + TWO63
  {
    FreshIsCircular(now, ts);
  }

  /** With overflow checks the test panics exactly on the timestamps from 2^63 to 2^63 past the clock. */
  lemma CheckedPanicsExactly(now: u64, ts: u64)
    requires now < TWO63
    ensures FreshChecked(now, ts).None? <==> TWO63 <= ts <= now + TWO63
    ensures FreshChecked(now, ts).Some? ==> FreshChecked(now, ts).value == Fresh(now, ts)
  {
  }

  // ---------------------------------------------------------------- reading

  /** Timestamp, password hash and digest. */
  function ReadingCredentials(s: seq<byte>): (step: Step<(u64, PasswordHash, Digest)>)
    ensures step.used <= |s|
  {
    if |s| < 64 then Eof(s)
    else if !AllHex(s[8..64]) then Step(Err(Protocol(VisionHashNotHex)), 64)
    else if |s| < 92 then Eof(s)
    else Step(Ok((FromBe64(s[..8]), s[8..64], s[64..92])), 92)
  }

  /** The checks that follow the last byte: the clock, the window, the digest. */
  function Judge(r: VisionAuthRequest, clock: Option<u64>, sha: Sha224): Result<VisionAuthRequest> {
    if clock.None? then Err(Protocol(ClockBeforeEpoch))
    else if !Fresh(clock.value, r.timestamp) then Err(Protocol(TimestampExpired))
    else
      var base := BaseEncoding(r);
      if base.Err? then Err(base.error)
      else if sha(base.value) != r.integrityHash then Err(Protocol(IntegrityMismatch))
      else Ok(r)
  }

  /** What `VisionAuthRequest::read_from` does with the bytes to come. */
  function ReadingRequest(s: seq<byte>, clock: Option<u64>, sha: Sha224): (step: Step<VisionAuthRequest>)
    ensures step.used <= |s|
  {
    if |s| < 1 then Eof(s)
    else if s[0] != VISION_MAGIC_HEADER then Step(Err(Protocol(VisionMagic(s[0]))), 1)
    else if |s| < 2 then Eof(s)
    else if s[1] != VISION_VERSION then Step(Err(Protocol(VisionVersion(s[1]))), 2)
    else
      var target := ReadingCommandAddress(s[2..]);
      var pos := 2 + target.used;
      if target.result.Err? then Step(Err(target.result.error), pos)
      else
        var credentials := ReadingCredentials(s[pos..]);
        if credentials.result.Err? then Step(Err(credentials.result.error), pos + credentials.used)
        else Step(Judge(Assemble(target.result.value, credentials.result.value), clock, sha), pos + credentials.used)
  }

  function Assemble(target: (Command, Address), c: (u64, PasswordHash, Digest)): VisionAuthRequest {
    VisionAuthRequest(VISION_MAGIC_HEADER, VISION_VERSION, target.0, target.1, c.0, c.1, c.2)
  }

  /** `VisionAuthRequest::read_from`, with the clock's answer (`None`: before the epoch) as a parameter. */
  method ReadRequest(reader: ByteStream, clock: Option<u64>, sha: Sha224) returns (r: Result<VisionAuthRequest>)
    requires reader.Valid()
    modifies reader`pos
    ensures reader.Valid() && Took(old(reader.Rest()), reader.Rest(), ReadingRequest(old(reader.Rest()), clock, sha), r)
  {
    hide ByteStream.Valid, ByteStream.Rest, ReadingCommandAddress, ReadingCredentials, Judge, Assemble;
    ghost var s := reader.Rest();
    var magic :- reader.ReadU8();
    if magic != VISION_MAGIC_HEADER {
      return Err(Protocol(VisionMagic(magic)));
    }
    var version :- reader.ReadU8();
    if version != VISION_VERSION {
      return Err(Protocol(VisionVersion(version)));
    }
    assert reader.Rest() == s[2..];
    var target :- ReadCommandAddress(reader);
    assert reader.Rest() == s[2 + ReadingCommandAddress(s[2..]).used..];
    var credentials :- ReadCredentials(reader);
    r := Verify(Assemble(target, credentials), clock, sha);
  }

  method ReadCredentials(reader: ByteStream) returns (r: Result<(u64, PasswordHash, Digest)>)
    requires reader.Valid()
    modifies reader`pos
    ensures reader.Valid() && Took(old(reader.Rest()), reader.Rest(), ReadingCredentials(old(reader.Rest())), r)
  {
    hide ByteStream.Valid, ByteStream.Rest, AllHex, FromBe64;
    ghost var s := reader.Rest();
    var timestamp :- reader.ReadU64();
    var passwordHash :- reader.ReadExact(VISION_PASSWORD_HEX_LEN);
    assert passwordHash == s[8..64];
    if !AllHex(passwordHash) {
      return Err(Protocol(VisionHashNotHex));
    }
    var integrityHash :- reader.ReadExact(VISION_HASH_LEN);
    assert integrityHash == s[64..92];
    return Ok((timestamp, passwordHash, integrityHash));
  }

  method Verify(request: VisionAuthRequest, clock: Option<u64>, sha: Sha224) returns (r: Result<VisionAuthRequest>)
    ensures r == Judge(request, clock, sha)
  {
    if clock.None? {
      return Err(Protocol(ClockBeforeEpoch));
    }
    if !Fresh(clock.value, request.timestamp) {
      return Err(Protocol(TimestampExpired));
    }
    var base :- EncodedWithoutIntegrityHash(request);
    if sha(base) != request.integrityHash {
      return Err(Protocol(IntegrityMismatch));
    }
    return Ok(request);
  }

  // ---------------------------------------------------------------- acceptance

  /** What a request must be to be accepted, apart from its digest. */
  predicate WellFormed(r: VisionAuthRequest, clock: Option<u64>) {
    && r.magic == VISION_MAGIC_HEADER && r.version == VISION_VERSION
    && AllHex(r.passwordHash)
    && OnWire(r.address) == r.address
    && clock.Some? && Fresh(clock.value, r.timestamp)
  }

  lemma CommandAddressOfEncoding(command: Command, a: Address, t: seq<byte>)
    requires Encoding(a).Ok?
    ensures ReadingCommandAddress([command.AsU8()] + Encoding(a).value + t)
         == Step(Ok((command, OnWire(a))), 1 + |Encoding(a).value|)
  {
    var s := [command.AsU8()] + Encoding(a).value + t;
    assert s[1..] == Encoding(a).value + t;
    ParseOfEncoding(a, t);
    ReadingRefinesParsing(s[1..]);
    assert Command.FromU8(s[0]) == Ok(command);
  }

  lemma CommandAddressIsEncoding(s: seq<byte>)
    requires ReadingCommandAddress(s).result.Ok?
    ensures var ((command, a), n) := (ReadingCommandAddress(s).result.value, ReadingCommandAddress(s).used);
            && 0 < n <= |s| && OnWire(a) == a
            && (Encoding(a).Ok? ==> s[..n] == [command.AsU8()] + Encoding(a).value)
            && (Encoding(a).Err? ==> a.Domain? && a.name == [] && Encoding(a) == Err(Protocol(DomainLength)))
  {
    ReadingRefinesParsing(s[1..]);
    ParsedIsEncoding(s[1..]);
    assert Command.FromU8(s[0]).Ok?;
    var n := ReadingCommandAddress(s).used;
    assert s[..n] == [s[0]] + s[1..][..n - 1];
  }

  lemma CredentialsOfEncoding(ts: u64, hash: PasswordHash, digest: Digest, t: seq<byte>)
    requires AllHex(hash)
    ensures ReadingCredentials(Credentials(ts, hash) + digest + t) == Step(Ok((ts, hash, digest)), 92)
  {
    hide AllHex, FromBe64;
    var s := Credentials(ts, hash) + digest + t;
    assert s[..8] == Be64(ts) && s[8..64] == hash && s[64..92] == digest;
    FromBe64OfBe64(ts);
  }

  lemma FromBe64OfBe64(n: u64)
    ensures FromBe64(Be64(n)) == n
  {
  }

  lemma CredentialsAreEncoding(s: seq<byte>)
    requires ReadingCredentials(s).result.Ok?
    ensures var (ts, hash, digest) := ReadingCredentials(s).result.value;
            && ReadingCredentials(s).used == 92 <= |s| && AllHex(hash)
            && s[..64] == Credentials(ts, hash) && s[64..92] == digest
  {
    hide AllHex, FromBe64;
    Be64OfFromBe64(s[..8]);
    assert s[..64] == s[..8] + s[8..64];
  }

  /**
   * An encodable request followed by any digest and any bytes is read in full, and then judged; what
   * follows stays unread.
   */
  lemma ReadingOfEncoding(r: VisionAuthRequest, digest: Digest, clock: Option<u64>, sha: Sha224, rest: seq<byte>)
    requires r.magic == VISION_MAGIC_HEADER && r.version == VISION_VERSION && AllHex(r.passwordHash)
    requires Encoding(r.address).Ok?
    ensures var bs := BaseEncoding(r).value + digest;
            ReadingRequest(bs + rest, clock, sha)
            == Step(Judge(r.(address := OnWire(r.address), integrityHash := digest), clock, sha), |bs|)
  {
    hide Judge, AllHex, ReadingCommandAddress, ReadingCredentials, Credentials, OnWire;
    var address := Encoding(r.address).value;
    var credentials := Credentials(r.timestamp, r.passwordHash);
    var s := BaseEncoding(r).value + digest + rest;
    assert s[2..] == [r.command.AsU8()] + address + (credentials + digest + rest);
    CommandAddressOfEncoding(r.command, r.address, credentials + digest + rest);
    assert s[3 + |address|..] == credentials + digest + rest;
    CredentialsOfEncoding(r.timestamp, r.passwordHash, digest, rest);
  }

  /** A well-formed request is accepted from its encoding, with its digest made right and nothing more taken. */
  lemma EncodedRequestIsAccepted(r: VisionAuthRequest, clock: Option<u64>, sha: Sha224, rest: seq<byte>)
    requires WellFormed(r.(address := OnWire(r.address)), clock) && Encoding(r.address).Ok?
    ensures var bs := RequestEncoding(r, sha).value;
            var accepted := WithIntegrityHash(r.(address := OnWire(r.address)), sha).value;
            ReadingRequest(bs + rest, clock, sha) == Step(Ok(accepted), |bs|)
  {
    hide Fresh, AllHex, ReadingRequest, Credentials, OnWire;
    OnWireKeepsEncoding(r.address);
    ReadingOfEncoding(r, sha(BaseEncoding(r).value), clock, sha, rest);
  }

  /** An encodable request with an expired timestamp, or in time but with another digest, is refused with that complaint. */
  lemma SpoiledRequestIsRefused(r: VisionAuthRequest, digest: Digest, now: u64, sha: Sha224, rest: seq<byte>)
    requires r.magic == VISION_MAGIC_HEADER && r.version == VISION_VERSION && AllHex(r.passwordHash)
    requires Encoding(r.address).Ok?
    requires !Fresh(now, r.timestamp) || digest != sha(BaseEncoding(r).value)
    ensures ReadingRequest(BaseEncoding(r).value + digest + rest, Some(now), sha).result
         == Err(Protocol(if !Fresh(now, r.timestamp) then TimestampExpired else IntegrityMismatch))
  {
    hide Fresh, AllHex, ReadingRequest, Credentials, OnWire;
    OnWireKeepsEncoding(r.address);
    ReadingOfEncoding(r, digest, Some(now), sha, rest);
  }

  lemma OnWireKeepsEncoding(a: Address)
    requires Encoding(a).Ok?
    ensures Encoding(OnWire(a)) == Encoding(a) && OnWire(OnWire(a)) == OnWire(a)
  {
  }

  /** What is accepted is well formed, carries its own digest, and was read from exactly its own encoding. */
  lemma AcceptedRequestIsEncoded(s: seq<byte>, clock: Option<u64>, sha: Sha224)
    requires ReadingRequest(s, clock, sha).result.Ok?
    ensures var (r, n) := (ReadingRequest(s, clock, sha).result.value, ReadingRequest(s, clock, sha).used);
            && n <= |s| && WellFormed(r, clock)
            && WithIntegrityHash(r, sha) == Ok(r)
            && RequestEncoding(r, sha) == Ok(s[..n])
  {
    hide Fresh, AllHex, ReadingCommandAddress, ReadingCredentials, Credentials, OnWire, Encoding;
    CommandAddressIsEncoding(s[2..]);
    var pos := 2 + ReadingCommandAddress(s[2..]).used;
    CredentialsAreEncoding(s[pos..]);
    assert s[..pos + 92] == [s[0], s[1]] + s[2..][..pos - 2] + s[pos..][..64] + s[pos..][64..92];
  }

  /** Acceptance is canonical: `read_from` returns `r` having taken `n` bytes iff `r` is well formed, carries its digest and those bytes are `encode(r)`. */
  lemma AcceptedIffEncoding(s: seq<byte>, r: VisionAuthRequest, n: nat, clock: Option<u64>, sha: Sha224)
    ensures ReadingRequest(s, clock, sha) == Step(Ok(r), n) <==>
            && n <= |s| && WellFormed(r, clock)
            && WithIntegrityHash(r, sha) == Ok(r) && RequestEncoding(r, sha) == Ok(s[..n])
  {
    hide Fresh, AllHex, ReadingRequest, BaseEncoding, OnWire;
    if ReadingRequest(s, clock, sha) == Step(Ok(r), n) {
      AcceptedRequestIsEncoded(s, clock, sha);
    }
    if n <= |s| && WellFormed(r, clock) && WithIntegrityHash(r, sha) == Ok(r) && RequestEncoding(r, sha) == Ok(s[..n]) {
      assert BaseEncoding(r).Ok? && Encoding(r.address).Ok? by { BaseNeedsAddress(r); }
      EncodedRequestIsAccepted(r, clock, sha, s[n..]);
      assert s[..n] + s[n..] == s;
    }
  }

  lemma BaseNeedsAddress(r: VisionAuthRequest)
    ensures BaseEncoding(r).Ok? <==> Encoding(r.address).Ok?
  {
  }

  /** `VisionAuthRequest::new`, with the clock's answer as a parameter. */
  function NewRequest(command: Command, address: Address, hashHex: Str, clock: Option<u64>, sha: Sha224): (r: Result<VisionAuthRequest>)
    ensures r.Ok? <==> |hashHex| == 56 && AllHex(hashHex) && clock.Some? && Encoding(address).Ok?
    ensures r.Ok? ==> r.value.command == command && r.value.address == address
                      && r.value.timestamp == clock.value && r.value.passwordHash == hashHex
  {
    if |hashHex| != VISION_PASSWORD_HEX_LEN || !AllHex(hashHex) then Err(Protocol(VisionHashNotHex))
    else if clock.None? then Err(Protocol(ClockBeforeEpoch))
    else
      WithIntegrityHash(
        VisionAuthRequest(VISION_MAGIC_HEADER, VISION_VERSION, command, address, clock.value, hashHex, NO_DIGEST), sha)
  }

  const NO_DIGEST: Digest :=
    [0, 0, 0, 0, 0, 0, 0, 0, 0, 0, 0, 0, 0, 0, 0, 0, 0, 0, 0, 0, 0, 0, 0, 0, 0, 0, 0, 0]

  // ---------------------------------------------------------------- passwords

  predicate KnownPassword(passwords: seq<Str>, hash: seq<byte>) {
    exists i :: 0 <= i < |passwords| && EqIgnoreAsciiCase(passwords[i], hash)
  }

  /** The Vision and the Trojan authenticators know the same hashes, although only one checks the configured length. */
  lemma AuthenticatorsAgree(h: Header, passwords: seq<Str>)
    requires |h.passwordHash| == PASSWORD_HEX_LEN
    ensures KnownPassword(passwords, h.passwordHash) <==> VerifyPassword(h, passwords)
  {
  }

  /** What `VisionProtocol::authenticate` does with the bytes to come when it does not time out. */
  function Authenticating(s: seq<byte>, passwords: seq<Str>, clock: Option<u64>, sha: Sha224): (step: Step<(Command, Address)>)
    ensures step.used <= |s|
    ensures forall e :: ReadingRequest(s, clock, sha).result == Err(e) ==> step.result == Err(e)
  {
    var request := ReadingRequest(s, clock, sha);
    Step(if request.result.Err? then Err(request.result.error)
         else if !KnownPassword(passwords, request.result.value.passwordHash) then Err(AuthenticationFailed)
         else Ok((request.result.value.command, request.result.value.address)),
         request.used)
  }

  /**
   * From one end to the other: a request made by `new` encodes, and a server whose clock is in the
   * window reads back that very request, leaves what follows it, and lets the client in iff it knows
   * the password, provided the address has no flow or scope to lose.
   */
  lemma NewRequestAuthenticates(command: Command, address: Address, hashHex: Str, made: u64, now: u64, sha: Sha224,
                                passwords: seq<Str>, rest: seq<byte>)
    requires OnWire(address) == address && Fresh(now, made)
    requires NewRequest(command, address, hashHex, Some(made), sha).Ok?
    ensures var r := NewRequest(command, address, hashHex, Some(made), sha).value;
            && RequestEncoding(r, sha).Ok?
            && var bs := RequestEncoding(r, sha).value;
            && ReadingRequest(bs + rest, Some(now), sha) == Step(Ok(r), |bs|)
            && Authenticating(bs + rest, passwords, Some(now), sha)
                 == Step(if KnownPassword(passwords, hashHex) then Ok((command, address)) else Err(AuthenticationFailed), |bs|)
  {
    hide Fresh, ReadingRequest, Credentials, Encoding, OnWire, KnownPassword;
    var r := NewRequest(command, address, hashHex, Some(made), sha).value;
    BaseNeedsAddress(r);
    EncodedRequestIsAccepted(r, Some(now), sha, rest);
  }

  /**
   * `VisionProtocol::authenticate`. `timeout` is `Some(k)` when the time runs out with `k` bytes
   * read; the hash is hexadecimal, so its conversion to a string never fails.
   */
  method Authenticate(stream: ByteStream, passwords: seq<Str>, clock: Option<u64>, sha: Sha224, timeout: Option<nat>)
    returns (r: Result<(Command, Address)>)
    requires stream.Valid()
    modifies stream`pos
    ensures stream.Valid()
    ensures match timeout
            case Some(k) => r == Err(Timeout)
            case None => Took(old(stream.Rest()), stream.Rest(), Authenticating(old(stream.Rest()), passwords, clock, sha), r)
  {
    hide ByteStream.Valid, ByteStream.Rest, ReadingRequest, WellFormed;
    if timeout.Some? {
      var _ := stream.ReadExact(timeout.value);
      return Err(Timeout);
    }
    ghost var s := stream.Rest();
    var request :- ReadRequest(stream, clock, sha);
    AcceptedRequestIsEncoded(s, clock, sha);
    HashIsUtf8(request, clock);
    var passwordHash: Str := request.passwordHash;
    if !KnownPassword(passwords, passwordHash) {
      return Err(AuthenticationFailed);
    }
    return Ok((request.command, request.address));
  }

  lemma HashIsUtf8(r: VisionAuthRequest, clock: Option<u64>)
    requires WellFormed(r, clock)
    ensures ValidUtf8(r.passwordHash)
  {
    HexIsUtf8(r.passwordHash);
  }
}
