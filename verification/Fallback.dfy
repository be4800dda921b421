/** src/proxy/fallback.rs: giving back the bytes that were read too early. */
module Fallback {
  import opened Errors
  import opened Bytes
  import opened Streams

  /**
   * `PrefixedStream`: a stream that delivers `prefix` before it goes on with `inner`. `position` is
   * the cursor in the prefix.
   */
  class PrefixedStream {
    const prefix: seq<byte>
    var position: nat
    const inner: ByteStream

    constructor (prefix: seq<byte>, inner: ByteStream)
      requires inner.Valid()
      ensures Valid() && this.prefix == prefix && this.inner == inner && position == 0
      ensures Remaining() == prefix + inner.Rest()
    {
      this.prefix, this.inner := prefix, inner;
      position := 0;
    }

    predicate Valid()
      reads this`position, inner`pos
    {
      position <= |prefix| && inner.Valid()
    }

    /** The bytes still to be delivered. */
    function Remaining(): seq<byte>
      requires Valid()
      reads this`position, inner`pos
    {
      prefix[position..] + inner.Rest()
    }

    /**
     * `poll_read` with room for `cap` bytes: the next bytes of `prefix` followed by `inner`. The
     * inner stream is left alone until the prefix has been delivered, and a buffer with room stays
     * empty only at the very end.
     */
    method PollRead(cap: nat) returns (chunk: seq<byte>)
      requires Valid()
      modifies this`position, inner`pos
      ensures Valid()
      ensures Taken(old(Remaining()), chunk, Remaining()) && |chunk| <= cap
      ensures chunk == [] <==> cap == 0 || old(Remaining()) == []
      ensures old(position) < |prefix| ==>
                && inner.pos == old(inner.pos) && position == old(position) + |chunk|
                && (|chunk| == cap || position == |prefix|)
      ensures old(position) == |prefix| ==> position == old(position)
    {
      var prefixRemaining := |prefix| - position;
      if prefixRemaining > 0 {
        var amount := if cap <= prefixRemaining then cap else prefixRemaining;
        chunk := prefix[position..position + amount];
        position := position + amount;
        assert prefix[old(position)..] == chunk + prefix[position..];
      } else {
        chunk := inner.Read(cap);
      }
    }

    /** `read_exact` over `poll_read`: it goes on until the buffer is full or nothing more comes. */
    method ReadExact(n: nat) returns (r: Result<seq<byte>>)
      requires Valid()
      modifies this`position, inner`pos
      ensures Valid() && Took(old(Remaining()), Remaining(), TakeExact(old(Remaining()), n), r)
    {
      ghost var all := Remaining();
      var buf: seq<byte> := [];
      while |buf| < n
        invariant Valid() && |buf| <= n && Taken(all, buf, Remaining())
        decreases n - |buf|
      {
        var chunk := PollRead(n - |buf|);
        if chunk == [] {
          return Err(UnexpectedEof);
        }
        buf := buf + chunk;
      }
      return Ok(buf);
    }

    method ReadU8() returns (r: Result<byte>)
      requires Valid()
      modifies this`position, inner`pos
      ensures Valid() && Took(old(Remaining()), Remaining(), TakeU8(old(Remaining())), r)
    {
      var bs :- ReadExact(1);
      return Ok(bs[0]);
    }

    method ReadU16() returns (r: Result<u16>)
      requires Valid()
      modifies this`position, inner`pos
      ensures Valid() && Took(old(Remaining()), Remaining(), TakeU16(old(Remaining())), r)
    {
      var bs :- ReadExact(2);
      return Ok(FromBe16(bs[0], bs[1]));
    }

    /** Writes go straight to the inner stream. */
    method WriteAll(bs: seq<byte>, fault: Option<nat>) returns (r: Result<()>)
      modifies inner`written
      ensures inner.written == old(inner.written) + Written(bs, fault)
      ensures r == if fault.Some? then Err(WriteFailed) else Ok(())
    {
      r := inner.WriteAll(bs, fault);
    }
  }

  /** `peek_client_data`: a buffer of `capacity` bytes, filled by one read and cut to what came. */
  method PeekClientData(reader: ByteStream, capacity: nat) returns (buf: seq<byte>)
    requires reader.Valid()
    modifies reader`pos
    ensures reader.Valid()
    ensures Taken(old(reader.Rest()), buf, reader.Rest()) && |buf| <= capacity
    ensures buf == [] <==> capacity == 0 || old(reader.Rest()) == []
  {
    buf := seq(capacity, _ => 0);
    var read := reader.Read(capacity);
    buf := read + buf[|read|..];
    buf := buf[..|read|];
  }

  // ---------------------------------------------------------------- forwarding

  /** One turn of a copy loop: the room in its buffer, and what becomes of the write. */
  datatype CopyTurn = CopyTurn(room: nat, fault: Option<nat>)

  /** How an attempt to connect ends. */
  datatype Connect = Connected | Refused | TimedOut

  /** What the outside world does to a forwarded connection. */
  datatype Net = Net(connect: Connect, replay: Option<nat>, turns: seq<CopyTurn>)

  /** What a forwarding task came to: `Ok(true)` ended at EOF, `Ok(false)` was still going on. */
  type Forwarded = Result<bool>

  /**
   * How far the bytes `all` of a client have got: `taken` of them have been read, `arrived` of them
   * have reached the other side. Only a failed write makes the two differ.
   */
  datatype Progress = Progress(taken: nat, arrived: nat) {
    predicate Fits(all: seq<byte>, r: Forwarded) {
      && arrived <= taken <= |all|
      && (r.Ok? ==> arrived == taken)
      && (r == Ok(true) ==> taken == |all|)
    }
  }

  /** After `taken` bytes of `all` have been read, `left` is what remains of them. */
  predicate Left(all: seq<byte>, taken: nat, left: seq<byte>) {
    taken <= |all| && left == all[taken..]
  }

  lemma LeftAtFirst(all: seq<byte>)
    ensures Left(all, 0, all)
  {
  }

  /** Some turn's write is going to fail. */
  predicate Faulty(turns: seq<CopyTurn>) {
    exists i :: 0 <= i < |turns| && turns[i].fault.Some?
  }

  /** The progress after one turn of a copy loop that read `chunk` and wrote it out as far as `fault` lets it. */
  ghost function AfterTurn(p: Progress, chunk: seq<byte>, fault: Option<nat>): Progress {
    Progress(p.taken + |chunk|, p.arrived + |Written(chunk, fault)|)
  }

  lemma TurnConserves(all: seq<byte>, p: Progress, written: seq<byte>, before: seq<byte>, chunk: seq<byte>, left: seq<byte>,
                      fault: Option<nat>)
    requires p.Fits(all, Ok(false)) && Left(all, p.taken, before) && Taken(before, chunk, left)
    ensures var p' := AfterTurn(p, chunk, fault);
            && p'.Fits(all, Err(WriteFailed)) && (fault.None? ==> p'.Fits(all, Ok(false)))
            && Left(all, p'.taken, left)
            && written + all[..p.arrived] + Written(chunk, fault) == written + all[..p'.arrived]
    ensures before == [] ==> p.Fits(all, Ok(true)) && AfterTurn(p, chunk, fault) == p
  {
    hide Written;
    var part := Written(chunk, fault);
    assert part == all[p.taken..][..|part|] by {
      assert part == chunk[..|part|];
    }
    PrefixGrows(all, p.taken, |part|);
    assert written + all[..p.arrived] + part == written + (all[..p.arrived] + part);
  }

  lemma PrefixGrows(all: seq<byte>, k: nat, n: nat)
    requires k + n <= |all|
    ensures all[..k] + all[k..][..n] == all[..k + n]
  {
  }

  /** The client-to-remote half of `copy_bidirectional` over a prefixed stream. */
  method Relay(client: PrefixedStream, remote: ByteStream, turns: seq<CopyTurn>)
    returns (r: Forwarded, ghost p: Progress)
    requires client.Valid() && remote != client.inner
    requires forall t :: t in turns ==> t.room > 0
    modifies client`position, client.inner`pos, remote`written
    ensures client.Valid() && p.Fits(old(client.Remaining()), r)
    ensures Left(old(client.Remaining()), p.taken, client.Remaining())
    ensures remote.written == old(remote.written) + old(client.Remaining())[..p.arrived]
    ensures r == Ok(false) ==> p.taken >= |turns|
    ensures r.Err? ==> r.error == WriteFailed && Faulty(turns)
  {
    hide Left, Taken, Written, PrefixedStream.Valid, PrefixedStream.Remaining;
    ghost var all := client.Remaining();
    LeftAtFirst(all);
    p := Progress(0, 0);
    for i := 0 to |turns|
      invariant client.Valid() && p.Fits(all, Ok(false)) && p.taken >= i && Left(all, p.taken, client.Remaining())
      invariant remote.written == old(remote.written) + all[..p.arrived]
    {
      ghost var before := client.Remaining();
      var chunk := client.PollRead(turns[i].room);
      TurnConserves(all, p, old(remote.written), before, chunk, client.Remaining(), turns[i].fault);
      if chunk == [] {
        return Ok(true), p;
      }
      p := AfterTurn(p, chunk, turns[i].fault);
      var _ :- remote.WriteAll(chunk, turns[i].fault);
    }
    return Ok(false), p;
  }

  /** The client-to-backend half of `copy_bidirectional` over the plain stream. */
  method Forward(client: ByteStream, backend: ByteStream, turns: seq<CopyTurn>)
    returns (r: Forwarded, ghost p: Progress)
    requires client.Valid() && backend != client
    requires forall t :: t in turns ==> t.room > 0
    modifies client`pos, backend`written
    ensures client.Valid() && p.Fits(old(client.Rest()), r)
    ensures Left(old(client.Rest()), p.taken, client.Rest())
    ensures backend.written == old(backend.written) + old(client.Rest())[..p.arrived]
    ensures r == Ok(false) ==> p.taken >= |turns|
    ensures r.Err? ==> r.error == WriteFailed && Faulty(turns)
  {
    hide Left, Taken, Written, ByteStream.Valid, ByteStream.Rest;
    ghost var all := client.Rest();
    LeftAtFirst(all);
    p := Progress(0, 0);
    for i := 0 to |turns|
      invariant client.Valid() && p.Fits(all, Ok(false)) && p.taken >= i && Left(all, p.taken, client.Rest())
      invariant backend.written == old(backend.written) + all[..p.arrived]
    {
      ghost var before := client.Rest();
      var chunk := client.Read(turns[i].room);
      TurnConserves(all, p, old(backend.written), before, chunk, client.Rest(), turns[i].fault);
      if chunk == [] {
        return Ok(true), p;
      }
      p := AfterTurn(p, chunk, turns[i].fault);
      var _ :- backend.WriteAll(chunk, turns[i].fault);
    }
    return Ok(false), p;
  }

  /**
   * `handle_fallback`: replay what was peeked, then forward. The backend sees `peeked` and then
   * the rest of the client stream.
   */
  method HandleFallback(client: ByteStream, peeked: seq<byte>, backend: ByteStream, net: Net)
    returns (r: Forwarded, ghost p: Progress)
    requires client.Valid() && backend != client
    requires forall t :: t in net.turns ==> t.room > 0
    modifies client`pos, backend`written
    ensures client.Valid() && p.Fits(peeked + old(client.Rest()), r)
    ensures net.connect != Connected ==> r == Err(RemoteConnectFailed) && p.arrived == 0
    ensures Left(peeked + old(client.Rest()), p.taken, client.Rest())
    ensures backend.written == old(backend.written) + (peeked + old(client.Rest()))[..p.arrived]
    ensures r == Ok(false) ==> p.taken >= |peeked| + |net.turns|
    ensures net.connect == Connected && r.Err? ==> r.error == WriteFailed && (net.replay.Some? || Faulty(net.turns))
  {
    hide Left, Written, ByteStream.Valid, ByteStream.Rest;
    ghost var rest, written := client.Rest(), backend.written;
    LeftAtFirst(rest);
    ReplayedBytes(written, peeked, rest, Progress(0, 0), rest);
    if net.connect != Connected {
      return Err(RemoteConnectFailed), Progress(|peeked|, 0);
    }
    if peeked != [] {
      ghost var part := Written(peeked, net.replay);
      p := Progress(|peeked|, |part|);
      ReplayedPart(written, peeked, rest, part);
      var _ :- backend.WriteAll(peeked, net.replay);
      assert part == peeked by { WritesAll(peeked); }
    }
    assert backend.written == written + peeked;
    ghost var more;
    r, more := Forward(client, backend, net.turns);
    p := Progress(|peeked| + more.taken, |peeked| + more.arrived);
    ReplayedBytes(written, peeked, rest, more, client.Rest());
  }

  lemma WritesAll(bs: seq<byte>)
    ensures Written(bs, None) == bs
  {
  }

  lemma ReplayedPart(written: seq<byte>, peeked: seq<byte>, rest: seq<byte>, part: seq<byte>)
    requires part <= peeked
    ensures written + part == written + (peeked + rest)[..|part|]
  {
    assert part == (peeked + rest)[..|part|];
  }

  lemma ReplayedBytes(written: seq<byte>, peeked: seq<byte>, rest: seq<byte>, more: Progress, left: seq<byte>)
    requires Left(rest, more.taken, left) && more.arrived <= |rest|
    ensures Left(peeked + rest, |peeked| + more.taken, left)
    ensures written + peeked + rest[..more.arrived] == written + (peeked + rest)[..|peeked| + more.arrived]
  {
    assert peeked + rest[..more.arrived] == (peeked + rest)[..|peeked| + more.arrived];
  }
}
