/**
 * src/reality/splice.rs: the bidirectional copy loop of `DirectSplice`. Each turn races a read from
 * either side; a single `read` that loses the race and is dropped has taken nothing.
 */
module Splice {
  import opened Errors
  import opened Bytes
  import opened Streams
  import opened Fallback

  const BUFFER_SIZE: nat := 65536

  /** What the read that wins a race comes to; `Ready(fault)` goes on to a write, which may fail. */
  datatype Io = Ready(fault: Option<nat>) | WouldBlock | Failed

  /** One turn of the loop: whose read won. */
  datatype Pick = Pick(fromReader: bool, io: Io)

  /**
   * One arm of the `select!` with a read that is ready: read a chunk, and write it if there is one.
   * `p` is how far the bytes `all` of `from` have got before it, `p'` after.
   */
  method CopyChunk(from: ByteStream, to: ByteStream, fault: Option<nat>,
                   ghost all: seq<byte>, ghost written: seq<byte>, ghost p: Progress)
    returns (n: nat, r: Result<()>, ghost p': Progress)
    requires from.Valid() && from != to
    requires p.Fits(all, Ok(false)) && Left(all, p.taken, from.Rest()) && to.written == written + all[..p.arrived]
    modifies from`pos, to`written
    ensures from.Valid() && p'.Fits(all, Err(WriteFailed))
    ensures Left(all, p'.taken, from.Rest()) && to.written == written + all[..p'.arrived]
    ensures p'.taken == p.taken + n && p'.arrived >= p.arrived
    ensures n <= BUFFER_SIZE && (n == 0 <==> old(from.Rest()) == [])
    ensures n == 0 ==> from.Rest() == []
    ensures r == if n != 0 && fault.Some? then Err(WriteFailed) else Ok(())
    ensures r.Ok? ==> p'.arrived == p'.taken
  {
    hide ByteStream.Valid, ByteStream.Rest, Left, Taken, Written;
    ghost var before := from.Rest();
    var chunk := from.Read(BUFFER_SIZE);
    n := |chunk|;
    TurnConserves(all, p, written, before, chunk, from.Rest(), fault);
    p' := AfterTurn(p, chunk, fault);
    if chunk == [] {
      EmptyRead(before, from.Rest());
      return n, Ok(()), p';
    }
    r := to.WriteAll(chunk, fault);
  }

  lemma EmptyRead(before: seq<byte>, after: seq<byte>)
    requires Taken(before, [], after)
    ensures after == before
  {
  }

  /** The bytes that the first `|moved|` turns moved from the given side, `moved` having the bytes of each turn. */
  function MovedFrom(script: seq<Pick>, moved: seq<nat>, fromReader: bool): nat
    requires |moved| <= |script|
  {
    if moved == [] then 0
    else
      var last := |moved| - 1;
      MovedFrom(script, moved[..last], fromReader) + if script[last].fromReader == fromReader then moved[last] else 0
  }

  /** A turn moves at most a buffer, and nothing unless its read is ready. */
  predicate MovesLegally(script: seq<Pick>, moved: seq<nat>) {
    && |moved| <= |script|
    && forall i :: 0 <= i < |moved| ==> moved[i] <= 65536 && (!script[i].io.Ready? ==> moved[i] == 0)
  }

  predicate ReadFails(script: seq<Pick>) {
    exists i :: 0 <= i < |script| && script[i].io.Failed?
  }

  predicate WriteFails(script: seq<Pick>) {
    exists i :: 0 <= i < |script| && script[i].io.Ready? && script[i].io.fault.Some?
  }

  /** Every ready read among the turns so far has moved something, and none of the reads failed. */
  predicate MovesOn(script: seq<Pick>, moved: seq<nat>) {
    && |moved| <= |script|
    && forall i :: 0 <= i < |moved| ==> !script[i].io.Failed? && (script[i].io.Ready? ==> moved[i] > 0)
  }

  lemma MovedNothing(script: seq<Pick>)
    ensures MovesLegally(script, []) && MovesOn(script, [])
    ensures MovedFrom(script, [], true) == 0 && MovedFrom(script, [], false) == 0
  {
  }

  lemma MovedSnoc(script: seq<Pick>, moved: seq<nat>, n: nat)
    requires MovesLegally(script, moved) && |moved| < |script|
    requires n <= 65536 && (!script[|moved|].io.Ready? ==> n == 0)
    ensures MovesLegally(script, moved + [n])
    ensures MovesOn(script, moved) && !script[|moved|].io.Failed? && (script[|moved|].io.Ready? ==> n > 0) ==>
              MovesOn(script, moved + [n])
    ensures MovedFrom(script, moved + [n], true) == MovedFrom(script, moved, true) + if script[|moved|].fromReader then n else 0
    ensures MovedFrom(script, moved + [n], false) == MovedFrom(script, moved, false) + if script[|moved|].fromReader then 0 else n
  {
    assert (moved + [n])[..|moved|] == moved;
  }

  lemma MovedOnToEnd(script: seq<Pick>, moved: seq<nat>)
    requires MovesOn(script, moved) && |moved| == |script|
    ensures !ReadFails(script)
  {
  }

  class DirectSplice {
    const reader: ByteStream
    const writer: ByteStream
    var bytesTransferred: u64

    constructor (reader: ByteStream, writer: ByteStream)
      ensures this.reader == reader && this.writer == writer && bytesTransferred == 0
    {
      this.reader, this.writer := reader, writer;
      bytesTransferred := 0;
    }

    /**
     * `splice`, for the races and outcomes that `script` lays down; `None` means the loop would
     * still go on. `up` and `down` are how far the two directions have got and `counted` how many
     * bytes were written and flushed in full: whatever the races, each side has been written
     * exactly what was read from the other, in order, and the counter has grown by the sum.
     */
    method Splice(script: seq<Pick>) returns (r: Option<Result<u64>>, ghost up: Progress, ghost down: Progress, ghost counted: nat,
        ghost moved: seq<nat>)
      requires reader != writer && reader.Valid() && writer.Valid()
      modifies this`bytesTransferred, reader`pos, reader`written, writer`pos, writer`written
      ensures reader.Valid() && writer.Valid()
      ensures up.arrived <= up.taken <= |old(reader.Rest())| && down.arrived <= down.taken <= |old(writer.Rest())|
      ensures Left(old(reader.Rest()), up.taken, reader.Rest()) && Left(old(writer.Rest()), down.taken, writer.Rest())
      ensures writer.written == old(writer.written) + old(reader.Rest())[..up.arrived]
      ensures reader.written == old(reader.written) + old(writer.Rest())[..down.arrived]
      ensures bytesTransferred == (old(bytesTransferred) + counted) % U64
      ensures counted <= up.arrived + down.arrived
      // Unless a write failed, nothing is left between the two sides and everything is counted.
      ensures r.None? || r.value.Ok? ==>
                up.arrived == up.taken && down.arrived == down.taken && counted == up.taken + down.taken
      // The loop ends well at an EOF or a failed read only, and then returns the counter.
      ensures r.Some? && r.value.Ok? ==>
                && r.value.value == bytesTransferred
                && (reader.Rest() == [] || writer.Rest() == [] || ReadFails(script))
      ensures r.Some? && r.value.Err? ==>
                r.value.error == WriteFailed && WriteFails(script)
      // Turn by turn: only ready reads move bytes, each at most a buffer, and that is all that moves.
      ensures MovesLegally(script, moved)
      ensures up.taken == MovedFrom(script, moved, true) && down.taken == MovedFrom(script, moved, false)
      // A loop that goes on has been through every turn, has moved something at every ready read and met no failure.
      ensures r.None? ==>
                |moved| == |script| && !ReadFails(script) && MovesOn(script, moved)
    {
      hide ByteStream.Valid, ByteStream.Rest, Left, Taken, Written, MovedFrom, MovesLegally, MovesOn;
      MovedNothing(script);
      ghost var ups, downs := reader.Rest(), writer.Rest();
      ghost var toWriter, toReader := writer.written, reader.written;
      LeftAtFirst(ups);
      LeftAtFirst(downs);
      up, down, counted, moved := Progress(0, 0), Progress(0, 0), 0, [];
      for i := 0 to |script|
        invariant reader.Valid() && writer.Valid()
        invariant up.Fits(ups, Ok(false)) && down.Fits(downs, Ok(false)) && counted == up.taken + down.taken
        invariant Left(ups, up.taken, reader.Rest()) && Left(downs, down.taken, writer.Rest())
        invariant writer.written == toWriter + ups[..up.arrived] && reader.written == toReader + downs[..down.arrived]
        invariant bytesTransferred == (old(bytesTransferred) + counted) % U64
        invariant |moved| == i && MovesLegally(script, moved) && MovesOn(script, moved)
        invariant up.taken == MovedFrom(script, moved, true) && down.taken == MovedFrom(script, moved, false)
      {
        match script[i].io {
          case WouldBlock =>
            MovedSnoc(script, moved, 0);
            moved := moved + [0];
          case Failed =>
            return Some(Ok(bytesTransferred)), up, down, counted, moved;
          case Ready(fault) =>
            var n, sent;
            if script[i].fromReader {
              n, sent, up := CopyChunk(reader, writer, fault, ups, toWriter, up);
            } else {
              n, sent, down := CopyChunk(writer, reader, fault, downs, toReader, down);
            }
            MovedSnoc(script, moved, n);
            moved := moved + [n];
            if n == 0 {
              return Some(Ok(bytesTransferred)), up, down, counted, moved;
            }
            if sent.Err? {
              return Some(Err(sent.error)), up, down, counted, moved;
            }
            CountersAdd(old(bytesTransferred) + counted, n);
            counted := counted + n;
            bytesTransferred := (bytesTransferred + n) % U64;
        }
      }
      MovedOnToEnd(script, moved);
      return None, up, down, counted, moved;
    }
  }
}
