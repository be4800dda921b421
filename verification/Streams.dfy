/** Asynchronous byte streams: what `AsyncRead` and `AsyncWrite` promise their users. */
module Streams {
  import opened Errors
  import opened Bytes

  // ---------------------------------------------------------------- reading as a function
  //
  // A reader is described by what it does to the bytes that are still to come: the value it
  // returns and how many of those bytes it has taken when it returns.

  datatype Step<+T> = Step(result: Result<T>, used: nat)

  /** `read_exact` at the end of the stream: everything that was left is gone. */
  function Eof<T>(s: seq<byte>): Step<T> {
    Step(Err(UnexpectedEof), |s|)
  }

  function TakeExact(s: seq<byte>, n: nat): Step<seq<byte>> {
    if n <= |s| then Step(Ok(s[..n]), n) else Eof(s)
  }

  function TakeU8(s: seq<byte>): Step<byte> {
    if |s| >= 1 then Step(Ok(s[0]), 1) else Eof(s)
  }

  function TakeU16(s: seq<byte>): Step<u16> {
    if |s| >= 2 then Step(Ok(FromBe16(s[0], s[1])), 2) else Eof(s)
  }

  function TakeU64(s: seq<byte>): Step<u64> {
    if |s| >= 8 then Step(Ok(FromBe64(s[..8])), 8) else Eof(s)
  }

  /** What is left of `s` behind its first `n` bytes. */
  function Skip(s: seq<byte>, n: nat): seq<byte>
    requires n <= |s|
  {
    s[n..]
  }

  lemma SkipShortens(s: seq<byte>, n: nat)
    requires n <= |s|
    ensures |Skip(s, n)| == |s| - n && s[..n] + Skip(s, n) == s
  {
  }

  /**
   * A read that found `before` to come and left `after`, returning `r`, did exactly `step`. Taking
   * nothing is stated apart, which spares the solver the drop of an empty prefix.
   */
  predicate Took<T(==)>(before: seq<byte>, after: seq<byte>, step: Step<T>, r: Result<T>) {
    && r == step.result && step.used <= |before|
    && (step.used == 0 ==> after == before)
    && (step.used != 0 ==> after == Skip(before, step.used))
  }

  /** A read that found `before` to come took `chunk` from its front and left `after`. */
  predicate Taken(before: seq<byte>, chunk: seq<byte>, after: seq<byte>) {
    |chunk| <= |before| && chunk == before[..|chunk|] && after == before[|chunk|..]
  }

  // ---------------------------------------------------------------- streams

  /**
   * A connected stream. `content` is all the peer will ever send, of which `pos` bytes have been
   * read; `written` is what has been written towards the peer. The transport decides how the
   * content is cut into chunks, so a read may return any non-empty part of what is asked for.
   */
  class ByteStream {
    const content: seq<byte>
    var pos: nat
    var written: seq<byte>

    constructor (content: seq<byte>)
      ensures Valid() && this.content == content && pos == 0 && written == []
    {
      this.content := content;
      pos, written := 0, [];
    }

    predicate Valid()
      reads this`pos
    {
      pos <= |content|
    }

    /** The bytes still to be read. */
    function Rest(): seq<byte>
      requires Valid()
      reads this`pos
    {
      content[pos..]
    }

    /** `AsyncReadExt::read` into a buffer of `cap` bytes; an empty chunk means EOF when `cap > 0`. */
    method Read(cap: nat) returns (chunk: seq<byte>)
      requires Valid()
      modifies this`pos
      ensures Valid()
      ensures Taken(old(Rest()), chunk, Rest()) && |chunk| <= cap
      ensures chunk == [] <==> cap == 0 || old(Rest()) == []
    {
      if cap == 0 || pos == |content| {
        return [];
      }
      var n: nat :| 1 <= n <= cap && n <= |content| - pos;
      chunk := content[pos..pos + n];
      pos := pos + n;
    }

    /** `AsyncReadExt::read_exact`. */
    method ReadExact(n: nat) returns (r: Result<seq<byte>>)
      requires Valid()
      modifies this`pos
      ensures Valid() && Took(old(Rest()), Rest(), TakeExact(old(Rest()), n), r)
    {
      if n <= |content| - pos {
        r := Ok(content[pos..pos + n]);
        pos := pos + n;
        assert r.value == old(Rest())[..n];
      } else {
        r := Err(UnexpectedEof);
        pos := |content|;
      }
    }

    method ReadU8() returns (r: Result<byte>)
      requires Valid()
      modifies this`pos
      ensures Valid() && Took(old(Rest()), Rest(), TakeU8(old(Rest())), r)
    {
      var bs :- ReadExact(1);
      return Ok(bs[0]);
    }

    method ReadU16() returns (r: Result<u16>)
      requires Valid()
      modifies this`pos
      ensures Valid() && Took(old(Rest()), Rest(), TakeU16(old(Rest())), r)
    {
      var bs :- ReadExact(2);
      return Ok(FromBe16(bs[0], bs[1]));
    }

    method ReadU64() returns (r: Result<u64>)
      requires Valid()
      modifies this`pos
      ensures Valid() && Took(old(Rest()), Rest(), TakeU64(old(Rest())), r)
    {
      var bs :- ReadExact(8);
      return Ok(FromBe64(bs));
    }

    /**
     * `AsyncWriteExt::write_all` (with the flush that may follow it). `fault` is the transport's
     * doing: `Some(k)` makes it fail after `k` bytes.
     */
    method WriteAll(bs: seq<byte>, fault: Option<nat>) returns (r: Result<()>)
      modifies this`written
      ensures written == old(written) + Written(bs, fault)
      ensures r == if fault.Some? then Err(WriteFailed) else Ok(())
    {
      written := written + Written(bs, fault);
      r := if fault.Some? then Err(WriteFailed) else Ok(());
    }
  }

  /** The part of `bs` that a write meeting `fault` gets out. */
  function Written(bs: seq<byte>, fault: Option<nat>): (w: seq<byte>)
    ensures w <= bs && (fault.None? ==> w == bs)
  {
    match fault
    case None => bs
    case Some(k) => if k <= |bs| then bs[..k] else bs
  }
}
