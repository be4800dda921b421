/** src/reality/state_machine.rs: the Vision connection state machine. */
module StateMachine {
  import opened Errors
  import opened Bytes
  import opened Utf8
  import opened Streams
  import opened Addresses
  import opened Fallback
  import opened Vision

  datatype ConnectionState = Handshake | AuthenticatingState | Authenticated | Forwarding | FallbackState | Closed

  /** What an authentication attempt meets: the clock, the digest, and the timeout if it strikes. */
  datatype Attempt = Attempt(passwords: seq<Str>, clock: Option<u64>, sha: Sha224, timeout: Option<nat>)

  /** An accepted request. */
  datatype Acceptance = Acceptance(request: VisionAuthRequest, attempt: Attempt)

  /** The stretch `bytes` of the stream is exactly the encoding of an accepted, password-matching request. */
  ghost predicate Accepts(a: Acceptance, bytes: seq<byte>) {
    && RequestEncoding(a.request, a.attempt.sha) == Ok(bytes)
    && WithIntegrityHash(a.request, a.attempt.sha) == Ok(a.request)
    && WellFormed(a.request, a.attempt.clock)
    && KnownPassword(a.attempt.passwords, a.request.passwordHash)
  }

  class ConnectionStateMachine {
    var stream: ByteStream?
    var state: ConnectionState
    var authResult: Option<(Command, Address)>
    var fallbackAddress: Option<Address>
    ghost var entry: nat                      // the stream's position when the machine was made
    ghost var acceptance: Option<Acceptance>  // the request that was accepted

    /** What holds of every machine that `new`, `set_fallback` and successful transitions lead to. */
    ghost predicate Reachable()
      reads this, stream
    {
      && stream != null && stream.Valid() && entry <= stream.pos
      && match state
         case Handshake => stream.pos == entry && authResult.None? && acceptance.None?
         case Authenticated =>
           && acceptance.Some?
           && Accepts(acceptance.value, stream.content[entry..stream.pos])
           && authResult == Some((acceptance.value.request.command, acceptance.value.request.address))
         case _ => false
    }

    constructor (stream: ByteStream)
      requires stream.Valid()
      ensures Reachable() && state == Handshake && this.stream == stream && fallbackAddress.None?
    {
      this.stream := stream;
      state, authResult, fallbackAddress := Handshake, None, None;
      entry, acceptance := stream.pos, None;
    }

    method SetFallback(address: Address)
      requires Reachable()
      modifies this`fallbackAddress
      ensures Reachable() && fallbackAddress == Some(address)
    {
      fallbackAddress := Some(address);
    }

    /**
     * `transition_to_authenticating`. The source consumes the machine and gives it back on success
     * only, so what holds after an error describes a machine nobody can use again.
     */
    method TransitionToAuthenticating(attempt: Attempt) returns (r: Result<()>)
      requires Reachable()
      modifies this`stream, this`state, this`authResult, this`acceptance, stream`pos
      ensures stream == old(stream) && stream.Valid()
      ensures r.Ok? ==> Reachable() && state == Authenticated
      ensures old(state) != Handshake ==>
                r == Err(Protocol(InvalidTransition)) && state == old(state) && authResult == old(authResult) && Reachable()
      ensures old(state) == Handshake && attempt.timeout.Some? ==> r == Err(Timeout)
      ensures old(state) == Handshake && attempt.timeout.None? ==>
                var auth := Authenticating(old(stream.Rest()), attempt.passwords, attempt.clock, attempt.sha);
                && (r.Ok? <==> auth.result.Ok?)
                && (r.Ok? ==> authResult == Some(auth.result.value) && stream.pos == old(stream.pos) + auth.used)
                && (r.Err? ==> r.error == auth.result.error)
      ensures old(state) == Handshake && r.Err? ==>
                authResult.None? && state == if fallbackAddress.Some? then FallbackState else Closed
    {
      hide ReadingRequest, WellFormed, RequestEncoding, WithIntegrityHash, KnownPassword;
      if state != Handshake {
        return Err(Protocol(InvalidTransition));
      }
      if stream == null {
        return Err(Protocol(MissingStream));
      }
      var taken: ByteStream := stream;
      stream := null;
      ghost var s, start := taken.Rest(), taken.pos;
      var auth := Authenticate(taken, attempt.passwords, attempt.clock, attempt.sha, attempt.timeout);
      match auth {
        case Ok(result) =>
          AcceptedRequestIsEncoded(s, attempt.clock, attempt.sha);
          ghost var step := ReadingRequest(s, attempt.clock, attempt.sha);
          AdvancedBy(taken.content, start, taken.pos, step.used);
          assert taken.content[entry..taken.pos] == s[..step.used];
          stream := taken;
          state := Authenticated;
          authResult := Some(result);
          acceptance := Some(Acceptance(step.result.value, attempt));
          r := Ok(());
        case Err(e) =>
          state := if fallbackAddress.Some? then FallbackState else Closed;
          stream := taken;
          r := Err(e);
      }
    }

    /**
     * `transition_to_forwarding`: the stream is handed over, at the end of the request, from an
     * authenticated machine only.
     */
    method TransitionToForwarding(connect: Connect) returns (r: Result<ByteStream>)
      requires Reachable()
      ensures r.Ok? <==> state == Authenticated && connect.Connected?
      ensures r.Ok? ==> r.value == stream && acceptance.Some? && Accepts(acceptance.value, stream.content[entry..stream.pos])
      ensures r.Err? ==> r.error == if state != Authenticated then Protocol(NotAuthenticated)
                                    else if connect.TimedOut? then Timeout else ConnectFailed
    {
      if state != Authenticated {
        return Err(Protocol(NotAuthenticated));
      }
      match connect {
        case Connected => return Ok(stream);
        case TimedOut => return Err(Timeout);
        case Refused => return Err(ConnectFailed);
      }
    }
  }

  lemma AdvancedBy(content: seq<byte>, start: nat, pos: nat, used: nat)
    requires start <= |content| && pos <= |content| && used <= |content[start..]|
    requires content[pos..] == if used == 0 then content[start..] else Skip(content[start..], used)
    ensures pos == start + used && content[start..pos] == content[start..][..used]
  {
    assert |content[pos..]| == |content[start..]| - used;
  }

  /** The operations a caller can apply to a machine it holds. */
  datatype Operation = SetFallback(address: Address) | ToAuthenticating(attempt: Attempt)

  /** Whatever is done with a machine, as long as the caller still holds it, it is reachable and has its stream. */
  method Drive(stream: ByteStream, operations: seq<Operation>) returns (m: ConnectionStateMachine?)
    requires stream.Valid()
    modifies stream`pos
    ensures m != null ==> m.Reachable() && m.stream == stream
    ensures m != null && m.state == Handshake ==> stream.pos == old(stream.pos)
    ensures m != null ==> m.entry == old(stream.pos)
    ensures (forall i :: 0 <= i < |operations| ==> operations[i].SetFallback?) ==> m != null && m.state == Handshake
  {
    m := new ConnectionStateMachine(stream);
    for i := 0 to |operations|
      invariant m != null && fresh(m) && m.Reachable() && m.stream == stream && m.entry == old(stream.pos)
      invariant (forall j :: 0 <= j < i ==> operations[j].SetFallback?) ==> m.state == Handshake
    {
      match operations[i] {
        case SetFallback(address) => m.SetFallback(address);
        case ToAuthenticating(attempt) =>
          var r := m.TransitionToAuthenticating(attempt);
          if r.Err? {
            return null;
          }
      }
    }
  }
}
