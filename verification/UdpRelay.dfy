/**
 * src/proxy/udp.rs: the event loop of `handle_udp`.
 *
 * Each turn of the loop races a frame from the client against a datagram from the network, and the
 * loser's future is dropped. For `recv_from` that is harmless. For `read_udp_frame` it is not: the
 * bytes of a half-read frame go with it. The loop is modelled as a state machine whose events say
 * who won each race and how much of a frame the loser had read, and the method `HandleUdp` is the
 * loop itself.
 */
module UdpRelay {
  import opened Errors
  import opened Bytes
  import opened Streams
  import opened Addresses
  import opened Fallback
  import opened UdpFrames

  // ---------------------------------------------------------------- states and events

  /** What became of a frame that was read. */
  datatype Fate = Unresolved | SendFailed(target: SocketAddr) | Sent(target: SocketAddr)

  /** What the bytes taken from the client were used for; only a `Frame` has any effect outside. */
  datatype Segment =
    | Frame(frame: UdpFrame, fate: Fate)
    | Cancelled(bytes: seq<byte>)
    | Rejected(bytes: seq<byte>)

  datatype RelayState = RelayState(
    rest: seq<byte>,               // of the client's bytes, those still to be read
    log: seq<Segment>,             // what the others were used for
    sends: seq<Datagram>,          // what the socket has sent
    bytesSent: u64,                // the session's two counters
    bytesReceived: u64,
    received: seq<Datagram>,       // the datagrams passed on to the client
    toClient: seq<byte>,           // what has been written to the client
    ended: Option<Result<()>>)

  /** One turn of the loop: who won the race, and what the world answered. */
  datatype Event =
    | Client(dns: Option<SocketAddr>, sendOk: bool)
    | Remote(halfRead: nat, datagram: Datagram, fault: Option<nat>)
    | RemoteError(halfRead: nat)
    | Idle(halfRead: nat)

  function Start(all: seq<byte>): RelayState {
    RelayState(all, [], [], 0, 0, [], [], None)
  }

  /** A frame of which `s` has arrived is still being read. */
  predicate Pending(s: seq<byte>) {
    s == [] || ReadingFrame(s).result == Err(UnexpectedEof)
  }

  /** A loser's half-read frame is incomplete, and a datagram fits the receive buffer. */
  predicate Legal(st: RelayState, ev: Event) {
    (ev.Client? || (ev.halfRead <= |st.rest| && Pending(st.rest[..ev.halfRead])))
    && (ev.Remote? ==> |ev.datagram.payload| <= UDP_BUFFER_SIZE)
  }

  /** `resolve_target`, given what a lookup of a domain would yield. */
  function ResolveTarget(a: Address, dns: Option<SocketAddr>): Option<SocketAddr> {
    if a.Domain? then dns else Some(a.addr)
  }

  function FateOf(f: UdpFrame, dns: Option<SocketAddr>, sendOk: bool): Fate {
    match ResolveTarget(f.address, dns)
    case None => Unresolved
    case Some(target) => if sendOk then Sent(target) else SendFailed(target)
  }

  /** Dropping a `read_udp_frame` that had taken `k` bytes. */
  function Cancel(st: RelayState, k: nat): RelayState
    requires k <= |st.rest|
  {
    if k == 0 then st else st.(rest := Skip(st.rest, k), log := st.log + [Cancelled(st.rest[..k])])
  }

  function Next(st: RelayState, ev: Event): RelayState
    requires Legal(st, ev)
  {
    match ev
    case Client(dns, sendOk) => AfterClient(st, dns, sendOk)
    case Remote(k, d, fault) => AfterRemote(Cancel(st, k), d, fault)
    case RemoteError(k) => Cancel(st, k).(ended := Some(Err(ReceiveFailed)))
    case Idle(k) => Cancel(st, k).(ended := Some(Ok(())))
  }

  function AfterClient(st: RelayState, dns: Option<SocketAddr>, sendOk: bool): RelayState {
    var step := ReadingFrame(st.rest);
    match step.result
    case Ok(None) => st.(ended := Some(Ok(())))
    case Err(e) =>
      st.(rest := Skip(st.rest, step.used), log := st.log + [Rejected(st.rest[..step.used])], ended := Some(Err(e)))
    case Ok(Some(f)) =>
      var fate := FateOf(f, dns, sendOk);
      var st' := st.(rest := Skip(st.rest, step.used), log := st.log + [Frame(f, fate)]);
      if fate.Sent? then
        st'.(sends := st.sends + [Datagram(fate.target, f.payload)],
             bytesSent := (st.bytesSent + |f.payload|) % U64)
      else st'
  }

  function AfterRemote(st: RelayState, d: Datagram, fault: Option<nat>): RelayState
    requires |d.payload| <= UDP_BUFFER_SIZE
  {
    var st' := st.(toClient := st.toClient + Written(FrameBytes(FrameOf(d)), fault));
    if fault.Some? then st'.(ended := Some(Err(WriteFailed)))
    else st'.(received := st.received + [d], bytesReceived := (st.bytesReceived + |d.payload|) % U64)
  }

  /** The script of a run: every event legal where it happens. */
  predicate LegalRun(st: RelayState, evs: seq<Event>)
    decreases |evs|
  {
    evs == [] || st.ended.Some? || (Legal(st, evs[0]) && LegalRun(Next(st, evs[0]), evs[1..]))
  }

  function Run(st: RelayState, evs: seq<Event>): RelayState
    requires LegalRun(st, evs)
    decreases |evs|
  {
    if evs == [] || st.ended.Some? then st else Run(Next(st, evs[0]), evs[1..])
  }

  // ---------------------------------------------------------------- what a turn does

  /**
   * A frame from the client: it is taken whole, and if its address is an IP address, or a domain that
   * resolves, and the socket can send, exactly its payload goes to exactly that address and is
   * counted. Otherwise nothing is sent. The loop goes on either way.
   */
  lemma ClientFrameIsSent(st: RelayState, f: UdpFrame, t: seq<byte>, dns: Option<SocketAddr>, sendOk: bool)
    requires Canonical(f) && st.rest == FrameBytes(f) + t && st.ended.None?
    ensures var st' := Next(st, Client(dns, sendOk));
            && st'.rest == t && st'.ended.None?
            && st'.toClient == st.toClient && st'.received == st.received && st'.bytesReceived == st.bytesReceived
            && if sendOk && (f.address.Domain? ==> dns.Some?) then
                 var target := if f.address.Domain? then dns.value else f.address.addr;
                 && st'.sends == st.sends + [Datagram(target, f.payload)]
                 && st'.bytesSent == (st.bytesSent + |f.payload|) % 0x1_0000_0000_0000_0000
               else st'.sends == st.sends && st'.bytesSent == st.bytesSent
  {
    hide ReadingFrame, FrameBytes, FrameEncoding;
    FrameOfEncoding(f, t);
    assert Skip(st.rest, |FrameBytes(f)|) == t;
  }

  /** The client stream at its end ends the loop well; bytes that are no frame end it with their error. Neither sends anything. */
  lemma ClientEndsLoop(st: RelayState, dns: Option<SocketAddr>, sendOk: bool)
    requires st.ended.None? && (st.rest == [] || ReadingFrame(st.rest).result.Err?)
    ensures var st' := Next(st, Client(dns, sendOk));
            && st'.ended == Some(if st.rest == [] then Ok(()) else Err(ReadingFrame(st.rest).result.error))
            && st'.sends == st.sends && st'.bytesSent == st.bytesSent
            && st'.toClient == st.toClient && st'.received == st.received && st'.bytesReceived == st.bytesReceived
  {
    hide ReadingTarget, ReadingTail;
  }

  /**
   * A datagram from the network: the client is written one frame that reports it, and it is counted;
   * if the write fails, it may be cut short, and the loop ends. Nothing is sent to the network.
   */
  lemma DatagramIsDelivered(st: RelayState, k: nat, d: Datagram, fault: Option<nat>)
    requires st.ended.None? && Legal(st, Remote(k, d, fault))
    ensures var st' := Next(st, Remote(k, d, fault));
            && st'.sends == st.sends && st'.bytesSent == st.bytesSent
            && st.toClient <= st'.toClient
            && if fault.None? then
                 var step := ReadingFrame(st'.toClient[|st.toClient|..]);
                 && st'.ended.None? && st'.received == st.received + [d]
                 && st'.bytesReceived == (st.bytesReceived + |d.payload|) % 0x1_0000_0000_0000_0000
                 && step.result.Ok? && step.result.value.Some? && Reports(step.result.value.value, d)
                 && step.used == |st'.toClient| - |st.toClient|
               else st'.ended == Some(Err(WriteFailed)) && st'.received == st.received && st'.bytesReceived == st.bytesReceived
  {
    hide ReadingFrame, FrameBytes, FrameEncoding, Reports, Skip, Pending;
    BuiltFrameReads(d, []);
    var bs := FrameBytes(FrameOf(d));
    assert bs + [] == bs;
    if fault.None? {
      assert (st.toClient + bs)[|st.toClient|..] == bs;
    }
  }

  /** With nothing half read every race can go either way. */
  lemma EveryRaceIsOpen(st: RelayState, ev: Event)
    requires !ev.Client? ==> ev.halfRead == 0
    requires ev.Remote? ==> |ev.datagram.payload| <= 65535
    ensures Legal(st, ev)
  {
  }

  /** A failed receive ends the loop with its error and a timeout ends it well; neither moves anything else. */
  lemma OtherEventsEndLoop(st: RelayState, k: nat)
    requires Legal(st, Idle(k))
    ensures Legal(st, RemoteError(k))
    ensures Next(st, Idle(k)).ended == Some(Ok(())) && Next(st, RemoteError(k)).ended == Some(Err(ReceiveFailed))
    ensures forall ev :: ev == Idle(k) || ev == RemoteError(k) ==>
              var st' := Next(st, ev);
              && st'.sends == st.sends && st'.bytesSent == st.bytesSent
              && st'.toClient == st.toClient && st'.received == st.received && st'.bytesReceived == st.bytesReceived
  {
  }

  // ---------------------------------------------------------------- what every run keeps

  function SegmentBytes(seg: Segment): seq<byte> {
    match seg
    case Frame(f, _) => FrameBytes(f)
    case Cancelled(bytes) => bytes
    case Rejected(bytes) => bytes
  }

  function LogBytes(log: seq<Segment>): seq<byte> {
    if log == [] then [] else LogBytes(log[..|log| - 1]) + SegmentBytes(log[|log| - 1])
  }

  /** The frames handed to `resolve_target`, in order. */
  function HandedFrames(log: seq<Segment>): seq<UdpFrame> {
    if log == [] then []
    else
      var last := log[|log| - 1];
      HandedFrames(log[..|log| - 1]) + if last.Frame? then [last.frame] else []
  }

  /** Of those, the ones that resolved and could be sent. */
  function SentFrames(log: seq<Segment>): seq<Datagram> {
    if log == [] then []
    else
      var last := log[|log| - 1];
      SentFrames(log[..|log| - 1])
      + if last.Frame? && last.fate.Sent? then [Datagram(last.fate.target, last.frame.payload)] else []
  }

  /** How many of the client's bytes had no effect. */
  function LostBytes(log: seq<Segment>): nat {
    if log == [] then 0
    else
      var last := log[|log| - 1];
      LostBytes(log[..|log| - 1]) + if last.Frame? then 0 else |SegmentBytes(last)|
  }

  function PayloadTotal(ds: seq<Datagram>): nat {
    if ds == [] then 0 else PayloadTotal(ds[..|ds| - 1]) + |ds[|ds| - 1].payload|
  }

  function FramesOf(ds: seq<Datagram>): seq<UdpFrame> {
    seq(|ds|, i requires 0 <= i < |ds| => FrameOf(ds[i]))
  }

  predicate Canonical(f: UdpFrame) {
    Encodable(f) && OnWireFrame(f) == f
  }

  /** A frame for an IP address goes to that address and needs no lookup; only a domain can fail to resolve. */
  predicate FateFits(seg: Segment) {
    seg.Frame? && !seg.frame.address.Domain? ==> !seg.fate.Unresolved? && seg.fate.target == seg.frame.address.addr
  }

  /** Conservation towards the network. */
  predicate ClientSide(all: seq<byte>, st: RelayState) {
    && LogBytes(st.log) + st.rest == all
    && (forall seg :: seg in st.log ==> FateFits(seg))
    && (forall f :: f in HandedFrames(st.log) ==> Canonical(f))
    && st.sends == SentFrames(st.log)
    && st.bytesSent == PayloadTotal(st.sends) % U64
  }

  /** Conservation towards the client; a failed write may leave part of one more frame. */
  predicate RemoteSide(st: RelayState) {
    && (forall f :: f in FramesOf(st.received) ==> Encodable(f))
    && FramesEncoding(FramesOf(st.received)) <= st.toClient
    && (st.ended != Some(Err(WriteFailed)) ==> st.toClient == FramesEncoding(FramesOf(st.received)))
    && st.bytesReceived == PayloadTotal(st.received) % U64
  }

  lemma LogSnoc(log: seq<Segment>, seg: Segment)
    ensures LogBytes(log + [seg]) == LogBytes(log) + SegmentBytes(seg)
    ensures HandedFrames(log + [seg]) == HandedFrames(log) + if seg.Frame? then [seg.frame] else []
    ensures SentFrames(log + [seg]) == SentFrames(log)
              + if seg.Frame? && seg.fate.Sent? then [Datagram(seg.fate.target, seg.frame.payload)] else []
    ensures LostBytes(log + [seg]) == LostBytes(log) + if seg.Frame? then 0 else |SegmentBytes(seg)|
  {
    assert (log + [seg])[..|log|] == log;
  }

  lemma PayloadSnoc(ds: seq<Datagram>, d: Datagram)
    ensures PayloadTotal(ds + [d]) == PayloadTotal(ds) + |d.payload|
    ensures FramesOf(ds + [d]) == FramesOf(ds) + [FrameOf(d)]
  {
    assert (ds + [d])[..|ds|] == ds;
  }

  lemma CancelKeeps(all: seq<byte>, st: RelayState, k: nat)
    requires ClientSide(all, st) && k <= |st.rest|
    ensures ClientSide(all, Cancel(st, k))
  {
    if k != 0 {
      LogSnoc(st.log, Cancelled(st.rest[..k]));
      Rejoin(LogBytes(st.log), st.rest, k);
    }
  }

  lemma OnlyFramesHaveFates(seg: Segment)
    requires !seg.Frame?
    ensures FateFits(seg)
  {
  }

  lemma FateOfFits(f: UdpFrame, dns: Option<SocketAddr>, sendOk: bool)
    ensures FateFits(Frame(f, FateOf(f, dns, sendOk)))
  {
  }

  lemma ClientEventKeeps(all: seq<byte>, st: RelayState, dns: Option<SocketAddr>, sendOk: bool)
    requires ClientSide(all, st)
    ensures ClientSide(all, AfterClient(st, dns, sendOk))
  {
    hide ReadingFrame, FrameEncoding, OnWireFrame, FrameBytes, FateOf, FateFits, Skip, LogBytes, HandedFrames, SentFrames, PayloadTotal;
    var step := ReadingFrame(st.rest);
    match step.result {
      case Ok(None) =>
      case Err(e) =>
        Rejoin(LogBytes(st.log), st.rest, step.used);
        LogSnoc(st.log, Rejected(st.rest[..step.used]));
        OnlyFramesHaveFates(Rejected(st.rest[..step.used]));
      case Ok(Some(f)) =>
        Rejoin(LogBytes(st.log), st.rest, step.used);
        FrameIsEncoding(st.rest);
        var fate := FateOf(f, dns, sendOk);
        LogSnoc(st.log, Frame(f, fate));
        FateOfFits(f, dns, sendOk);
        if fate.Sent? {
          PayloadSnoc(st.sends, Datagram(fate.target, f.payload));
          CountersAdd(PayloadTotal(st.sends), |f.payload|);
        }
    }
  }

  lemma Rejoin(front: seq<byte>, s: seq<byte>, n: nat)
    requires n <= |s|
    ensures (front + s[..n]) + Skip(s, n) == front + s
  {
  }

  lemma RemoteEventKeeps(st: RelayState, d: Datagram, fault: Option<nat>)
    requires RemoteSide(st) && st.ended.None? && |d.payload| <= UDP_BUFFER_SIZE
    ensures RemoteSide(AfterRemote(st, d, fault))
  {
    hide FrameBytes, FrameEncoding, PayloadTotal, FramesOf;
    PayloadSnoc(st.received, d);
    CountersAdd(PayloadTotal(st.received), |d.payload|);
    DatagramsFit(d);
    if fault.None? {
      var fs := FramesOf(st.received);
      forall f | f in fs + [FrameOf(d)] ensures Encodable(f) {}
      FramesEncodingSnoc(fs, FrameOf(d));
    }
  }

  /** `build_udp_frame` cannot fail on what `recv_from` delivers. */
  lemma DatagramsFit(d: Datagram)
    ensures Encodable(FrameOf(d)) <==> |d.payload| <= UDP_BUFFER_SIZE
  {
  }

  /** One turn of the loop keeps both sides conserved. */
  lemma NextKeeps(all: seq<byte>, st: RelayState, ev: Event)
    requires ClientSide(all, st) && RemoteSide(st) && st.ended.None? && Legal(st, ev)
    ensures ClientSide(all, Next(st, ev)) && RemoteSide(Next(st, ev))
  {
    hide LogBytes, HandedFrames, SentFrames, FramesEncoding, ReadingFrame, FrameEncoding, Skip;
    match ev {
      case Client(dns, sendOk) => ClientEventKeeps(all, st, dns, sendOk);
      case Remote(k, d, fault) =>
        CancelKeeps(all, st, k);
        RemoteEventKeeps(Cancel(st, k), d, fault);
      case RemoteError(k) => CancelKeeps(all, st, k);
      case Idle(k) => CancelKeeps(all, st, k);
    }
  }

  lemma {:induction false} RunKeeps(all: seq<byte>, st: RelayState, evs: seq<Event>)
    requires ClientSide(all, st) && RemoteSide(st) && LegalRun(st, evs)
    ensures ClientSide(all, Run(st, evs)) && RemoteSide(Run(st, evs))
    decreases |evs|
  {
    hide ClientSide, RemoteSide, Next, Legal;
    if evs != [] && st.ended.None? {
      NextKeeps(all, st, evs[0]);
      RunKeeps(all, Next(st, evs[0]), evs[1..]);
    }
  }

  // ---------------------------------------------------------------- whole runs, client to network

  lemma {:induction false} LogWithoutLoss(log: seq<Segment>)
    requires forall f :: f in HandedFrames(log) ==> Canonical(f)
    ensures |LogBytes(log)| == |FramesEncoding(HandedFrames(log))| + LostBytes(log)
    ensures LostBytes(log) == 0 ==> LogBytes(log) == FramesEncoding(HandedFrames(log))
  {
    hide FrameBytes, Canonical;
    if log != [] {
      var init, last := log[..|log| - 1], log[|log| - 1];
      assert forall f :: f in HandedFrames(init) ==> f in HandedFrames(log);
      LogWithoutLoss(init);
      if last.Frame? {
        assert last.frame in HandedFrames(log);
        FramesEncodingSnoc(HandedFrames(init), last.frame);
      } else {
        assert HandedFrames(log) == HandedFrames(init);
      }
    }
  }

  /** No turn of the run loses bytes: no read of a frame is dropped half-way or fails. */
  predicate Undisturbed(st: RelayState, evs: seq<Event>)
    requires LegalRun(st, evs)
    decreases |evs|
  {
    evs == [] || st.ended.Some?
    || ((if evs[0].Client? then ReadingFrame(st.rest).result.Ok? else evs[0].halfRead == 0)
        && Undisturbed(Next(st, evs[0]), evs[1..]))
  }

  lemma NextLoses(st: RelayState, ev: Event)
    requires Legal(st, ev)
    ensures var lost := LostBytes(Next(st, ev).log);
            && lost >= LostBytes(st.log)
            && (lost == LostBytes(st.log) <==> if ev.Client? then ReadingFrame(st.rest).result.Ok? else ev.halfRead == 0)
  {
    hide LostBytes, FrameBytes, LogBytes, HandedFrames, SentFrames, ReadingTarget, ReadingTail;
    if ev.Client? {
      var step := ReadingFrame(st.rest);
      match step.result {
        case Ok(None) =>
        case Err(e) => LogSnoc(st.log, Rejected(st.rest[..step.used]));
        case Ok(Some(f)) => LogSnoc(st.log, Frame(f, FateOf(f, ev.dns, ev.sendOk)));
      }
    } else {
      LogSnoc(st.log, Cancelled(st.rest[..ev.halfRead]));
    }
  }

  lemma {:induction false} RunLoses(st: RelayState, evs: seq<Event>)
    requires LegalRun(st, evs)
    ensures LostBytes(Run(st, evs).log) >= LostBytes(st.log)
    ensures LostBytes(Run(st, evs).log) == LostBytes(st.log) <==> Undisturbed(st, evs)
    decreases |evs|
  {
    hide Next, Legal, LostBytes, ReadingFrame;
    if evs != [] && st.ended.None? {
      NextLoses(st, evs[0]);
      RunLoses(Next(st, evs[0]), evs[1..]);
    }
  }

  /**
   * Conservation over every run: the bytes taken from the client are the log's bytes in order, what
   * was sent is what the handed frames resolved to, and the frames handed on are exactly the
   * decoding of the bytes taken iff no read of a frame was dropped half-way or failed.
   */
  lemma RelayConserves(all: seq<byte>, evs: seq<Event>)
    requires LegalRun(Start(all), evs)
    ensures var st := Run(Start(all), evs);
            && ClientSide(all, st)
            && (DecodeFrames(LogBytes(st.log)) == Decoded(HandedFrames(st.log), Ok(())) <==> Undisturbed(Start(all), evs))
  {
    hide Run, LegalRun, Undisturbed;
    var st := Run(Start(all), evs);
    StartIsConserved(all);
    RunKeeps(all, Start(all), evs);
    RunLoses(Start(all), evs);
    LogWithoutLoss(st.log);
    DecodeIffEncodings(LogBytes(st.log), HandedFrames(st.log));
  }

  /** The side condition: a remote event, an error or a timeout never finds a client frame half read. */
  predicate NothingHalfRead(evs: seq<Event>) {
    forall ev :: ev in evs && !ev.Client? ==> ev.halfRead == 0
  }

  /** The decoding of what a run was given, as far as the run has taken it. */
  function DecodedSoFar(st: RelayState): Decoded {
    if st.log != [] && st.log[|st.log| - 1].Rejected? && st.ended.Some?
    then Decoded(HandedFrames(st.log), st.ended.value)
    else
      var more := DecodeFrames(st.rest);
      Decoded(HandedFrames(st.log) + more.frames, more.end)
  }

  predicate NoneRejected(log: seq<Segment>) {
    forall seg :: seg in log ==> !seg.Rejected?
  }

  lemma ClientEventDecodes(st: RelayState, dns: Option<SocketAddr>, sendOk: bool)
    requires NoneRejected(st.log) && st.ended.None?
    ensures DecodedSoFar(AfterClient(st, dns, sendOk)) == DecodedSoFar(st)
    ensures AfterClient(st, dns, sendOk).ended.None? ==> NoneRejected(AfterClient(st, dns, sendOk).log)
  {
    hide ReadingFrame, HandedFrames, FateOf, DecodeFrames, Skip;
    DecodeStep(st.rest);
    var step := ReadingFrame(st.rest);
    if step.result.Err? {
      LogSnoc(st.log, Rejected(st.rest[..step.used]));
      assert HandedFrames(st.log) + [] == HandedFrames(st.log);
    } else if step.result.value.Some? {
      var f := step.result.value.value;
      LogSnoc(st.log, Frame(f, FateOf(f, dns, sendOk)));
      Reassociate(HandedFrames(st.log), [f], DecodeFrames(Skip(st.rest, step.used)).frames);
    }
  }

  lemma NextDecodes(st: RelayState, ev: Event)
    requires NoneRejected(st.log) && st.ended.None? && Legal(st, ev) && (!ev.Client? ==> ev.halfRead == 0)
    ensures DecodedSoFar(Next(st, ev)) == DecodedSoFar(st)
    ensures Next(st, ev).ended.None? ==> NoneRejected(Next(st, ev).log)
  {
    hide HandedFrames, DecodeFrames, FrameEncoding;
    match ev {
      case Client(dns, sendOk) => ClientEventDecodes(st, dns, sendOk);
      case _ =>
    }
  }

  /**
   * Under the side condition the loop decodes the client stream, in every interleaving: the frames
   * handed on so far followed by the decoding of what is left are the decoding of the whole stream,
   * and a run that ended on a malformed frame has handed on every frame before it.
   */
  lemma {:induction false} CleanRunDecodes(st: RelayState, evs: seq<Event>)
    requires LegalRun(st, evs) && NothingHalfRead(evs) && NoneRejected(st.log)
    ensures DecodedSoFar(Run(st, evs)) == DecodedSoFar(st)
    decreases |evs|
  {
    hide DecodedSoFar, Next, Legal;
    if evs != [] && st.ended.None? {
      assert evs[0] in evs;
      NextDecodes(st, evs[0]);
      var st' := Next(st, evs[0]);
      if st'.ended.None? {
        CleanRunDecodes(st', evs[1..]);
      }
    }
  }

  lemma CleanRunDecodesStream(all: seq<byte>, evs: seq<Event>)
    requires LegalRun(Start(all), evs) && NothingHalfRead(evs)
    ensures DecodedSoFar(Run(Start(all), evs)) == DecodeFrames(all)
  {
    hide Run, LegalRun, NothingHalfRead, DecodeFrames;
    CleanRunDecodes(Start(all), evs);
    assert [] + DecodeFrames(all).frames == DecodeFrames(all).frames;
  }

  lemma {:induction false} FramesFit(fs: seq<UdpFrame>, f: UdpFrame)
    requires f in fs
    ensures |FrameBytes(f)| <= |FramesEncoding(fs)|
  {
    hide FrameBytes;
    if f != fs[0] {
      FramesFit(fs[1..], f);
    }
  }

  /** A frame longer than the bytes that were not lost has not been handed on. */
  lemma TooLongToBeHanded(all: seq<byte>, st: RelayState, f: UdpFrame)
    requires ClientSide(all, st) && |all| < LostBytes(st.log) + |FrameBytes(f)|
    ensures f !in HandedFrames(st.log)
  {
    hide FrameBytes;
    LogWithoutLoss(st.log);
    if f in HandedFrames(st.log) {
      FramesFit(HandedFrames(st.log), f);
      assert false;
    }
  }

  /**
   * Why the side condition is needed: whatever the frame, a datagram can arrive when any number of
   * its bytes, but not all, have been read, and then the frame is never handed on, however the run
   * continues, although the stream is the encoding of just this frame.
   */
  lemma HalfReadFrameIsLost(f: UdpFrame, k: nat, d: Datagram, evs: seq<Event>)
    requires Canonical(f) && 0 < k < |FrameBytes(f)| && |d.payload| <= UDP_BUFFER_SIZE
    ensures DecodeFrames(FrameBytes(f)) == Decoded([f], Ok(()))
    ensures forall ev :: ev == Remote(k, d, None) || ev == RemoteError(k) || ev == Idle(k) ==> Legal(Start(FrameBytes(f)), ev)
    ensures LegalRun(Next(Start(FrameBytes(f)), Remote(k, d, None)), evs) ==>
              f !in HandedFrames(Run(Next(Start(FrameBytes(f)), Remote(k, d, None)), evs).log)
  {
    hide FrameBytes, FrameEncoding, DecodeFrames, ReadingFrame, Next, Legal, Run, LegalRun, LostBytes, HandedFrames, ClientSide;
    var bs := FrameBytes(f);
    DecodeOneFrame(f);
    BeginningIsPending(f, k);
    HalfRead(bs, k, d);
    var st1 := Next(Start(bs), Remote(k, d, None));
    if LegalRun(st1, evs) {
      RunKeeps(bs, st1, evs);
      RunLoses(st1, evs);
      TooLongToBeHanded(bs, Run(st1, evs), f);
    }
  }

  lemma HalfRead(bs: seq<byte>, k: nat, d: Datagram)
    requires 0 < k < |bs| && ReadingFrame(bs[..k]) == Eof(bs[..k]) && |d.payload| <= UDP_BUFFER_SIZE
    ensures forall ev :: ev == Remote(k, d, None) || ev == RemoteError(k) || ev == Idle(k) ==> Legal(Start(bs), ev)
    ensures var st := Next(Start(bs), Remote(k, d, None));
            ClientSide(bs, st) && RemoteSide(st) && LostBytes(st.log) == k
  {
    hide FrameBytes, FrameEncoding, ReadingFrame, Skip, LostBytes, LogBytes, HandedFrames, SentFrames, FramesEncoding;
    StartIsConserved(bs);
    NextKeeps(bs, Start(bs), Remote(k, d, None));
    LogSnoc([], Cancelled(bs[..k]));
    NothingLostYet();
  }

  lemma NothingLostYet()
    ensures LostBytes([]) == 0
  {
  }

  lemma StartIsConserved(all: seq<byte>)
    ensures ClientSide(all, Start(all)) && RemoteSide(Start(all))
  {
  }

  lemma DecodeOneFrame(f: UdpFrame)
    requires Canonical(f)
    ensures DecodeFrames(FrameBytes(f)) == Decoded([f], Ok(()))
  {
    hide FrameBytes, ReadingFrame;
    assert [f][1..] == [];
    assert FramesEncoding([f]) == FrameBytes(f) + [];
    DecodeIffEncodings(FrameBytes(f), [f]);
  }

  // ---------------------------------------------------------------- whole runs, network to client

  /**
   * In every interleaving the client is sent one frame for each datagram received, in order, which
   * decodes to its source (less flow and scope) and payload; the counter is their total length.
   */
  lemma ClientReceivesDatagrams(all: seq<byte>, evs: seq<Event>)
    requires LegalRun(Start(all), evs)
    ensures var st := Run(Start(all), evs);
            && st.bytesReceived == PayloadTotal(st.received) % U64
            && (st.ended != Some(Err(WriteFailed)) ==>
                  var decoded := DecodeFrames(st.toClient);
                  && decoded == Decoded(OnWireFrames(FramesOf(st.received)), Ok(()))
                  && |decoded.frames| == |st.received|
                  && forall i :: 0 <= i < |st.received| ==> Reports(decoded.frames[i], st.received[i]))
  {
    hide Run, LegalRun, FrameBytes, DecodeFrames;
    var st := Run(Start(all), evs);
    StartIsConserved(all);
    RunKeeps(all, Start(all), evs);
    if st.ended != Some(Err(WriteFailed)) {
      var fs := FramesOf(st.received);
      DecodeOfEncodings(fs, []);
      assert FramesEncoding(fs) + [] == st.toClient;
      DecodeStep([]);
    }
  }
}
