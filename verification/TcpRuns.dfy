/** Every interleaving of the connection's goroutines over a network that loses, repeats and
    reorders segments. An event is one critical section or one channel operation; a run is a
    finite sequence of events, each enabled where it happens. */
module TcpRuns {
  import opened Wrappers
  import opened Word32
  import opened Tcp
  import opened TcpInvariants

  const CHANNEL_CAPACITY := 32

  datatype Phase = Handshaking | Established | Aborted

  /** A Read that found nothing to return: the room in its buffer, and whether it has been woken since. */
  datatype Reader = Reader(room: nat, awake: bool)

  /** `pumpHold` and `recvHold` are segments that a goroutine has received and not yet passed on;
      `results` and `accepted` are the answers of all Read and Write calls so far. */
  datatype World = World(phase: Phase, conn: Conn, pumpHold: Option<Inbound>, pumpDone: bool,
                         packets: seq<Inbound>, recvHold: Option<Inbound>, canceled: bool,
                         readers: map<nat, Reader>, results: seq<ReadResult>, accepted: Bytes)

  datatype Event =
    | PumpReceives(seg: Inbound)            // the raw socket yields a segment of this connection
    | PumpEnqueues                          // and the channel has room for it
    | PumpDrops                             // or the context is cancelled first
    | PumpReset                             // the raw socket yields an RST
    | PumpFails(code: int)                  // the raw socket fails on a live context
    | PumpStops                             // the raw socket fails on a cancelled context
    | WaitSynAck(ok: bool)                  // waitSYNACK receives; `ok`: the ACK goes out
    | GiveUp                                // waitSYNACK sees the channel closed or its context done
    | RecvReceives                          // recvLoop takes a segment from the channel
    | RecvHandles(ok1: bool, ok2: bool)     // and handles it
    | ReadCalled(id: nat, room: nat)        // Read up to its answer or its first wait
    | ReadResumes(id: nat)                  // a woken Read tests its condition again
    | ReadExpires(id: nat)                  // a woken Read sees its deadline passed
    | ReadTooLate                           // Read called with the deadline already passed
    | Tick                                  // a deadline timer or setter broadcasts
    | WriteCalled(p: Bytes, failAt: int)
    | CloseCalled(ok: bool)
    | CloseCancels                          // Close, after its critical section

  function Start(peer: Peer, useTS: bool): World {
    World(Handshaking, Fresh(peer.iss, useTS), None, false, [], None, false, map[], [], [])
  }

  ghost predicate Enabled(peer: Peer, w: World, e: Event) {
    match e
    case PumpReceives(seg) => !w.pumpDone && w.pumpHold.None? && Authentic(peer, seg)
    case PumpEnqueues => w.pumpHold.Some? && |w.packets| < CHANNEL_CAPACITY
    case PumpDrops => w.pumpHold.Some? && w.canceled
    case PumpReset => !w.pumpDone && w.pumpHold.None?
    case PumpFails(_) => !w.pumpDone && w.pumpHold.None? && !w.canceled
    case PumpStops => !w.pumpDone && w.pumpHold.None? && w.canceled
    case WaitSynAck(_) => w.phase.Handshaking? && w.packets != []
    case GiveUp => w.phase.Handshaking?
    case RecvReceives => w.phase.Established? && w.recvHold.None? && w.packets != []
    case RecvHandles(_, _) => w.phase.Established? && w.recvHold.Some?
    case ReadCalled(id, _) => w.phase.Established? && id !in w.readers
    case ReadResumes(id) => w.phase.Established? && id in w.readers && w.readers[id].awake
    case ReadExpires(id) => w.phase.Established? && id in w.readers && w.readers[id].awake
    case ReadTooLate => w.phase.Established? && MustWait(w.conn)
    case Tick => w.phase.Established?
    case WriteCalled(_, _) => w.phase.Established?
    case CloseCalled(_) => w.phase.Established?
    case CloseCancels => w.phase.Established? && w.conn.closed
  }

  function WakeAll(readers: map<nat, Reader>): map<nat, Reader> {
    map id | id in readers :: readers[id].(awake := true)
  }

  /** The effect of a critical section: its state, and its broadcast if it makes one. */
  function Commit(w: World, effect: Effect): World {
    w.(conn := effect.conn, readers := if effect.broadcast then WakeAll(w.readers) else w.readers)
  }

  /** Read holds the lock: it goes (back) to sleep or answers. */
  function TryRead(w: World, id: nat, room: nat): World {
    if MustWait(w.conn) then w.(readers := w.readers[id := Reader(room, false)])
    else w.(conn := AfterRead(w.conn, room), readers := w.readers - {id},
            results := w.results + [ReadAnswer(w.conn, room)])
  }

  ghost function Next(peer: Peer, w: World, e: Event): World
    requires Enabled(peer, w, e)
  {
    match e
    case PumpReceives(seg) => w.(pumpHold := Some(seg))
    case PumpEnqueues => w.(pumpHold := None, packets := w.packets + [w.pumpHold.value])
    case PumpDrops => w.(pumpHold := None, pumpDone := true)
    case PumpReset => Commit(w, Fail(w.conn, Reset)).(pumpDone := true)
    case PumpFails(code) => Commit(w, Fail(w.conn, IoFailure(code))).(pumpDone := true)
    case PumpStops => w.(pumpDone := true)
    case WaitSynAck(ok) =>
      var w1 := w.(packets := w.packets[1..]);
      if !IsSynAck(peer.iss, w.packets[0]) then w1
      else
        var conn := Establish(w.conn, peer.iss, w.packets[0], ok);
        if ok then w1.(phase := Established, conn := conn)
        else w1.(phase := Aborted, conn := conn, canceled := true)
    case GiveUp => w.(phase := Aborted, canceled := true)
    case RecvReceives => w.(recvHold := Some(w.packets[0]), packets := w.packets[1..])
    case RecvHandles(ok1, ok2) =>
      Commit(w, HandleSegment(w.conn, w.recvHold.value, ok1, ok2)).(recvHold := None)
    case ReadCalled(id, room) => TryRead(w, id, room)
    case ReadResumes(id) => TryRead(w, id, w.readers[id].room)
    case ReadExpires(id) => w.(readers := w.readers - {id}, results := w.results + [TimedOut])
    case ReadTooLate => w.(results := w.results + [TimedOut])
    case Tick => w.(readers := WakeAll(w.readers))
    case WriteCalled(p, failAt) =>
      var r := Write(w.conn, p, failAt);
      w.(conn := r.conn, accepted := w.accepted + p[..r.sent])
    case CloseCalled(ok) => Commit(w, Close(w.conn, ok))
    case CloseCancels => w.(canceled := true)
  }

  ghost predicate Runs(peer: Peer, w: World, es: seq<Event>)
    decreases |es|
  {
    es == [] || (Enabled(peer, w, es[0]) && Runs(peer, Next(peer, w, es[0]), es[1..]))
  }

  /** The world after the events of a run. */
  ghost function Final(peer: Peer, w: World, es: seq<Event>): World
    requires Runs(peer, w, es)
    decreases |es|
  {
    if es == [] then w else Final(peer, Next(peer, w, es[0]), es[1..])
  }

  /** The bytes that Read calls have returned, in the order in which they held the lock. */
  ghost function Returned(results: seq<ReadResult>): Bytes {
    if results == [] then []
    else
      var last := results[|results| - 1];
      Returned(results[..|results| - 1]) + if last.Data? then last.bytes else []
  }

  lemma ReturnedSnoc(results: seq<ReadResult>, r: ReadResult)
    ensures Returned(results + [r]) == if r.Data? then Returned(results) + r.bytes else Returned(results)
  {
    assert (results + [r])[..|results|] == results;
  }

  // ----- The invariants of a run -----

  ghost predicate Genuine(peer: Peer, seg: Option<Inbound>) {
    seg.Some? ==> Authentic(peer, seg.value)
  }

  /** Only genuine segments are in flight inside the client. */
  ghost predicate InFlight(peer: Peer, w: World) {
    && Genuine(peer, w.pumpHold) && Genuine(peer, w.recvHold)
    && forall i | 0 <= i < |w.packets| :: Authentic(peer, w.packets[i])
  }

  /** Before the handshake ends, the connection has sent its SYN and nothing else has happened to it. */
  ghost predicate Untouched(peer: Peer, w: World) {
    && w.conn == Fresh(peer.iss, w.conn.useTS).(err := w.conn.err)
    && w.readers == map[] && w.results == [] && w.accepted == []
  }

  /** A reader that sleeps without a pending wake-up has every reason to sleep. */
  ghost predicate NoLostWakeup(w: World) {
    forall id | id in w.readers && !w.readers[id].awake :: MustWait(w.conn)
  }

  /** What holds in every run, however long the peer's stream. */
  ghost predicate Sound(peer: Peer, w: World) {
    && InFlight(peer, w)
    && NoLostWakeup(w)
    && (w.phase.Handshaking? ==> Untouched(peer, w))
    && (w.phase.Established? ==> Sending(peer.iss, w.conn, w.accepted))
  }

  lemma WokenReadersSleepSoundly(w: World, effect: Effect)
    requires NoLostWakeup(w)
    requires effect.broadcast || (MustWait(w.conn) ==> MustWait(effect.conn))
    ensures NoLostWakeup(Commit(w, effect))
  {
  }

  /** handleSegment broadcasts whenever it ends a reader's reason to wait. */
  lemma HandleSegmentAnnounces(c: Conn, seg: Inbound, ok1: bool, ok2: bool)
    ensures var effect := HandleSegment(c, seg, ok1, ok2);
            effect.broadcast || (MustWait(c) ==> MustWait(effect.conn))
  {
    hide Wrap;
  }

  lemma {:induction false} WriteChunksLeavesReaders(c: Conn, p: Bytes, failAt: int)
    ensures var c' := WriteChunks(c, p, failAt).conn;
            c'.(log := [], sndNxt := 0) == c.(log := [], sndNxt := 0)
    decreases |p|
  {
    hide Wrap;
    if p != [] && failAt != 0 {
      var n := if EffectiveMSS(c) < |p| then EffectiveMSS(c) else |p|;
      WriteChunksLeavesReaders(Send(c, true, false, p[..n], true).(sndNxt := Wrap(c.sndNxt + n)), p[n..], failAt - 1);
    }
  }

  lemma EventKeepsWakeups(peer: Peer, w: World, e: Event)
    requires Enabled(peer, w, e) && Sound(peer, w)
    ensures NoLostWakeup(Next(peer, w, e))
  {
    hide Wrap, Sending, Authentic, HandleSegment, Establish;
    match e {
      case RecvHandles(ok1, ok2) =>
        HandleSegmentAnnounces(w.conn, w.recvHold.value, ok1, ok2);
        WokenReadersSleepSoundly(w, HandleSegment(w.conn, w.recvHold.value, ok1, ok2));
      case WriteCalled(p, failAt) =>
        WriteChunksLeavesReaders(w.conn, p, failAt);
      case _ =>
    }
  }

  lemma EventKeepsInFlight(peer: Peer, w: World, e: Event)
    requires Enabled(peer, w, e) && InFlight(peer, w)
    ensures InFlight(peer, Next(peer, w, e))
  {
    hide Wrap, Authentic, HandleSegment, Establish, WriteChunks;
  }

  lemma EventKeepsSending(peer: Peer, w: World, e: Event)
    requires Enabled(peer, w, e) && w.phase.Established? && Sending(peer.iss, w.conn, w.accepted)
    ensures Sending(peer.iss, Next(peer, w, e).conn, Next(peer, w, e).accepted)
  {
    hide Wrap, Authentic, HandleSegment, Establish, Sent, Tiled, WriteChunks;
    match e {
      case RecvHandles(ok1, ok2) =>
        HandleSegmentKeepsSending(peer.iss, w.conn, w.recvHold.value, ok1, ok2, w.accepted);
      case WriteCalled(p, failAt) =>
        assert w.accepted + p[..0] == w.accepted;
        if w.conn.err.None? && !w.conn.closed {
          WriteChunksKeepsSending(peer.iss, w.conn, p, failAt, w.accepted);
        }
      case CloseCalled(ok) =>
        CloseKeepsSending(peer.iss, w.conn, ok, w.accepted);
      case _ =>
    }
  }

  lemma HeadIsGenuine(peer: Peer, w: World)
    requires InFlight(peer, w)
    ensures w.packets != [] ==> Authentic(peer, w.packets[0])
    ensures w.recvHold.Some? ==> Authentic(peer, w.recvHold.value)
  {
  }

  lemma HandshakeEventKeepsSound(peer: Peer, w: World, e: Event)
    requires Enabled(peer, w, e) && w.phase.Handshaking? && Sound(peer, w)
    ensures var w' := Next(peer, w, e);
            && (w'.phase.Handshaking? ==> Untouched(peer, w'))
            && (w'.phase.Established? ==> Sending(peer.iss, w'.conn, w'.accepted))
  {
    hide Wrap, Authentic, HandleSegment, Establish, Sending, WriteChunks, InFlight, NoLostWakeup;
    if e.WaitSynAck? {
      HeadIsGenuine(peer, w);
      if IsSynAck(peer.iss, w.packets[0]) {
        EstablishInitialises(peer, w.conn.useTS, w.conn.err, 0, w.packets[0], e.ok);
        assert w.conn == Fresh(peer.iss, w.conn.useTS).(err := w.conn.err, tsEcho := 0);
      }
    }
  }

  lemma EventKeepsSound(peer: Peer, w: World, e: Event)
    requires Enabled(peer, w, e) && Sound(peer, w)
    ensures Sound(peer, Next(peer, w, e))
  {
    hide Wrap, Authentic, HandleSegment, Establish, Sending, WriteChunks, InFlight, NoLostWakeup, Untouched;
    EventKeepsWakeups(peer, w, e);
    EventKeepsInFlight(peer, w, e);
    if w.phase.Handshaking? {
      HandshakeEventKeepsSound(peer, w, e);
    } else if w.phase.Established? {
      EventKeepsSending(peer, w, e);
    }
  }

  // ----- What holds while the stream fits the sequence space -----

  /** Reads answer honestly: an error is the one stored, and an end of file on a connection that is not
      closed locally came after the whole stream. */
  ghost predicate AnswersHonestly(peer: Peer, w: World) {
    && (forall i | 0 <= i < |w.results| && w.results[i].Failed? :: w.conn.err == Some(w.results[i].err))
    && (forall i | 0 <= i < |w.results| && w.results[i].Eof? && !w.conn.closed ::
          w.conn.gotFIN && w.conn.readBuf == [] && Returned(w.results[..i]) == peer.stream)
  }

  ghost predicate Delivering(peer: Peer, w: World) {
    w.phase.Established? ==> Acknowledging(peer, w.conn, Returned(w.results)) && AnswersHonestly(peer, w)
  }

  lemma EventKeepsAcks(peer: Peer, w: World, e: Event)
    requires Enabled(peer, w, e) && w.phase.Established? && Fits(peer) && InFlight(peer, w)
    requires Acknowledging(peer, w.conn, Returned(w.results))
    ensures Acknowledging(peer, Next(peer, w, e).conn, Returned(Next(peer, w, e).results))
  {
    hide Wrap, Authentic, HandleSegment, Establish, WriteChunks, AcksOrdered, Returned;
    var returned := Returned(w.results);
    match e {
      case RecvHandles(ok1, ok2) =>
        HeadIsGenuine(peer, w);
        HandleSegmentKeepsAcks(peer, w.conn, w.recvHold.value, ok1, ok2, returned);
      case ReadCalled(id, room) =>
        ReadKeepsAcks(peer, w.conn, room, returned);
        ReturnedSnoc(w.results, ReadAnswer(w.conn, room));
      case ReadResumes(id) =>
        ReadKeepsAcks(peer, w.conn, w.readers[id].room, returned);
        ReturnedSnoc(w.results, ReadAnswer(w.conn, w.readers[id].room));
      case ReadExpires(id) => ReturnedSnoc(w.results, TimedOut);
      case ReadTooLate => ReturnedSnoc(w.results, TimedOut);
      case WriteCalled(p, failAt) =>
        WriteChunksKeepsAcks(peer, w.conn, p, failAt, returned);
      case CloseCalled(ok) =>
        CloseKeepsAcks(peer, w.conn, ok, returned);
      case _ =>
    }
  }

  /** One more answer, `r`, to a Read on connection `c`, which leaves the connection in state `c'`. */
  lemma AnswerIsHonest(peer: Peer, w: World, r: ReadResult, w': World)
    requires AnswersHonestly(peer, w) && Receiving(peer, w.conn, Returned(w.results))
    requires w'.results == w.results + [r] && w'.conn.(readBuf := w.conn.readBuf) == w.conn
    requires w.conn.readBuf == [] ==> w'.conn.readBuf == []
    requires r.Failed? ==> w.conn.err == Some(r.err)
    requires r.Eof? && !w.conn.closed ==> w.conn.gotFIN && w.conn.readBuf == []
    ensures AnswersHonestly(peer, w')
  {
    forall i | 0 <= i < |w'.results| && w'.results[i].Eof? && !w'.conn.closed
      ensures w'.conn.gotFIN && w'.conn.readBuf == [] && Returned(w'.results[..i]) == peer.stream
    {
      if i < |w.results| {
        assert w'.results[..i] == w.results[..i] && w'.results[i] == w.results[i];
      } else {
        assert w'.results[..i] == w.results;
        assert Returned(w.results) + [] == Returned(w.results);
      }
    }
  }

  lemma TryReadIsHonest(peer: Peer, w: World, id: nat, room: nat)
    requires AnswersHonestly(peer, w) && Receiving(peer, w.conn, Returned(w.results))
    ensures AnswersHonestly(peer, TryRead(w, id, room))
  {
    if !MustWait(w.conn) {
      AnswerIsHonest(peer, w, ReadAnswer(w.conn, room), TryRead(w, id, room));
    }
  }

  lemma SegmentKeepsErrorAndClose(c: Conn, seg: Inbound, ok1: bool, ok2: bool)
    ensures var c' := HandleSegment(c, seg, ok1, ok2).conn;
            c'.err == c.err && c'.closed == c.closed && (c.closed ==> c' == c)
  {
    hide Wrap;
  }

  lemma HandleSegmentKeepsAnswers(peer: Peer, c: Conn, seg: Inbound, ok1: bool, ok2: bool, returned: Bytes)
    requires Fits(peer) && Authentic(peer, seg) && Receiving(peer, c, returned)
    ensures var c' := HandleSegment(c, seg, ok1, ok2).conn;
            c'.err == c.err && c'.closed == c.closed && (c.gotFIN ==> c'.gotFIN && c'.readBuf == c.readBuf)
  {
    if c.gotFIN {
      NothingAfterFin(peer, c, seg, ok1, ok2, returned);
    }
    SegmentKeepsErrorAndClose(c, seg, ok1, ok2);
    hide Wrap, Authentic, Receiving;
  }

  lemma EventKeepsHonesty(peer: Peer, w: World, e: Event)
    requires Enabled(peer, w, e) && w.phase.Established? && Fits(peer) && InFlight(peer, w)
    requires Receiving(peer, w.conn, Returned(w.results)) && AnswersHonestly(peer, w)
    ensures AnswersHonestly(peer, Next(peer, w, e))
  {
    hide Wrap, Authentic, Establish, WriteChunks, Receiving, Returned;
    match e {
      case RecvHandles(ok1, ok2) =>
        HeadIsGenuine(peer, w);
        HandleSegmentKeepsAnswers(peer, w.conn, w.recvHold.value, ok1, ok2, Returned(w.results));
      case ReadCalled(id, room) => TryReadIsHonest(peer, w, id, room);
      case ReadResumes(id) => TryReadIsHonest(peer, w, id, w.readers[id].room);
      case ReadExpires(id) => AnswerIsHonest(peer, w, TimedOut, Next(peer, w, e));
      case ReadTooLate => AnswerIsHonest(peer, w, TimedOut, Next(peer, w, e));
      case WriteCalled(p, failAt) => WriteChunksLeavesReaders(w.conn, p, failAt);
      case _ =>
    }
  }

  lemma HandshakeDelivers(peer: Peer, w: World, e: Event)
    requires Enabled(peer, w, e) && w.phase.Handshaking? && Fits(peer) && Sound(peer, w)
    ensures Delivering(peer, Next(peer, w, e))
  {
    hide Wrap, Authentic, HandleSegment, Establish, WriteChunks, Acknowledging, InFlight, NoLostWakeup, Sending;
    if e.WaitSynAck? && IsSynAck(peer.iss, w.packets[0]) {
      HeadIsGenuine(peer, w);
      EstablishInitialises(peer, w.conn.useTS, w.conn.err, 0, w.packets[0], e.ok);
      assert w.conn == Fresh(peer.iss, w.conn.useTS).(err := w.conn.err, tsEcho := 0);
    }
  }

  lemma EventKeepsDelivering(peer: Peer, w: World, e: Event)
    requires Enabled(peer, w, e) && Fits(peer) && Sound(peer, w) && Delivering(peer, w)
    ensures Delivering(peer, Next(peer, w, e))
  {
    if w.phase.Established? {
      EventKeepsAcks(peer, w, e);
      EventKeepsHonesty(peer, w, e);
    } else if w.phase.Handshaking? {
      HandshakeDelivers(peer, w, e);
    }
    hide Wrap, Authentic, HandleSegment, Establish, WriteChunks, AnswersHonestly, InFlight, NoLostWakeup, AcksOrdered, Receiving;
  }

  lemma StartIsSound(peer: Peer, useTS: bool)
    ensures Sound(peer, Start(peer, useTS)) && Delivering(peer, Start(peer, useTS))
  {
  }

  lemma {:induction false} RunKeepsSound(peer: Peer, w: World, es: seq<Event>)
    requires Sound(peer, w) && Runs(peer, w, es)
    ensures Sound(peer, Final(peer, w, es))
    ensures Fits(peer) && Delivering(peer, w) ==> Delivering(peer, Final(peer, w, es))
    decreases |es|
  {
    hide Sound, Delivering, Enabled, Next;
    if es != [] {
      EventKeepsSound(peer, w, es[0]);
      if Fits(peer) && Delivering(peer, w) {
        EventKeepsDelivering(peer, w, es[0]);
      }
      RunKeepsSound(peer, Next(peer, w, es[0]), es[1..]);
    }
  }

  // ----- Main results -----

  /** In every run over a lossy, repeating, reordering network, what the reader has been given followed
      by what is buffered is a prefix of what the peer sent, rcvNxt stands right behind it, and a FIN is
      only taken when all of it is there. */
  lemma ReceivedIsPrefix(peer: Peer, useTS: bool, es: seq<Event>)
    requires Fits(peer) && Runs(peer, Start(peer, useTS), es)
    ensures var w := Final(peer, Start(peer, useTS), es);
            w.phase.Established? ==>
              var got := Returned(w.results) + w.conn.readBuf;
              && got <= peer.stream
              && w.conn.rcvNxt == Wrap(peer.irs + 1 + |got| + if w.conn.gotFIN then 1 else 0)
              && (w.conn.gotFIN ==> got == peer.stream)
  {
    StartIsSound(peer, useTS);
    RunKeepsSound(peer, Start(peer, useTS), es);
    hide Wrap, Runs, Final, Sound, Returned, Drained;
  }

  lemma SendingMeans(iss: uint32, c: Conn, accepted: Bytes)
    requires Sending(iss, c, accepted)
    ensures Sent(c.log) == accepted && c.log != [] && c.log[0] == Syn(iss)
    ensures forall i | 0 < i < |c.log| ::
              var s := c.log[i].segment;
              && !s.syn && s.seqNo == Wrap(iss + 1 + |Sent(c.log[..i])|)
              && |s.payload| <= EffectiveMSS(c) && (s.psh <==> s.payload != [])
              && (s.fin ==> i == |c.log| - 1 && s.payload == [] && c.closed)
  {
    hide Wrap, Sent, EffectiveMSS;
  }

  lemma SoundSends(peer: Peer, w: World)
    requires Sound(peer, w) && w.phase.Established?
    ensures var log := w.conn.log;
            && Sent(log) == w.accepted && log != [] && log[0] == Syn(peer.iss)
            && forall i | 0 < i < |log| ::
                 var s := log[i].segment;
                 && !s.syn && s.seqNo == Wrap(peer.iss + 1 + |Sent(log[..i])|)
                 && |s.payload| <= EffectiveMSS(w.conn) && (s.psh <==> s.payload != [])
                 && (s.fin ==> i == |log| - 1 && s.payload == [] && w.conn.closed)
  {
    hide Wrap, Sent, EffectiveMSS, InFlight, NoLostWakeup, Untouched, Sending;
    SendingMeans(peer.iss, w.conn, w.accepted);
  }

  /** In every run the SYN is the first packet and only that. The data segments that went out tile the client's stream: their payloads make up
      exactly the bytes reported by Write, each numbered right behind the data before it, none empty or
      longer than the MSS. At most one FIN is tried, behind all the data, and nothing is tried after it. */
  lemma SentTilesAccepted(peer: Peer, useTS: bool, es: seq<Event>)
    requires Runs(peer, Start(peer, useTS), es)
    ensures var w := Final(peer, Start(peer, useTS), es);
            w.phase.Established? ==>
              && Sent(w.conn.log) == w.accepted
              && w.conn.log != [] && w.conn.log[0] == Syn(peer.iss)
              && forall i | 0 < i < |w.conn.log| ::
                   var s := w.conn.log[i].segment;
                   && !s.syn && s.seqNo == Wrap(peer.iss + 1 + |Sent(w.conn.log[..i])|)
                   && |s.payload| <= EffectiveMSS(w.conn) && (s.psh <==> s.payload != [])
                   && (s.fin ==> i == |w.conn.log| - 1 && s.payload == [] && w.conn.closed)
  {
    StartIsSound(peer, useTS);
    RunKeepsSound(peer, Start(peer, useTS), es);
    hide Wrap, Runs, Final, Start, Sent, EffectiveMSS, Sound, Delivering, Fits;
    var w := Final(peer, Start(peer, useTS), es);
    if w.phase.Established? {
      SoundSends(peer, w);
    }
  }

  /** In every run acknowledgements never go back, and none covers a byte that is neither buffered nor
      returned, or a FIN that has not been taken. */
  lemma AcksAreHonest(peer: Peer, useTS: bool, es: seq<Event>)
    requires Fits(peer) && Runs(peer, Start(peer, useTS), es)
    ensures var w := Final(peer, Start(peer, useTS), es);
            var log := w.conn.log;
            w.phase.Established? ==>
              forall j | 0 <= j < |log| && log[j].segment.ack ::
                && AckOffset(peer, log[j].segment.ackNo)
                   <= |Returned(w.results)| + |w.conn.readBuf| + (if w.conn.gotFIN then 1 else 0)
                && forall i | 0 <= i < j && log[i].segment.ack ::
                     AckOffset(peer, log[i].segment.ackNo) <= AckOffset(peer, log[j].segment.ackNo)
  {
    StartIsSound(peer, useTS);
    RunKeepsSound(peer, Start(peer, useTS), es);
    hide Wrap, Runs, Final, Sound, Returned, Drained;
  }

  /** An event gives at most one answer, and one other than data or a deadline only on an empty buffer. */
  lemma EventAnswers(peer: Peer, w: World, e: Event)
    requires Enabled(peer, w, e)
    ensures var w' := Next(peer, w, e);
            w'.results == w.results
            || exists r :: w'.results == w.results + [r] && (r.Failed? || r.Eof? ==> w.conn.readBuf == [])
  {
    hide Wrap, WriteChunks, Establish, HandleSegment, Authentic;
    var w' := Next(peer, w, e);
    match e {
      case ReadCalled(_, room) =>
        assert w'.results == w.results || w'.results == w.results + [ReadAnswer(w.conn, room)];
      case ReadResumes(id) =>
        assert w'.results == w.results || w'.results == w.results + [ReadAnswer(w.conn, w.readers[id].room)];
      case ReadExpires(_) =>
        assert w'.results == w.results + [TimedOut];
      case ReadTooLate =>
        assert w'.results == w.results + [TimedOut];
      case _ =>
    }
  }

  /** After the first `k` events the answers were `results` and nothing was buffered. */
  ghost predicate Drained(peer: Peer, w: World, es: seq<Event>, results: seq<ReadResult>, k: nat) {
    k < |es| && Runs(peer, w, es[..k])
    && Final(peer, w, es[..k]).results == results && Final(peer, w, es[..k]).conn.readBuf == []
  }

  lemma {:induction false} AnswersStay(peer: Peer, w: World, es: seq<Event>)
    requires Runs(peer, w, es)
    ensures w.results <= Final(peer, w, es).results
    decreases |es|
  {
    hide Enabled, Next;
    if es != [] {
      EventAnswers(peer, w, es[0]);
      AnswersStay(peer, Next(peer, w, es[0]), es[1..]);
    }
  }

  lemma DrainedLater(peer: Peer, w: World, es: seq<Event>, results: seq<ReadResult>, k: nat)
    requires Runs(peer, w, es) && es != [] && Drained(peer, Next(peer, w, es[0]), es[1..], results, k)
    ensures Drained(peer, w, es, results, k + 1)
  {
    hide Enabled, Next;
    assert es[..k + 1][0] == es[0] && es[..k + 1][1..] == es[1..][..k];
  }

  /** In every run, from any world, an error or an end of file is answered at a moment when the buffer is
      empty: all bytes taken by then have been returned by the answers before it. */
  lemma {:induction false} ErrorsComeAfterTheBytes(peer: Peer, w: World, es: seq<Event>, i: nat)
    requires Runs(peer, w, es) && |w.results| <= i < |Final(peer, w, es).results|
    requires var r := Final(peer, w, es).results[i]; r.Failed? || r.Eof?
    ensures exists k :: Drained(peer, w, es, Final(peer, w, es).results[..i], k)
    decreases |es|
  {
    hide Enabled, Next;
    var w', answers := Next(peer, w, es[0]), Final(peer, w, es).results;
    EventAnswers(peer, w, es[0]);
    AnswersStay(peer, w', es[1..]);
    if i < |w'.results| {
      assert answers[i] == w'.results[i] && answers[..i] == w.results;
      assert es[..0] == [];
      assert Drained(peer, w, es, answers[..i], 0);
    } else {
      ErrorsComeAfterTheBytes(peer, w', es[1..], i);
      var k :| Drained(peer, w', es[1..], answers[..i], k);
      DrainedLater(peer, w, es, answers[..i], k);
    }
  }

  /** In every run an end of file on a connection that is not closed locally comes after the whole
      stream has been returned, and every error returned by Read is the one stored error. Either comes at a
      moment when nothing is left in the buffer. */
  lemma EofMeansComplete(peer: Peer, useTS: bool, es: seq<Event>, i: nat)
    requires Fits(peer) && Runs(peer, Start(peer, useTS), es)
    requires var w := Final(peer, Start(peer, useTS), es); w.phase.Established? && i < |w.results|
    ensures var w := Final(peer, Start(peer, useTS), es);
            && (w.results[i].Eof? && !w.conn.closed ==> Returned(w.results[..i]) == peer.stream)
            && (w.results[i].Failed? ==> w.conn.err == Some(w.results[i].err))
            && (w.results[i].Failed? || w.results[i].Eof? ==>
                  exists k :: Drained(peer, Start(peer, useTS), es, w.results[..i], k))
  {
    var r := Final(peer, Start(peer, useTS), es).results[i];
    if r.Failed? || r.Eof? {
      ErrorsComeAfterTheBytes(peer, Start(peer, useTS), es, i);
    }
    StartIsSound(peer, useTS);
    RunKeepsSound(peer, Start(peer, useTS), es);
    hide Wrap, Runs, Final, Sound, Returned;
  }

  /** In every run a parked reader that no wake-up is on its way to still has to wait: no segment, error
      or Close has been missed. */
  lemma ParkedReadersMustWait(peer: Peer, useTS: bool, es: seq<Event>, id: nat)
    requires Runs(peer, Start(peer, useTS), es)
    requires var w := Final(peer, Start(peer, useTS), es); id in w.readers && !w.readers[id].awake
    ensures var c := Final(peer, Start(peer, useTS), es).conn;
            c.readBuf == [] && c.err.None? && !c.gotFIN && !c.closed
  {
    StartIsSound(peer, useTS);
    RunKeepsSound(peer, Start(peer, useTS), es);
    hide Wrap, Runs, Final, InFlight, Sending;
  }

  lemma EventKeepsErrorAndClose(peer: Peer, w: World, e: Event)
    requires Enabled(peer, w, e) && w.phase.Established?
    ensures var w' := Next(peer, w, e);
            && w'.phase.Established?
            && (w.conn.err.Some? ==> w'.conn.err == w.conn.err)
            && (w.conn.closed ==> w'.conn.closed && w'.conn.log == w.conn.log && w'.accepted == w.accepted)
  {
    hide Wrap, WriteChunks, Establish, HandleSegment;
    match e {
      case RecvHandles(ok1, ok2) =>
        SegmentKeepsErrorAndClose(w.conn, w.recvHold.value, ok1, ok2);
      case WriteCalled(p, failAt) =>
        assert w.accepted + p[..0] == w.accepted;
        WriteChunksLeavesReaders(w.conn, p, failAt);
      case _ =>
    }
  }

  /** From any point of any run on: the first stored error is never replaced, and a connection that has
      been closed tries no further packet. */
  lemma {:induction false} ErrorAndCloseAreForever(peer: Peer, w: World, es: seq<Event>)
    requires Runs(peer, w, es) && w.phase.Established?
    ensures var w' := Final(peer, w, es);
            && w'.phase.Established?
            && (w.conn.err.Some? ==> w'.conn.err == w.conn.err)
            && (w.conn.closed ==> w'.conn.closed && w'.conn.log == w.conn.log && w'.accepted == w.accepted)
    decreases |es|
  {
    hide Enabled, Next;
    if es != [] {
      EventKeepsErrorAndClose(peer, w, es[0]);
      ErrorAndCloseAreForever(peer, Next(peer, w, es[0]), es[1..]);
    }
  }

  // ----- The length bound is exact -----

  lemma {:induction false} RunsCompose(peer: Peer, w: World, es1: seq<Event>, es2: seq<Event>)
    requires Runs(peer, w, es1) && Runs(peer, Final(peer, w, es1), es2)
    ensures Runs(peer, w, es1 + es2) && Final(peer, w, es1 + es2) == Final(peer, Final(peer, w, es1), es2)
    decreases |es1|
  {
    hide Enabled, Next;
    if es1 == [] {
      assert es1 + es2 == es2;
    } else {
      RunsCompose(peer, Next(peer, w, es1[0]), es1[1..], es2);
      assert (es1 + es2)[1..] == es1[1..] + es2;
    }
  }

  /** Nothing is in flight and nobody reads. */
  ghost predicate Quiet(w: World) {
    && w.phase.Established? && !w.pumpDone && w.pumpHold.None? && w.recvHold.None? && w.packets == []
    && w.readers == map[] && w.results == [] && !w.conn.closed && w.conn.err.None?
  }

  function Delivery(seg: Inbound): seq<Event> {
    [PumpReceives(seg), PumpEnqueues, RecvReceives, RecvHandles(true, true)]
  }

  lemma DeliveryRuns(peer: Peer, w: World, seg: Inbound)
    requires Quiet(w) && Authentic(peer, seg)
    ensures Runs(peer, w, Delivery(seg))
    ensures var w' := Final(peer, w, Delivery(seg));
            Quiet(w') && w'.conn == HandleSegment(w.conn, seg, true, true).conn
  {
    hide Authentic, HandleSegment, Wrap;
    var es := Delivery(seg);
    var w1 := Next(peer, w, es[0]);
    var w2 := Next(peer, w1, es[1]);
    var w3 := Next(peer, w2, es[2]);
    assert w3.recvHold == Some(seg) && w3.packets == [];
    var w4 := Next(peer, w3, es[3]);
    assert es[1..][0] == es[1] && es[1..][1..][0] == es[2] && es[1..][1..][1..][0] == es[3] && es[1..][1..][1..][1..] == [];
    assert Runs(peer, w4, []);
    assert Runs(peer, w3, es[1..][1..][1..]) && Final(peer, w3, es[1..][1..][1..]) == w4;
    assert Runs(peer, w2, es[1..][1..]) && Final(peer, w2, es[1..][1..]) == w4;
    assert Runs(peer, w1, es[1..]) && Final(peer, w1, es[1..]) == w4;
    SegmentKeepsErrorAndClose(w.conn, seg, true, true);
  }

  function SynAckSegment(peer: Peer): Inbound {
    Inbound(peer.irs, Wrap(peer.iss + 1), true, true, false, [], [])
  }

  function Handshake(peer: Peer): seq<Event> {
    [PumpReceives(SynAckSegment(peer)), PumpEnqueues, WaitSynAck(true)]
  }

  lemma HandshakeRuns(peer: Peer, useTS: bool)
    ensures var w0 := Start(peer, useTS);
            && Runs(peer, w0, Handshake(peer))
            && var w := Final(peer, w0, Handshake(peer));
               Quiet(w) && w.conn.readBuf == [] && !w.conn.gotFIN && w.conn.rcvNxt == Wrap(peer.irs + 1)
  {
    hide Wrap;
    var es := Handshake(peer);
    var w0 := Start(peer, useTS);
    var w1 := Next(peer, w0, es[0]);
    var w2 := Next(peer, w1, es[1]);
    var w3 := Next(peer, w2, es[2]);
    assert es[1..][0] == es[1] && es[1..][1..][0] == es[2] && es[1..][1..][1..] == [];
    assert Runs(peer, w3, []);
    assert Runs(peer, w2, es[1..][1..]) && Final(peer, w2, es[1..][1..]) == w3;
    assert Runs(peer, w1, es[1..]) && Final(peer, w1, es[1..]) == w3;
  }

  /** One byte of the stream, with the FIN if it is the last. */
  function ByteSegment(peer: Peer, off: nat): Inbound
    requires off < |peer.stream|
  {
    Inbound(Wrap(peer.irs + 1 + off), Wrap(peer.iss + 1), false, true, off + 1 == |peer.stream|, [], peer.stream[off..off + 1])
  }

  lemma ByteSegmentIsAuthentic(peer: Peer, off: nat)
    requires off < |peer.stream|
    ensures Authentic(peer, ByteSegment(peer, off))
  {
    assert CutAt(peer, ByteSegment(peer, off), off);
  }

  /** A byte that arrives at rcvNxt is taken, whatever has been taken before. */
  lemma ByteIsTaken(peer: Peer, c: Conn, off: nat, at: nat)
    requires off < |peer.stream| && !c.closed && c.rcvNxt == Wrap(peer.irs + 1 + at)
    requires Wrap(peer.irs + 1 + off) == Wrap(peer.irs + 1 + at)
    ensures var c' := HandleSegment(c, ByteSegment(peer, off), true, true).conn;
            && c'.readBuf == c.readBuf + peer.stream[off..off + 1]
            && c'.gotFIN == (c.gotFIN || off + 1 == |peer.stream|)
            && c'.rcvNxt == Wrap(peer.irs + 1 + at + 1 + if off + 1 == |peer.stream| then 1 else 0)
  {
    WrapAdd(peer.irs + 1 + at, 1);
    WrapAdd(peer.irs + 1 + at + 1, 1);
    hide Wrap;
  }

  /** In-order delivery of the first `k` bytes is a run. */
  lemma {:induction false} DeliverInOrder(peer: Peer, useTS: bool, k: nat) returns (es: seq<Event>)
    requires k <= |peer.stream|
    ensures Runs(peer, Start(peer, useTS), es)
    ensures var w := Final(peer, Start(peer, useTS), es);
            && Quiet(w) && w.conn.readBuf == peer.stream[..k] && w.conn.gotFIN == (0 < k == |peer.stream|)
            && w.conn.rcvNxt == Wrap(peer.irs + 1 + k + if 0 < k == |peer.stream| then 1 else 0)
  {
    hide Enabled, Next, Wrap;
    var w0 := Start(peer, useTS);
    if k == 0 {
      HandshakeRuns(peer, useTS);
      es := Handshake(peer);
    } else {
      var before := DeliverInOrder(peer, useTS, k - 1);
      var w := Final(peer, w0, before);
      ByteSegmentIsAuthentic(peer, k - 1);
      DeliveryRuns(peer, w, ByteSegment(peer, k - 1));
      RunsCompose(peer, w0, before, Delivery(ByteSegment(peer, k - 1)));
      ByteIsTaken(peer, w.conn, k - 1, k - 1);
      assert peer.stream[..k - 1] + peer.stream[k - 1..k] == peer.stream[..k];
      es := before + Delivery(ByteSegment(peer, k - 1));
    }
  }

  /** When the stream and its FIN do not fit, the sequence number behind the FIN is that of an old byte,
      and a late copy of that byte is taken for new. */
  lemma LongStreamOverruns(peer: Peer, useTS: bool) returns (es: seq<Event>)
    requires !Fits(peer)
    ensures Runs(peer, Start(peer, useTS), es)
    ensures var w := Final(peer, Start(peer, useTS), es);
            w.phase.Established? && !(Returned(w.results) + w.conn.readBuf <= peer.stream)
  {
    var n := |peer.stream|;
    var repeated := n + 1 - TWO_TO_32;
    var all := DeliverInOrder(peer, useTS, n);
    var w := Final(peer, Start(peer, useTS), all);
    ByteSegmentIsAuthentic(peer, repeated);
    DeliveryRuns(peer, w, ByteSegment(peer, repeated));
    RunsCompose(peer, Start(peer, useTS), all, Delivery(ByteSegment(peer, repeated)));
    WrapPeriodic(peer.irs + 1 + repeated, 1);
    assert w.conn.rcvNxt == Wrap(peer.irs + 1 + (n + 1));
    ByteIsTaken(peer, w.conn, repeated, n + 1);
    es := all + Delivery(ByteSegment(peer, repeated));
  }

  /** The received bytes are a prefix of the peer's stream in every run if and only if the stream and
      its FIN take fewer than 2^32 sequence numbers. */
  lemma PrefixExactlyWhenStreamFits(peer: Peer, useTS: bool)
    ensures (forall es | Runs(peer, Start(peer, useTS), es) ::
               var w := Final(peer, Start(peer, useTS), es);
               w.phase.Established? ==> Returned(w.results) + w.conn.readBuf <= peer.stream)
            <==> |peer.stream| + 1 < TWO_TO_32
  {
    if Fits(peer) {
      forall es | Runs(peer, Start(peer, useTS), es)
        ensures var w := Final(peer, Start(peer, useTS), es);
                w.phase.Established? ==> Returned(w.results) + w.conn.readBuf <= peer.stream
      {
        ReceivedIsPrefix(peer, useTS, es);
      }
    } else {
      var es := LongStreamOverruns(peer, useTS);
    }
  }

  lemma FinIsTaken(peer: Peer, c: Conn)
    requires peer.stream == [] && !c.closed && c.rcvNxt == Wrap(peer.irs + 1)
    ensures var fin := Inbound(c.rcvNxt, 0, false, true, true, [], []);
            Authentic(peer, fin)
            && var c' := HandleSegment(c, fin, true, true).conn; c'.readBuf == c.readBuf && c'.gotFIN
  {
    assert CutAt(peer, Inbound(c.rcvNxt, 0, false, true, true, [], []), 0);
    hide Wrap;
  }

  /** In-order delivery brings the whole stream and its end, however long it is. */
  lemma WholeStreamCanArrive(peer: Peer, useTS: bool) returns (es: seq<Event>)
    ensures Runs(peer, Start(peer, useTS), es)
    ensures var w := Final(peer, Start(peer, useTS), es);
            Quiet(w) && w.conn.readBuf == peer.stream && w.conn.gotFIN
  {
    hide Enabled, Next, Wrap, Authentic, HandleSegment;
    es := DeliverInOrder(peer, useTS, |peer.stream|);
    if peer.stream == [] {
      var w := Final(peer, Start(peer, useTS), es);
      var fin := Inbound(w.conn.rcvNxt, 0, false, true, true, [], []);
      FinIsTaken(peer, w.conn);
      DeliveryRuns(peer, w, fin);
      RunsCompose(peer, Start(peer, useTS), es, Delivery(fin));
      es := es + Delivery(fin);
    }
  }

  function ReadAll(size: nat): seq<Event> {
    [ReadCalled(0, size), ReadCalled(0, 0)]
  }

  function AnswersTo(bytes: Bytes): seq<ReadResult> {
    [if bytes == [] then Eof else Data(bytes), Eof]
  }

  /** A connection that holds bytes and the FIN answers one Read with the bytes and the next with the end of file. */
  lemma BytesThenEnd(peer: Peer, w: World)
    requires Quiet(w) && w.conn.gotFIN
    ensures Runs(peer, w, ReadAll(|w.conn.readBuf|))
    ensures Final(peer, w, ReadAll(|w.conn.readBuf|)).results == AnswersTo(w.conn.readBuf)
  {
    hide Wrap, HandleSegment, Authentic;
    var bytes := w.conn.readBuf;
    var es := ReadAll(|bytes|);
    var w1 := Next(peer, w, es[0]);
    assert bytes[..|bytes|] == bytes && bytes[|bytes|..] == [];
    assert ReadAnswer(w.conn, |bytes|) == if bytes == [] then Eof else Data(bytes);
    assert w1.results == [if bytes == [] then Eof else Data(bytes)] && w1.conn.readBuf == [] && w1.conn.gotFIN;
    assert w1.readers == map[] && w1.phase == w.phase;
    var w2 := Next(peer, w1, es[1]);
    assert es[1..][0] == es[1] && es[1..][1..] == [];
    assert Runs(peer, w2, []);
    assert Runs(peer, w1, es[1..]) && Final(peer, w1, es[1..]) == w2;
  }

  lemma AnswersMean(bytes: Bytes)
    ensures Returned(AnswersTo(bytes)) == bytes
  {
    var answers := AnswersTo(bytes);
    assert answers[..1] == [answers[0]] && [answers[0]][..0] == [];
    assert Returned([answers[0]]) == bytes;
  }

  /** For every stream there is a run in which Read returns all of it and then the end of file. */
  lemma WholeStreamIsRead(peer: Peer, useTS: bool) returns (es: seq<Event>)
    ensures Runs(peer, Start(peer, useTS), es)
    ensures var results := Final(peer, Start(peer, useTS), es).results;
            Returned(results) == peer.stream && results != [] && results[|results| - 1] == Eof
  {
    hide Enabled, Next, Quiet, ReadAll;
    var before := WholeStreamCanArrive(peer, useTS);
    BytesThenEnd(peer, Final(peer, Start(peer, useTS), before));
    RunsCompose(peer, Start(peer, useTS), before, ReadAll(|peer.stream|));
    es := before + ReadAll(|peer.stream|);
    AnswersMean(peer.stream);
  }
}
