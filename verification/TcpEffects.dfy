/** What every event of the connection does, written out field by field: which packets it attempts, which
    bytes it moves, and what it answers. */
module TcpEffects {
  import opened Wrappers
  import opened Word32
  import opened Tcp
  import opened TcpInvariants
  import opened TcpRuns

  /** An acknowledgement and nothing else. */
  predicate PureAck(c: Conn, a: Attempt) {
    && a.segment.ack && !a.segment.syn && !a.segment.psh && !a.segment.fin && a.segment.payload == []
    && a.segment.seqNo == c.sndNxt
    && a.segment.echo == (if c.useTS then Some(c.tsEcho) else None)
  }

  // ----- A segment arrives -----

  /** On a closed connection nothing happens. */
  lemma ClosedIgnoresSegments(peer: Peer, w: World, ok1: bool, ok2: bool)
    requires Enabled(peer, w, RecvHandles(ok1, ok2)) && w.conn.closed
    ensures Next(peer, w, RecvHandles(ok1, ok2)) == w.(recvHold := None)
  {
    hide Wrap;
  }

  lemma NoteEchoLeaves(c: Conn, seg: Inbound)
    ensures NoteEcho(c, seg).(tsEcho := c.tsEcho) == c
  {
    hide TimestampEcho;
  }

  lemma AckAppends(c: Conn, ok: bool)
    ensures var c' := SendAck(c, ok);
            && c' == c.(log := c'.log) && |c'.log| == |c.log| + 1 && c'.log[..|c.log|] == c.log
            && PureAck(c', c'.log[|c.log|]) && c'.log[|c.log|].segment.ackNo == c.rcvNxt
  {
  }

  /** A segment that does not start at rcvNxt is answered by one ACK that repeats rcvNxt, and is dropped. */
  lemma StraySegmentIsAnswered(peer: Peer, w: World, ok1: bool, ok2: bool)
    requires Enabled(peer, w, RecvHandles(ok1, ok2)) && !w.conn.closed && w.recvHold.value.seqNo != w.conn.rcvNxt
    ensures var c, c' := w.conn, Next(peer, w, RecvHandles(ok1, ok2)).conn;
            && c'.readBuf == c.readBuf && c'.rcvNxt == c.rcvNxt && c'.gotFIN == c.gotFIN && c'.sndNxt == c.sndNxt
            && |c'.log| == |c.log| + 1 && c'.log[..|c.log|] == c.log
            && PureAck(c', c'.log[|c.log|]) && c'.log[|c.log|].segment.ackNo == c.rcvNxt
  {
    hide Wrap, TimestampEcho, Authentic, NoteEcho, TakePayload, TakeFin, PureAck;
    NoteEchoLeaves(w.conn, w.recvHold.value);
    AckAppends(NoteEcho(w.conn, w.recvHold.value), ok1);
  }

  /** One attempt behind the log of `c`: an ACK of rcvNxt as `c'` leaves it. */
  ghost predicate Acknowledges(c: Conn, c': Conn) {
    && c'.sndNxt == c.sndNxt && c'.useTS == c.useTS && c'.tsEcho == c.tsEcho
    && |c'.log| == |c.log| + 1 && c'.log[..|c.log|] == c.log
    && PureAck(c', c'.log[|c.log|]) && c'.log[|c.log|].segment.ackNo == c'.rcvNxt
  }

  lemma PayloadIsAcknowledged(c: Conn, payload: Bytes, ok: bool)
    ensures var c' := TakePayload(c, payload, ok);
            && Acknowledges(c, c') && c'.gotFIN == c.gotFIN
            && c'.readBuf == c.readBuf + payload && c'.rcvNxt == Wrap(c.rcvNxt + |payload|)
  {
    hide Wrap;
  }

  lemma FinIsAcknowledged(c: Conn, ok: bool)
    ensures var c' := TakeFin(c, ok);
            && Acknowledges(c, c') && c'.gotFIN
            && c'.readBuf == c.readBuf && c'.rcvNxt == Wrap(c.rcvNxt + 1)
  {
    hide Wrap;
  }

  lemma WrapOfWord(x: uint32)
    ensures Wrap(x) == x
  {
  }

  /** A segment in place: its bytes go behind the buffered ones, rcvNxt moves past bytes and FIN, and each of
      the two is answered by an ACK of its own, the last of which acknowledges all that is taken. Without
      bytes and FIN it is not answered. */
  ghost predicate TakesInPlace(c: Conn, seg: Inbound, c': Conn) {
    var n := |c.log|;
    && c'.readBuf == c.readBuf + seg.payload
    && c'.rcvNxt == Wrap(c.rcvNxt + |seg.payload| + if seg.fin then 1 else 0)
    && c'.gotFIN == (c.gotFIN || seg.fin) && c'.sndNxt == c.sndNxt
    && |c'.log| == n + (if seg.payload != [] then 1 else 0) + (if seg.fin then 1 else 0)
    && c'.log[..n] == c.log
    && (forall i :: n <= i < |c'.log| ==> PureAck(c', c'.log[i]))
    && (|c'.log| > n ==> c'.log[|c'.log| - 1].segment.ackNo == c'.rcvNxt)
    && (|c'.log| == n + 2 ==> c'.log[n].segment.ackNo == Wrap(c.rcvNxt + |seg.payload|))
  }

  lemma PayloadAndFin(c: Conn, seg: Inbound, ok1: bool, ok2: bool)
    requires seg.payload != [] && seg.fin
    ensures TakesInPlace(c, seg, TakeFin(TakePayload(c, seg.payload, ok1), ok2))
  {
    hide Wrap, TakePayload, TakeFin;
    var c2 := TakePayload(c, seg.payload, ok1);
    var c3 := TakeFin(c2, ok2);
    PayloadIsAcknowledged(c, seg.payload, ok1);
    FinIsAcknowledged(c2, ok2);
    WrapAdd(c.rcvNxt + |seg.payload|, 1);
    assert c3.log[..|c.log|] == c2.log[..|c.log|] && c3.log[|c.log|] == c2.log[|c.log|];
  }

  lemma PayloadOrFin(c: Conn, seg: Inbound, ok: bool)
    requires c.rcvNxt == seg.seqNo
    ensures seg.payload != [] && !seg.fin ==> TakesInPlace(c, seg, TakePayload(c, seg.payload, ok))
    ensures seg.payload == [] && seg.fin ==> TakesInPlace(c, seg, TakeFin(c, ok))
    ensures seg.payload == [] && !seg.fin ==> TakesInPlace(c, seg, c)
  {
    PayloadIsAcknowledged(c, seg.payload, ok);
    FinIsAcknowledged(c, ok);
    WrapOfWord(c.rcvNxt);
    assert c.readBuf + [] == c.readBuf;
    hide Wrap, TakePayload, TakeFin;
  }

  lemma EchoDoesNotMatter(c: Conn, seg: Inbound, echo: uint32, c': Conn)
    requires TakesInPlace(c.(tsEcho := echo), seg, c')
    ensures TakesInPlace(c, seg, c')
  {
    hide Wrap, PureAck;
  }

  lemma SegmentInPlaceIsAnswered(peer: Peer, w: World, ok1: bool, ok2: bool)
    requires Enabled(peer, w, RecvHandles(ok1, ok2)) && !w.conn.closed && w.recvHold.value.seqNo == w.conn.rcvNxt
    ensures TakesInPlace(w.conn, w.recvHold.value, Next(peer, w, RecvHandles(ok1, ok2)).conn)
  {
    hide Wrap, TimestampEcho, Authentic, TakePayload, TakeFin, NoteEcho, TakesInPlace;
    var seg, c := w.recvHold.value, w.conn;
    var c1 := NoteEcho(c, seg);
    NoteEchoLeaves(c, seg);
    if seg.payload != [] && seg.fin {
      PayloadAndFin(c1, seg, ok1, ok2);
    }
    PayloadOrFin(c1, seg, ok1);
    PayloadOrFin(c1, seg, ok2);
    EchoDoesNotMatter(c, seg, c1.tsEcho, HandleSegment(c, seg, ok1, ok2).conn);
  }

  lemma EchoOfOptions(c: Conn, seg: Inbound, i: nat)
    requires i <= |seg.options| && (i < |seg.options| ==> seg.options[i].kind == 8 && |seg.options[i].data| >= 4)
    requires forall j :: 0 <= j < i ==> seg.options[j].kind != 8 || |seg.options[j].data| < 4
    ensures if i == |seg.options| then NoteEcho(c, seg).tsEcho == c.tsEcho
            else
              var d := seg.options[i].data;
              var value := d[0] as int * 0x100_0000 + d[1] as int * 0x1_0000 + d[2] as int * 0x100 + d[3] as int;
              NoteEcho(c, seg).tsEcho == if value != 0 then value else c.tsEcho
  {
    var k := FirstOption(seg.options, 8, 4);
    assert k == i;
    hide FirstOption;
  }

  lemma HandlingKeepsEcho(c: Conn, seg: Inbound, ok1: bool, ok2: bool)
    requires !c.closed
    ensures HandleSegment(c, seg, ok1, ok2).conn.tsEcho == NoteEcho(c, seg).tsEcho
  {
    hide Wrap, TimestampEcho;
  }

  /** The timestamp to echo is that of the first timestamp option with four data bytes, unless that is zero:
      even when the segment is dropped. */
  lemma EchoFollowsTimestamps(peer: Peer, w: World, ok1: bool, ok2: bool, i: nat)
    requires Enabled(peer, w, RecvHandles(ok1, ok2)) && !w.conn.closed
    requires var options := w.recvHold.value.options;
             && i <= |options| && (i < |options| ==> options[i].kind == 8 && |options[i].data| >= 4)
             && forall j :: 0 <= j < i ==> options[j].kind != 8 || |options[j].data| < 4
    ensures var options, c' := w.recvHold.value.options, Next(peer, w, RecvHandles(ok1, ok2)).conn;
            if i == |options| then c'.tsEcho == w.conn.tsEcho
            else
              var d := options[i].data;
              var value := d[0] as int * 0x100_0000 + d[1] as int * 0x1_0000 + d[2] as int * 0x100 + d[3] as int;
              c'.tsEcho == if value != 0 then value else w.conn.tsEcho
  {
    hide Wrap, Authentic, TimestampEcho, NoteEcho, TakePayload, TakeFin, SendAck;
    EchoOfOptions(w.conn, w.recvHold.value, i);
    HandlingKeepsEcho(w.conn, w.recvHold.value, ok1, ok2);
  }

  // ----- Reading -----

  /** What a Read that holds the lock does: as many buffered bytes as fit, from the front; on an empty buffer
      the stored error, if any, goes before the end of file; else it sleeps. */
  ghost predicate ReadsFrom(w: World, id: nat, room: nat, w': World) {
    var c := w.conn;
    if c.readBuf != [] then
      var n := if room < |c.readBuf| then room else |c.readBuf|;
      && w'.results == w.results + [Data(c.readBuf[..n])]
      && w'.conn == c.(readBuf := c.readBuf[n..]) && w'.readers == w.readers - {id}
    else if c.err.Some? then
      w'.results == w.results + [Failed(c.err.value)] && w'.conn == c && w'.readers == w.readers - {id}
    else if c.gotFIN || c.closed then
      w'.results == w.results + [Eof] && w'.conn == c && w'.readers == w.readers - {id}
    else
      w'.results == w.results && w'.conn == c && w'.readers == w.readers[id := Reader(room, false)]
  }

  lemma ReadTakesTheFront(peer: Peer, w: World, id: nat, room: nat)
    ensures Enabled(peer, w, ReadCalled(id, room)) ==> ReadsFrom(w, id, room, Next(peer, w, ReadCalled(id, room)))
    ensures Enabled(peer, w, ReadResumes(id)) && w.readers[id].room == room ==>
              ReadsFrom(w, id, room, Next(peer, w, ReadResumes(id)))
  {
    hide Wrap, Authentic;
  }

  // ----- Writing -----

  /** Attempt number `i` of a Write of `p`: the stretch of `p` from `i` times the MSS on, the full MSS long
      unless it is the last, and numbered accordingly. */
  predicate ChunkOf(c: Conn, p: Bytes, mss: nat, i: nat, a: Attempt) {
    && i * mss < |p|
    && a.segment == Outbound(Wrap(c.sndNxt + i * mss), c.rcvNxt, false, true, true, false,
                             if c.useTS then Some(c.tsEcho) else None,
                             p[i * mss..if i * mss + mss < |p| then i * mss + mss else |p|])
  }

  ghost predicate ChunksFrom(c: Conn, p: Bytes, mss: nat, failAt: int, log: seq<Attempt>) {
    forall k :: |c.log| <= k < |log| ==>
      ChunkOf(c, p, mss, k - |c.log|, log[k]) && log[k].ok == (k - |c.log| != failAt)
  }

  /** The attempts of a Write, of which number `failAt` fails, if there is one of that number. */
  ghost predicate WritesChunks(c: Conn, p: Bytes, mss: nat, failAt: int, r: WriteResult) {
    && c.log <= r.conn.log
    && r.conn == c.(log := r.conn.log, sndNxt := Wrap(c.sndNxt + r.sent))
    && var n := |r.conn.log| - |c.log|;
       && ChunksFrom(c, p, mss, failAt, r.conn.log)
       && if 0 <= failAt && failAt * mss < |p| then
            r.error == Some(SendFailed) && n == failAt + 1 && r.sent == failAt * mss
          else
            r.error == None && n * mss >= |p| && r.sent == |p|
  }

  lemma NoChunk(c: Conn, mss: nat, failAt: int)
    requires mss > 0
    ensures WritesChunks(c, [], mss, failAt, WriteResult(c, 0, None))
  {
    WrapOfWord(c.sndNxt);
    if failAt >= 0 {
      assert failAt * mss >= 0;
    }
    hide Wrap;
  }

  lemma FailedChunk(c: Conn, p: Bytes, mss: nat, a: Attempt)
    requires mss > 0 && p != [] && ChunkOf(c, p, mss, 0, a) && !a.ok
    ensures WritesChunks(c, p, mss, 0, WriteResult(c.(log := c.log + [a]), 0, Some(SendFailed)))
  {
    WrapOfWord(c.sndNxt);
    hide Wrap, ChunkOf;
  }

  /** A chunk of what is left is the next chunk of the whole. */
  lemma ChunkBehindFirst(c: Conn, p: Bytes, mss: nat, i: nat, c1: Conn, a: Attempt)
    requires 0 < mss < |p| && ChunkOf(c1, p[mss..], mss, i, a)
    requires c1 == c.(log := c1.log, sndNxt := Wrap(c.sndNxt + mss))
    ensures ChunkOf(c, p, mss, i + 1, a)
  {
    assert (i + 1) * mss == i * mss + mss;
    WrapAdd(c.sndNxt + mss, i * mss);
    hide Wrap;
  }

  lemma SmallProducts(failAt: int, mss: nat)
    requires mss > 0
    ensures failAt > 0 ==> failAt * mss >= mss
    ensures failAt == 0 ==> failAt * mss == 0
  {
  }

  lemma RestOfChunks(c: Conn, p: Bytes, mss: nat, failAt: int, a: Attempt, c1: Conn, log: seq<Attempt>)
    requires 0 < mss < |p| && failAt != 0 && ChunkOf(c, p, mss, 0, a) && a.ok && c1.log == c.log + [a] <= log
    requires c1 == c.(log := c1.log, sndNxt := Wrap(c.sndNxt + mss)) && ChunksFrom(c1, p[mss..], mss, failAt - 1, log)
    ensures ChunksFrom(c, p, mss, failAt, log)
  {
    hide Wrap, ChunkOf;
    forall k | |c.log| <= k < |log|
      ensures ChunkOf(c, p, mss, k - |c.log|, log[k]) && log[k].ok == (k - |c.log| != failAt)
    {
      if k == |c.log| {
        assert log[k] == c1.log[k] == a;
      } else {
        ChunkBehindFirst(c, p, mss, k - |c1.log|, c1, log[k]);
      }
    }
  }

  lemma NextProduct(k: int, mss: nat)
    ensures k * mss == (k - 1) * mss + mss
  {
  }

  /** Which chunk fails and how many there are, seen from the whole and from behind the first chunk. */
  lemma ChunkNumbers(failAt: int, mss: nat, size: nat, more: nat)
    requires 0 < mss < size && failAt != 0
    ensures (0 <= failAt && failAt * mss < size) <==> (0 <= failAt - 1 && (failAt - 1) * mss < size - mss)
    ensures failAt * mss == (failAt - 1) * mss + mss
    ensures more * mss >= size - mss ==> (more + 1) * mss >= size
  {
    NextProduct(failAt, mss);
    NextProduct(more + 1, mss);
    SmallProducts(failAt, mss);
  }

  lemma FirstChunkThenRest(c: Conn, p: Bytes, mss: nat, failAt: int, a: Attempt, c1: Conn, rest: WriteResult)
    requires 0 < mss < |p| && failAt != 0 && ChunkOf(c, p, mss, 0, a) && a.ok
    requires c1 == c.(log := c.log + [a], sndNxt := Wrap(c.sndNxt + mss))
    requires WritesChunks(c1, p[mss..], mss, failAt - 1, rest)
    ensures WritesChunks(c, p, mss, failAt, WriteResult(rest.conn, mss + rest.sent, rest.error))
  {
    hide Wrap, ChunkOf, ChunksFrom;
    RestOfChunks(c, p, mss, failAt, a, c1, rest.conn.log);
    WrapAdd(c.sndNxt + mss, rest.sent);
    var more := |rest.conn.log| - |c1.log|;
    ChunkNumbers(failAt, mss, |p|, more);
    assert c.log <= c1.log <= rest.conn.log;
  }

  lemma OnlyChunk(c: Conn, p: Bytes, mss: nat, failAt: int, a: Attempt)
    requires mss >= |p| > 0 && failAt != 0 && ChunkOf(c, p, mss, 0, a) && a.ok
    ensures WritesChunks(c, p, mss, failAt,
                         WriteResult(c.(log := c.log + [a], sndNxt := Wrap(c.sndNxt + |p|)), |p|, None))
  {
    SmallProducts(failAt, mss);
    hide Wrap, ChunkOf;
  }

  /** The first attempt of a Write on connection `c`. */
  function FirstAttempt(c: Conn, p: Bytes, mss: nat, ok: bool): Attempt {
    Attempt(Outbound(c.sndNxt, c.rcvNxt, false, true, true, false, Echo(c), p[..if mss < |p| then mss else |p|]), ok)
  }

  lemma FirstAttemptIsChunk(c: Conn, p: Bytes, mss: nat, ok: bool)
    requires p != []
    ensures ChunkOf(c, p, mss, 0, FirstAttempt(c, p, mss, ok))
  {
    WrapOfWord(c.sndNxt);
    hide Wrap;
  }

  lemma AttemptIsOk(c: Conn, p: Bytes, mss: nat, ok: bool)
    ensures FirstAttempt(c, p, mss, ok).ok == ok
  {
  }

  lemma WriteOfNothing(c: Conn, failAt: int)
    ensures WriteChunks(c, [], failAt) == WriteResult(c, 0, None)
  {
  }

  lemma WriteUnfolds(c: Conn, p: Bytes, failAt: int)
    requires p != []
    ensures var mss := if c.peerMSS == 0 then 1460 else c.peerMSS as int;
            var n := if mss < |p| then mss else |p|;
            var c1 := c.(log := c.log + [FirstAttempt(c, p, mss, true)], sndNxt := Wrap(c.sndNxt + n));
            WriteChunks(c, p, failAt)
            == if failAt == 0 then WriteResult(c.(log := c.log + [FirstAttempt(c, p, mss, false)]), 0, Some(SendFailed))
               else
                 var rest := WriteChunks(c1, p[n..], failAt - 1);
                 WriteResult(rest.conn, n + rest.sent, rest.error)
  {
    hide Wrap;
  }

  /** The first chunk, and what follows it. */
  lemma OneMoreChunk(c: Conn, p: Bytes, mss: nat, failAt: int, n: nat, c1: Conn, rest: WriteResult)
    requires mss > 0 && p != [] && failAt != 0 && n == if mss < |p| then mss else |p|
    requires c1 == c.(log := c.log + [FirstAttempt(c, p, mss, true)], sndNxt := Wrap(c.sndNxt + n))
    requires WritesChunks(c1, p[n..], mss, failAt - 1, rest) && (p[n..] == [] ==> rest == WriteResult(c1, 0, None))
    ensures WritesChunks(c, p, mss, failAt, WriteResult(rest.conn, n + rest.sent, rest.error))
  {
    hide WritesChunks, ChunkOf, Wrap, FirstAttempt;
    FirstAttemptIsChunk(c, p, mss, true);
    AttemptIsOk(c, p, mss, true);
    if mss < |p| {
      FirstChunkThenRest(c, p, mss, failAt, FirstAttempt(c, p, mss, true), c1, rest);
    } else {
      assert p[n..] == [];
      OnlyChunk(c, p, mss, failAt, FirstAttempt(c, p, mss, true));
    }
  }

  lemma {:induction false} ChunksAreFull(c: Conn, p: Bytes, failAt: int)
    ensures WritesChunks(c, p, if c.peerMSS == 0 then 1460 else c.peerMSS, failAt, WriteChunks(c, p, failAt))
    decreases |p|
  {
    hide WritesChunks, ChunkOf, Wrap, WriteChunks, FirstAttempt;
    var mss: nat := if c.peerMSS == 0 then 1460 else c.peerMSS;
    if p == [] {
      NoChunk(c, mss, failAt);
      WriteOfNothing(c, failAt);
    } else if failAt == 0 {
      WriteUnfolds(c, p, 0);
      FirstAttemptIsChunk(c, p, mss, false);
      AttemptIsOk(c, p, mss, false);
      FailedChunk(c, p, mss, FirstAttempt(c, p, mss, false));
    } else {
      var n := if mss < |p| then mss else |p|;
      var c1 := c.(log := c.log + [FirstAttempt(c, p, mss, true)], sndNxt := Wrap(c.sndNxt + n));
      WriteUnfolds(c, p, failAt);
      ChunksAreFull(c1, p[n..], failAt - 1);
      WriteOfNothing(c1, failAt - 1);
      OneMoreChunk(c, p, mss, failAt, n, c1, WriteChunks(c1, p[n..], failAt - 1));
    }
  }

  /** What Write does and reports: the stored error first, then that the connection is closed; else chunks of
      the full MSS of the peer, 1460 when that is zero, until all is sent or one fails. */
  lemma WriteSendsChunks(c: Conn, p: Bytes, failAt: int)
    ensures var r := Write(c, p, failAt);
            if c.err.Some? then r == WriteResult(c, 0, Some(Broken(c.err.value)))
            else if c.closed then r == WriteResult(c, 0, Some(WriteError.Closed))
            else WritesChunks(c, p, if c.peerMSS == 0 then 1460 else c.peerMSS, failAt, r)
  {
    hide WriteChunks, WritesChunks;
    ChunksAreFull(c, p, failAt);
  }

  // ----- Closing and failing -----

  /** Close attempts one FIN, without data and numbered sndNxt, exactly when the connection is open and has no
      error; it closes the connection and wakes every reader. */
  lemma CloseSendsFin(peer: Peer, w: World, ok: bool)
    requires Enabled(peer, w, CloseCalled(ok))
    ensures var c, w' := w.conn, Next(peer, w, CloseCalled(ok));
            var c' := w'.conn;
            && c'.closed && (forall id :: id in w.readers ==> id in w'.readers && w'.readers[id].awake)
            && if c.closed || c.err.Some? then c' == c.(closed := true)
               else
                 && |c'.log| == |c.log| + 1 && c'.log[..|c.log|] == c.log && c'.sndNxt == Wrap(c.sndNxt + 1)
                 && var s := c'.log[|c.log|].segment;
                    s.fin && s.ack && !s.syn && s.payload == [] && s.seqNo == c.sndNxt && s.ackNo == c.rcvNxt
  {
    hide Wrap;
  }

  ghost predicate StoresError(w: World, e: ConnError, w': World) {
    && w'.pumpDone && w'.conn == w.conn.(err := if w.conn.err.Some? then w.conn.err else Some(e))
    && forall id :: id in w.readers ==> id in w'.readers && w'.readers[id].awake
  }

  /** A reset, or a failure of the raw socket, is stored unless an error is stored already; every reader wakes. */
  lemma FailuresAreStored(peer: Peer, w: World, code: int)
    ensures Enabled(peer, w, PumpReset) ==> StoresError(w, Reset, Next(peer, w, PumpReset))
    ensures Enabled(peer, w, PumpFails(code)) ==> StoresError(w, IoFailure(code), Next(peer, w, PumpFails(code)))
  {
    hide Wrap;
  }

  // ----- The handshake -----

  lemma MSSOfOptions(options: seq<TcpOption>, i: nat)
    requires i <= |options| && (i < |options| ==> options[i].kind == 2 && |options[i].data| >= 2)
    requires forall j :: 0 <= j < i ==> options[j].kind != 2 || |options[j].data| < 2
    ensures SynackMSS(options) == if i == |options| then 1460 else options[i].data[0] as int * 256 + options[i].data[1]
  {
    var k := FirstOption(options, 2, 2);
    assert k == i;
    hide FirstOption;
  }

  /** The handshake waits for SYN, ACK and acknowledgement iss + 1, and skips everything else. Then it answers
      with an ACK of the SYN, starts both directions behind the SYNs, and takes the MSS from the first option
      of kind 2 with two data bytes, 1460 without one. */
  lemma HandshakeTakesSynAck(peer: Peer, w: World, ok: bool, i: nat)
    requires Enabled(peer, w, WaitSynAck(ok))
    requires var options := w.packets[0].options;
             && i <= |options| && (i < |options| ==> options[i].kind == 2 && |options[i].data| >= 2)
             && forall j :: 0 <= j < i ==> options[j].kind != 2 || |options[j].data| < 2
    ensures var seg, w' := w.packets[0], Next(peer, w, WaitSynAck(ok));
            && w'.packets == w.packets[1..]
            && if !(seg.syn && seg.ack && seg.ackNo == Wrap(peer.iss + 1)) then w'.phase.Handshaking? && w'.conn == w.conn
               else
                 var c, n := w'.conn, |w.conn.log|;
                 && (w'.phase.Established? <==> ok) && (w'.phase.Aborted? <==> !ok)
                 && c.sndNxt == Wrap(peer.iss + 1) && c.rcvNxt == Wrap(seg.seqNo + 1)
                 && c.peerMSS == (if i == |seg.options| then 1460
                                  else seg.options[i].data[0] as int * 256 + seg.options[i].data[1])
                 && |c.log| == n + 1 && c.log[..n] == w.conn.log
                 && PureAck(c, c.log[n]) && c.log[n].segment.ackNo == c.rcvNxt && c.log[n].ok == ok
  {
    hide Wrap, Authentic, SynackMSS, TimestampEcho;
    MSSOfOptions(w.packets[0].options, i);
  }

  /** In every run the first packet is the SYN: numbered iss, without acknowledgement, FIN or data. */
  lemma SynGoesFirst(peer: Peer, useTS: bool, es: seq<Event>)
    requires Runs(peer, Start(peer, useTS), es)
    ensures var w := Final(peer, Start(peer, useTS), es);
            w.phase.Established? ==>
              && w.conn.log != [] && w.conn.log[0].ok
              && var s := w.conn.log[0].segment;
                 s.syn && !s.ack && !s.psh && !s.fin && s.payload == [] && s.seqNo == peer.iss
  {
    SentTilesAccepted(peer, useTS, es);
    hide Runs, Final, Start, Sent, EffectiveMSS, Wrap;
  }

  lemma HandlingKeepsMSS(c: Conn, seg: Inbound, ok1: bool, ok2: bool)
    ensures HandleSegment(c, seg, ok1, ok2).conn.peerMSS == c.peerMSS
  {
    hide Wrap, TimestampEcho;
  }

  lemma MSSStaysOnce(peer: Peer, w: World, e: Event)
    requires Enabled(peer, w, e) && w.phase.Established?
    ensures Next(peer, w, e).conn.peerMSS == w.conn.peerMSS && Next(peer, w, e).phase.Established?
  {
    hide Wrap, WriteChunks, Establish, Authentic, HandleSegment;
    if e.WriteCalled? {
      WriteChunksLeavesReaders(w.conn, e.p, e.failAt);
    } else if e.RecvHandles? {
      HandlingKeepsMSS(w.conn, w.recvHold.value, e.ok1, e.ok2);
    }
  }

  /** The peer's MSS never changes afterwards. */
  lemma {:induction false} MSSStays(peer: Peer, w: World, es: seq<Event>)
    requires Runs(peer, w, es) && w.phase.Established?
    ensures Final(peer, w, es).conn.peerMSS == w.conn.peerMSS
    decreases |es|
  {
    hide Enabled, Next;
    if es != [] {
      MSSStaysOnce(peer, w, es[0]);
      MSSStays(peer, Next(peer, w, es[0]), es[1..]);
    }
  }
}
