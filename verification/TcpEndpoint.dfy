/** The connection object itself. Each method is one critical section (Read: several) and is proved
    to leave the state that the functions of module Tcp describe. */
module TcpEndpoint {
  import opened Wrappers
  import opened Word32
  import opened Tcp

  /** The raw packet writer; whether a packet goes out is not up to the client. */
  class PacketIO {
    var log: seq<Attempt>

    constructor ()
      ensures log == []
    {
      log := [];
    }

    method Write(segment: Outbound) returns (ok: bool)
      modifies this
      ensures log == old(log) + [Attempt(segment, ok)]
    {
      ok := *;
      log := log + [Attempt(segment, ok)];
    }
  }

  /** timestampEcho: the first timestamp option long enough to hold a value, else zero. */
  method FindTimestampEcho(options: seq<TcpOption>) returns (echo: uint32)
    ensures echo == TimestampEcho(options)
  {
    for i := 0 to |options|
      invariant TimestampEcho(options) == TimestampEcho(options[i..])
    {
      if options[i].kind == KIND_TIMESTAMPS && |options[i].data| >= 4 {
        return BigEndian32(options[i].data);
      }
    }
    return 0;
  }

  /** synackMSS: the first MSS option long enough to hold a value, else 1460. */
  method FindSynackMSS(options: seq<TcpOption>) returns (mss: uint16)
    ensures mss == SynackMSS(options)
  {
    for i := 0 to |options|
      invariant SynackMSS(options) == SynackMSS(options[i..])
    {
      if options[i].kind == KIND_MSS && |options[i].data| >= 2 {
        return BigEndian16(options[i].data);
      }
    }
    return DEFAULT_MSS;
  }

  /** waitSYNACK over the segments that arrive before the channel is closed or the context done:
      the position of the first acceptable SYN-ACK. */
  method WaitSynAck(iss: uint32, arrivals: seq<Inbound>) returns (found: Option<nat>)
    ensures found.Some? ==> found.value < |arrivals| && IsSynAck(iss, arrivals[found.value])
                            && forall j :: 0 <= j < found.value ==> !IsSynAck(iss, arrivals[j])
    ensures found.None? ==> forall j :: 0 <= j < |arrivals| ==> !IsSynAck(iss, arrivals[j])
  {
    for i := 0 to |arrivals|
      invariant forall j :: 0 <= j < i ==> !IsSynAck(iss, arrivals[j])
    {
      if IsSynAck(iss, arrivals[i]) {
        return Some(i);
      }
    }
    return None;
  }

  /** What the other goroutines may do to the connection while a Read waits. */
  predicate Interferes(c: Conn, c': Conn) {
    && c'.useTS == c.useTS && c'.peerMSS == c.peerMSS
    && c.log <= c'.log
    && (c.err.Some? ==> c'.err == c.err)
    && (c.closed ==> c'.closed)
    && (c.gotFIN ==> c'.gotFIN)
  }

  ghost function Shifted(r: WriteResult, n: nat): WriteResult {
    r.(sent := r.sent + n)
  }

  /** Write's loop has sent `chunks` chunks, `sent` bytes, of `p`, is in state `c` and has `rest` to go. */
  ghost predicate Reached(start: Conn, p: Bytes, c: Conn, rest: Bytes, sent: nat, chunks: nat) {
    forall f: int, g: int :: f == g + chunks && (g >= 0 || f < 0) ==>
      WriteChunks(start, p, f) == Shifted(WriteChunks(c, rest, g), sent)
  }

  lemma FirstChunk(start: Conn, p: Bytes)
    ensures Reached(start, p, start, p[0..], 0, 0)
  {
    assert p[0..] == p;
  }

  function ChunkSize(c: Conn, rest: Bytes): (n: nat)
    ensures n <= |rest| && (rest != [] ==> n > 0)
  {
    if EffectiveMSS(c) < |rest| then EffectiveMSS(c) else |rest|
  }

  function Advanced(c: Conn, rest: Bytes): Conn {
    var n := ChunkSize(c, rest);
    Send(c, true, false, rest[..n], true).(sndNxt := Wrap(c.sndNxt + n))
  }

  lemma OneChunk(c: Conn, rest: Bytes, g: int)
    requires rest != []
    ensures var n := ChunkSize(c, rest);
            if g == 0 then
              WriteChunks(c, rest, g) == WriteResult(Send(c, true, false, rest[..n], false), 0, Some(SendFailed))
            else
              WriteChunks(c, rest, g) == Shifted(WriteChunks(Advanced(c, rest), rest[n..], g - 1), n)
  {
    hide Wrap;
  }

  lemma NextChunk(start: Conn, p: Bytes, c: Conn, rest: Bytes, sent: nat, chunks: nat)
    requires Reached(start, p, c, rest, sent, chunks) && rest != []
    ensures var n := ChunkSize(c, rest);
            && Reached(start, p, Advanced(c, rest), rest[n..], sent + n, chunks + 1)
            && WriteChunks(start, p, chunks) == WriteResult(Send(c, true, false, rest[..n], false), sent, Some(SendFailed))
  {
    hide WriteChunks, Advanced, ChunkSize, Send, Wrap;
    var n := ChunkSize(c, rest);
    OneChunk(c, rest, 0);
    assert WriteChunks(start, p, chunks) == Shifted(WriteChunks(c, rest, 0), sent);
    forall f: int, h: int | f == h + (chunks + 1) && (h >= 0 || f < 0)
      ensures WriteChunks(start, p, f) == Shifted(WriteChunks(Advanced(c, rest), rest[n..], h), sent + n)
    {
      OneChunk(c, rest, h + 1);
      assert WriteChunks(start, p, f) == Shifted(WriteChunks(c, rest, h + 1), sent);
    }
  }

  /** The chunk of `p` from `sent` to `end`, as the loop cuts it. */
  lemma ChunkIs(c: Conn, p: Bytes, sent: nat, end: nat)
    requires sent < |p| && end == if sent + EffectiveMSS(c) > |p| then |p| else sent + EffectiveMSS(c)
    ensures var rest := p[sent..];
            && ChunkSize(c, rest) == end - sent && rest[..end - sent] == p[sent..end] && rest[end - sent..] == p[end..]
            && Advanced(c, rest) == Send(c, true, false, p[sent..end], true).(sndNxt := Wrap(c.sndNxt + (end - sent)))
    ensures EffectiveMSS(Advanced(c, p[sent..])) == EffectiveMSS(c)
  {
    hide Wrap;
  }

  lemma LastChunk(start: Conn, p: Bytes, c: Conn, rest: Bytes, sent: nat, chunks: nat)
    requires Reached(start, p, c, rest, sent, chunks) && rest == []
    ensures WriteChunks(start, p, -1) == WriteResult(c, sent, None)
  {
    assert WriteChunks(start, p, -1) == Shifted(WriteChunks(c, rest, -1 - chunks), sent);
  }

  class Ja4tConn {
    const io: PacketIO
    const useTS: bool
    var peerMSS: uint16
    var sndNxt: uint32
    var rcvNxt: uint32
    var tsEcho: uint32
    var readBuf: Bytes
    var closed: bool
    var gotFIN: bool
    var err: Option<ConnError>
    var broadcasts: nat  // how often the condition variable has been broadcast

    function View(): Conn
      reads this, io
    {
      Conn(useTS, peerMSS, sndNxt, rcvNxt, tsEcho, readBuf, closed, gotFIN, err, io.log)
    }

    constructor (io: PacketIO, useTS: bool)
      ensures this.io == io && this.useTS == useTS
      ensures View() == Conn(useTS, 0, 0, 0, 0, [], false, false, None, io.log)
    {
      this.io := io;
      this.useTS := useTS;
      peerMSS, sndNxt, rcvNxt, tsEcho := 0, 0, 0, 0;
      readBuf, closed, gotFIN, err, broadcasts := [], false, false, None, 0;
    }

    /** handshakeJA4T: it fails when the SYN does not go out, when no SYN-ACK comes, or when the ACK does
        not go out; otherwise the connection is established by the first SYN-ACK. */
    static method Handshake(io: PacketIO, useTS: bool, iss: uint32, arrivals: seq<Inbound>) returns (conn: Ja4tConn?)
      requires io.log == []
      modifies io
      ensures conn != null ==>
                (&& fresh(conn) && conn.io == io
                 && exists i ::
                      && 0 <= i < |arrivals| && IsSynAck(iss, arrivals[i])
                      && (forall j :: 0 <= j < i ==> !IsSynAck(iss, arrivals[j]))
                      && conn.View() == Establish(Fresh(iss, useTS), iss, arrivals[i], true))
      ensures conn == null <==> io.log == [Syn(iss).(ok := false)]
                                || (io.log == [Syn(iss)] && forall j :: 0 <= j < |arrivals| ==> !IsSynAck(iss, arrivals[j]))
                                || (|io.log| == 2 && !io.log[1].ok)
    {
      hide Wrap, TimestampEcho, SynackMSS, IsSynAck;
      var synSent := io.Write(Syn(iss).segment);
      if !synSent {
        return null;
      }
      conn := new Ja4tConn(io, useTS);
      var found := WaitSynAck(iss, arrivals);
      if found.None? {
        return null;
      }
      var synack := arrivals[found.value];
      conn.rcvNxt := Wrap(synack.seqNo + 1);
      conn.tsEcho := FindTimestampEcho(synack.options);
      conn.peerMSS := FindSynackMSS(synack.options);
      conn.sndNxt := Wrap(iss + 1);
      var ackSent := conn.SendLocked(false, false, []);
      if !ackSent {
        return null;
      }
    }

    method SendLocked(psh: bool, fin: bool, payload: Bytes) returns (ok: bool)
      modifies io
      ensures View() == Send(old(View()), psh, fin, payload, ok)
    {
      var echo := if useTS then Some(tsEcho) else None;
      ok := io.Write(Outbound(sndNxt, rcvNxt, false, true, psh, fin, echo, payload));
    }

    method Broadcast()
      modifies this`broadcasts
      ensures broadcasts == old(broadcasts) + 1
    {
      broadcasts := broadcasts + 1;
    }

    method Accept(payload: Bytes) returns (ok: bool)
      modifies this, io
      ensures View() == TakePayload(old(View()), payload, ok) && broadcasts == old(broadcasts) + 1
    {
      hide Wrap;
      readBuf := readBuf + payload;
      rcvNxt := Wrap(rcvNxt + |payload|);
      ok := SendLocked(false, false, []);
      Broadcast();
    }

    method AcceptFin() returns (ok: bool)
      modifies this, io
      ensures View() == TakeFin(old(View()), ok) && broadcasts == old(broadcasts) + 1
    {
      hide Wrap;
      rcvNxt := Wrap(rcvNxt + 1);
      gotFIN := true;
      ok := SendLocked(false, false, []);
      Broadcast();
    }

    method HandleSegment(seg: Inbound) returns (ghost ok1: bool, ghost ok2: bool)
      modifies this, io
      ensures var effect := Tcp.HandleSegment(old(View()), seg, ok1, ok2);
              View() == effect.conn && (broadcasts > old(broadcasts)) == effect.broadcast
    {
      hide Wrap, TimestampEcho, TakePayload, TakeFin, Send;
      ok1, ok2 := true, true;
      if closed {
        return;
      }
      var echo := FindTimestampEcho(seg.options);
      if echo != 0 {
        tsEcho := echo;
      }
      assert View() == NoteEcho(old(View()), seg);
      if seg.seqNo != rcvNxt {
        var ok := SendLocked(false, false, []);
        ok1 := ok;
        return;
      }
      if |seg.payload| > 0 {
        var ok := Accept(seg.payload);
        ok1 := ok;
      }
      if seg.fin {
        var ok := AcceptFin();
        ok2 := ok;
      }
    }

    /** waitDeadline, as seen by the waiting Read: the lock is let go and other goroutines run. */
    method Wait() returns (expired: bool)
      modifies this, io
      ensures Interferes(old(View()), View())
    {
      var next: Conn := *;
      if Interferes(View(), next) {
        peerMSS, sndNxt, rcvNxt, tsEcho := next.peerMSS, next.sndNxt, next.rcvNxt, next.tsEcho;
        readBuf, closed, gotFIN, err, io.log := next.readBuf, next.closed, next.gotFIN, next.err, next.log;
      }
      expired := *;
    }

    /** Read sleeps at most `patience` times in this model; None stands for a call that is still asleep.
        `at` is the state in which it held the lock for the last time. */
    method Read(room: nat, patience: nat) returns (answer: Option<ReadResult>, ghost at: Conn)
      modifies this, io
      ensures Interferes(old(View()), at)
      ensures !MustWait(old(View())) ==> at == old(View()) && answer.Some? && answer.value != TimedOut
      ensures answer == Some(TimedOut) || answer == None ==> View() == at
      ensures answer == None ==> MustWait(at)
      ensures answer.Some? && answer.value != TimedOut ==>
                !MustWait(at) && answer.value == ReadAnswer(at, room) && View() == AfterRead(at, room)
      ensures answer.Some? && answer.value != TimedOut ==>
                match answer.value
                case Data(bytes) =>
                  && at.readBuf != [] && |bytes| == (if room < |at.readBuf| then room else |at.readBuf|)
                  && at.readBuf == bytes + View().readBuf
                case Failed(e) => at.readBuf == [] && at.err == Some(e)
                case Eof => at.readBuf == [] && at.err.None? && (at.gotFIN || at.closed)
                case TimedOut => false
    {
      var waits := 0;
      while readBuf == [] && err.None? && !gotFIN && !closed
        invariant waits <= patience
        invariant Interferes(old(View()), View())
        invariant if waits == 0 then View() == old(View()) else MustWait(old(View()))
        decreases patience - waits
      {
        if waits == patience {
          return None, View();
        }
        var expired := Wait();
        if expired {
          return Some(TimedOut), View();
        }
        waits := waits + 1;
      }
      at := View();
      if |readBuf| > 0 {
        var n := if room < |readBuf| then room else |readBuf|;
        answer := Some(Data(readBuf[..n]));
        readBuf := readBuf[n..];
        return;
      }
      if err.Some? {
        answer := Some(Failed(err.value));
        return;
      }
      answer := Some(Eof);
    }

    /** One round of Write's loop. */
    method SendChunk(chunk: Bytes) returns (ok: bool)
      modifies io, this`sndNxt
      ensures var sent := Send(old(View()), true, false, chunk, ok);
              View() == if ok then sent.(sndNxt := Wrap(old(sndNxt) + |chunk|)) else sent
    {
      hide Wrap;
      ok := SendLocked(true, false, chunk);
      if ok {
        sndNxt := Wrap(sndNxt + |chunk|);
      }
    }

    /** Write's loop; without an error it has sent all of `p`. */
    method SendChunks(p: Bytes) returns (sent: nat, ok: bool, ghost failAt: int)
      modifies io, this`sndNxt
      ensures WriteResult(View(), sent, if ok then None else Some(SendFailed)) == WriteChunks(old(View()), p, failAt)
    {
      hide Wrap, WriteChunks, Reached, Send, Advanced, ChunkSize;
      sent, ok, failAt := 0, true, -1;
      var mss: nat := peerMSS;
      if mss <= 0 {
        mss := 1460;
      }
      ghost var chunks, start := 0, View();
      FirstChunk(start, p);
      while sent < |p|
        invariant sent <= |p| && mss == EffectiveMSS(View())
        invariant Reached(start, p, View(), p[sent..], sent, chunks)
      {
        var end := sent + mss;
        if end > |p| {
          end := |p|;
        }
        ChunkIs(View(), p, sent, end);
        NextChunk(start, p, View(), p[sent..], sent, chunks);
        ok := SendChunk(p[sent..end]);
        if !ok {
          return sent, false, chunks;
        }
        sent := end;
        chunks := chunks + 1;
      }
      LastChunk(start, p, View(), p[sent..], sent, chunks);
      return sent, true, -1;
    }

    method Write(p: Bytes) returns (sent: nat, error: Option<WriteError>, ghost failAt: int)
      modifies io, this`sndNxt
      ensures error == Some(Expired) ==> sent == 0 && err.None? && !closed && View() == old(View())
      ensures error != Some(Expired) ==> WriteResult(View(), sent, error) == Tcp.Write(old(View()), p, failAt)
    {
      hide Wrap, WriteChunks;
      failAt := -1;
      if err.Some? {
        return 0, Some(Broken(err.value)), failAt;
      }
      if closed {
        return 0, Some(Closed), failAt;
      }
      var expired: bool := *;
      if expired {
        return 0, Some(Expired), failAt;
      }
      var ok;
      sent, ok, failAt := SendChunks(p);
      error := if ok then None else Some(SendFailed);
    }

    /** Close's critical section; cancelling the context and closing the socket follow it. */
    method Close() returns (ghost ok: bool)
      modifies this, io
      ensures var effect := Tcp.Close(old(View()), ok);
              View() == effect.conn && (broadcasts > old(broadcasts)) == effect.broadcast
    {
      ok := true;
      if !closed && err.None? {
        var sent := SendLocked(false, true, []);
        ok := sent;
        sndNxt := Wrap(sndNxt + 1);
      }
      closed := true;
      Broadcast();
    }

    method Fail(e: ConnError)
      modifies this
      ensures var effect := Tcp.Fail(old(View()), e);
              View() == effect.conn && (broadcasts > old(broadcasts)) == effect.broadcast
    {
      if err.None? {
        err := Some(e);
      }
      Broadcast();
    }
  }

  lemma InterferenceComposes(c: Conn, c': Conn, c'': Conn)
    requires Interferes(c, c') && Interferes(c', c'')
    ensures Interferes(c, c'')
  {
  }

  lemma SendInterferes(c: Conn, psh: bool, fin: bool, payload: Bytes, ok: bool, sndNxt: uint32)
    ensures Interferes(c, Send(c, psh, fin, payload, ok).(sndNxt := sndNxt))
  {
  }

  lemma InterferenceIsReflexive(c: Conn)
    ensures Interferes(c, c)
  {
  }

  lemma FailedChunkInterferes(c: Conn, chunk: Bytes)
    ensures Interferes(c, Send(c, true, false, chunk, false))
  {
  }

  lemma ChunkInterferes(c: Conn, rest: Bytes)
    ensures Interferes(c, Advanced(c, rest))
  {
    hide Wrap;
  }

  lemma {:induction false} WriteChunksInterferes(c: Conn, p: Bytes, failAt: int)
    ensures Interferes(c, WriteChunks(c, p, failAt).conn)
    decreases |p|
  {
    hide Interferes, Advanced, Send;
    if p != [] {
      OneChunk(c, p, failAt);
      var n := ChunkSize(c, p);
      FailedChunkInterferes(c, p[..n]);
      if failAt != 0 {
        ChunkInterferes(c, p);
        WriteChunksInterferes(Advanced(c, p), p[n..], failAt - 1);
        InterferenceComposes(c, Advanced(c, p), WriteChunks(Advanced(c, p), p[n..], failAt - 1).conn);
      }
    } else {
      InterferenceIsReflexive(c);
    }
    hide WriteChunks;
  }

  /** No critical section goes beyond what a waiting Read reckons with. */
  lemma HandleSegmentInterferes(c: Conn, seg: Inbound, ok1: bool, ok2: bool)
    ensures Interferes(c, Tcp.HandleSegment(c, seg, ok1, ok2).conn)
  {
    hide Wrap, TimestampEcho;
    var c1 := NoteEcho(c, seg);
    SendInterferes(c1, false, false, [], ok1, c1.sndNxt);
    var c2 := TakePayload(c1, seg.payload, ok1);
    assert Interferes(c, c1) && Interferes(c, c2);
    assert Interferes(c1, TakeFin(c1, ok2)) && Interferes(c2, TakeFin(c2, ok2));
    InterferenceComposes(c, c1, TakeFin(c1, ok2));
    InterferenceComposes(c, c2, TakeFin(c2, ok2));
    hide Interferes, Send, TakePayload, TakeFin, NoteEcho;
  }

  lemma OtherSectionsInterfere(c: Conn, ok: bool, p: Bytes, failAt: int, room: nat, e: ConnError)
    ensures Interferes(c, Tcp.Write(c, p, failAt).conn)
    ensures Interferes(c, AfterRead(c, room))
    ensures Interferes(c, Tcp.Close(c, ok).conn)
    ensures Interferes(c, Tcp.Fail(c, e).conn)
  {
    hide Wrap, WriteChunks;
    WriteChunksInterferes(c, p, failAt);
  }
}
