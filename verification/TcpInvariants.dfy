/** What one critical section of the connection keeps, stated against the peer's byte stream
    and against the client's own. */
module TcpInvariants {
  import opened Wrappers
  import opened Word32
  import opened Tcp

  /** The other end: the bytes it sends before its FIN, its initial sequence number, and the client's. */
  datatype Peer = Peer(stream: Bytes, irs: uint32, iss: uint32)

  /** The stream and its FIN fit the 32-bit sequence space without reuse. */
  predicate Fits(peer: Peer) {
    |peer.stream| + 1 < TWO_TO_32
  }

  /** `seg` carries the stretch of the peer's stream that starts at offset `off`; a FIN stands at its end. */
  ghost predicate CutAt(peer: Peer, seg: Inbound, off: nat) {
    && off + |seg.payload| <= |peer.stream|
    && seg.seqNo == Wrap(peer.irs + 1 + off)
    && seg.payload == peer.stream[off..off + |seg.payload|]
    && (seg.fin ==> off + |seg.payload| == |peer.stream|)
  }

  /** Everything the network may deliver, in any order and any number of times: SYN-ACKs, segments
      without payload or FIN (whatever their number), and stretches of the stream. */
  ghost predicate Authentic(peer: Peer, seg: Inbound) {
    if seg.syn then seg.seqNo == peer.irs && seg.payload == [] && !seg.fin
    else if seg.payload == [] && !seg.fin then true
    else exists off: nat :: CutAt(peer, seg, off)
  }

  // ----- Receiving -----

  /** How much of the peer's sequence space has been taken: bytes returned, bytes buffered, FIN. */
  ghost function Taken(c: Conn, returned: Bytes): nat {
    |returned| + |c.readBuf| + if c.gotFIN then 1 else 0
  }

  ghost predicate Receiving(peer: Peer, c: Conn, returned: Bytes) {
    && returned + c.readBuf <= peer.stream
    && c.rcvNxt == Wrap(peer.irs + 1 + Taken(c, returned))
    && (c.gotFIN ==> returned + c.readBuf == peer.stream)
  }

  /** A segment that matches rcvNxt starts exactly where the taken bytes end, and comes before the FIN. */
  lemma AcceptedStartsAtEnd(peer: Peer, c: Conn, seg: Inbound, returned: Bytes, off: nat)
    requires Fits(peer) && Receiving(peer, c, returned)
    requires CutAt(peer, seg, off) && seg.seqNo == c.rcvNxt
    ensures !c.gotFIN && off == |returned| + |c.readBuf|
  {
    WrapInjective(peer.irs + 1 + off, peer.irs + 1 + Taken(c, returned));
  }

  lemma TakePayloadKeepsReceiving(peer: Peer, c: Conn, payload: Bytes, ok: bool, returned: Bytes)
    requires Receiving(peer, c, returned) && !c.gotFIN
    requires returned + c.readBuf + payload <= peer.stream
    ensures Receiving(peer, TakePayload(c, payload, ok), returned)
  {
    var c' := TakePayload(c, payload, ok);
    WrapAdd(peer.irs + 1 + Taken(c, returned), |payload|);
    assert returned + c'.readBuf == returned + c.readBuf + payload;
  }

  lemma TakeFinKeepsReceiving(peer: Peer, c: Conn, ok: bool, returned: Bytes)
    requires Receiving(peer, c, returned) && !c.gotFIN
    requires returned + c.readBuf == peer.stream
    ensures Receiving(peer, TakeFin(c, ok), returned)
  {
    WrapAdd(peer.irs + 1 + Taken(c, returned), 1);
  }

  /** An accepted segment continues the taken bytes; its FIN, if any, ends the stream. */
  lemma AcceptedContinues(peer: Peer, c: Conn, seg: Inbound, returned: Bytes)
    requires Fits(peer) && Authentic(peer, seg) && Receiving(peer, c, returned)
    requires seg.seqNo == c.rcvNxt && (seg.payload != [] || seg.fin)
    ensures !c.gotFIN && returned + c.readBuf + seg.payload <= peer.stream
    ensures seg.fin ==> returned + c.readBuf + seg.payload == peer.stream
  {
    var off: nat :| CutAt(peer, seg, off);
    AcceptedStartsAtEnd(peer, c, seg, returned, off);
    assert returned + c.readBuf == peer.stream[..off];
    assert peer.stream[..off] + peer.stream[off..off + |seg.payload|] == peer.stream[..off + |seg.payload|];
  }

  lemma HandleSegmentKeepsReceiving(peer: Peer, c: Conn, seg: Inbound, ok1: bool, ok2: bool, returned: Bytes)
    requires Fits(peer) && Authentic(peer, seg) && Receiving(peer, c, returned)
    ensures Receiving(peer, HandleSegment(c, seg, ok1, ok2).conn, returned)
  {
    hide Wrap, Authentic;
    if !c.closed && seg.seqNo == c.rcvNxt && (seg.payload != [] || seg.fin) {
      AcceptedContinues(peer, c, seg, returned);
      var c1 := NoteEcho(c, seg);
      var c2 := c1;
      if |seg.payload| > 0 {
        TakePayloadKeepsReceiving(peer, c1, seg.payload, ok1, returned);
        c2 := TakePayload(c1, seg.payload, ok1);
      }
      assert returned + c2.readBuf == returned + c.readBuf + seg.payload;
      if seg.fin {
        TakeFinKeepsReceiving(peer, c2, ok2, returned);
      }
    }
  }

  /** Once the FIN is taken, no later segment adds anything. */
  lemma NothingAfterFin(peer: Peer, c: Conn, seg: Inbound, ok1: bool, ok2: bool, returned: Bytes)
    requires Fits(peer) && Authentic(peer, seg) && Receiving(peer, c, returned) && c.gotFIN
    ensures HandleSegment(c, seg, ok1, ok2).conn.readBuf == c.readBuf
  {
    if seg.seqNo == c.rcvNxt && (seg.payload != [] || seg.fin) {
      AcceptedContinues(peer, c, seg, returned);
      assert false;
    }
    hide Wrap, Authentic, Receiving;
  }

  /** Reading moves bytes from the buffer to the caller, in order and without loss. */
  lemma ReadKeepsReceiving(peer: Peer, c: Conn, room: nat, returned: Bytes)
    requires Receiving(peer, c, returned)
    ensures var answer := ReadAnswer(c, room);
            Receiving(peer, AfterRead(c, room), if answer.Data? then returned + answer.bytes else returned)
  {
    var answer := ReadAnswer(c, room);
    if answer.Data? {
      var c' := AfterRead(c, room);
      assert returned + answer.bytes + c'.readBuf == returned + c.readBuf;
    }
  }

  // ----- Acknowledging -----

  /** The peer's sequence space acknowledged by an ack number, unwrapped. */
  ghost function AckOffset(peer: Peer, ackNo: uint32): nat {
    Distance(Wrap(peer.irs + 1), ackNo)
  }

  /** Acknowledgements never go back, and none reaches beyond `limit`. */
  ghost predicate AcksOrdered(peer: Peer, log: seq<Attempt>, limit: nat) {
    forall j | 0 <= j < |log| && log[j].segment.ack ::
      && AckOffset(peer, log[j].segment.ackNo) <= limit
      && forall i | 0 <= i < j && log[i].segment.ack ::
           AckOffset(peer, log[i].segment.ackNo) <= AckOffset(peer, log[j].segment.ackNo)
  }

  ghost predicate Acknowledging(peer: Peer, c: Conn, returned: Bytes) {
    Receiving(peer, c, returned) && AcksOrdered(peer, c.log, Taken(c, returned))
  }

  lemma RcvNxtIsTaken(peer: Peer, c: Conn, returned: Bytes)
    requires Fits(peer) && Receiving(peer, c, returned)
    ensures AckOffset(peer, c.rcvNxt) == Taken(c, returned)
  {
    DistanceOfWrap(peer.irs + 1, Taken(c, returned));
  }

  /** A packet sent after taking more of the stream acknowledges exactly what is taken. */
  lemma SendKeepsAcks(peer: Peer, c: Conn, psh: bool, fin: bool, payload: Bytes, ok: bool, returned: Bytes, limit: nat)
    requires Fits(peer) && Receiving(peer, c, returned)
    requires AcksOrdered(peer, c.log, limit) && limit <= Taken(c, returned)
    ensures Acknowledging(peer, Send(c, psh, fin, payload, ok), returned)
  {
    RcvNxtIsTaken(peer, c, returned);
    var c' := Send(c, psh, fin, payload, ok);
    assert forall i | 0 <= i < |c.log| :: c'.log[i] == c.log[i];
  }

  lemma TakePayloadKeepsAcks(peer: Peer, c: Conn, payload: Bytes, ok: bool, returned: Bytes)
    requires Fits(peer) && Acknowledging(peer, c, returned) && !c.gotFIN
    requires returned + c.readBuf + payload <= peer.stream
    ensures Acknowledging(peer, TakePayload(c, payload, ok), returned)
  {
    hide Wrap, AcksOrdered;
    TakePayloadKeepsReceiving(peer, c, payload, ok, returned);
    var grown := c.(readBuf := c.readBuf + payload, rcvNxt := Wrap(c.rcvNxt + |payload|));
    SendKeepsAcks(peer, grown, false, false, [], ok, returned, Taken(c, returned));
  }

  lemma TakeFinKeepsAcks(peer: Peer, c: Conn, ok: bool, returned: Bytes)
    requires Fits(peer) && Acknowledging(peer, c, returned) && !c.gotFIN
    requires returned + c.readBuf == peer.stream
    ensures Acknowledging(peer, TakeFin(c, ok), returned)
  {
    hide Wrap, AcksOrdered;
    TakeFinKeepsReceiving(peer, c, ok, returned);
    var ended := c.(rcvNxt := Wrap(c.rcvNxt + 1), gotFIN := true);
    SendKeepsAcks(peer, ended, false, false, [], ok, returned, Taken(c, returned));
  }

  lemma HandleSegmentKeepsAcks(peer: Peer, c: Conn, seg: Inbound, ok1: bool, ok2: bool, returned: Bytes)
    requires Fits(peer) && Authentic(peer, seg) && Acknowledging(peer, c, returned)
    ensures Acknowledging(peer, HandleSegment(c, seg, ok1, ok2).conn, returned)
  {
    hide Wrap, Authentic, AcksOrdered;
    if !c.closed {
      var c1 := NoteEcho(c, seg);
      assert Acknowledging(peer, c1, returned);
      if seg.seqNo != c.rcvNxt {
        SendKeepsAcks(peer, c1, false, false, [], ok1, returned, Taken(c, returned));
      } else if seg.payload != [] || seg.fin {
        AcceptedContinues(peer, c, seg, returned);
        var c2 := c1;
        if |seg.payload| > 0 {
          TakePayloadKeepsAcks(peer, c1, seg.payload, ok1, returned);
          c2 := TakePayload(c1, seg.payload, ok1);
        }
        assert returned + c2.readBuf == returned + c.readBuf + seg.payload;
        if seg.fin {
          TakeFinKeepsAcks(peer, c2, ok2, returned);
        }
      }
    }
    hide Send, TakePayload, TakeFin;
  }

  lemma ChunkKeepsAcks(peer: Peer, c: Conn, chunk: Bytes, ok: bool, sndNxt: uint32, returned: Bytes)
    requires Fits(peer) && Acknowledging(peer, c, returned)
    ensures Acknowledging(peer, Send(c, true, false, chunk, ok), returned)
    ensures Acknowledging(peer, Send(c, true, false, chunk, ok).(sndNxt := sndNxt), returned)
  {
    hide Wrap, AcksOrdered;
    SendKeepsAcks(peer, c, true, false, chunk, ok, returned, Taken(c, returned));
  }

  lemma {:induction false} WriteChunksKeepsAcks(peer: Peer, c: Conn, p: Bytes, failAt: int, returned: Bytes)
    requires Fits(peer) && Acknowledging(peer, c, returned)
    ensures Acknowledging(peer, WriteChunks(c, p, failAt).conn, returned)
    decreases |p|
  {
    hide Wrap, Acknowledging;
    if p != [] {
      var n := if EffectiveMSS(c) < |p| then EffectiveMSS(c) else |p|;
      var sndNxt := Wrap(c.sndNxt + n);
      ChunkKeepsAcks(peer, c, p[..n], failAt != 0, sndNxt, returned);
      if failAt != 0 {
        WriteChunksKeepsAcks(peer, Send(c, true, false, p[..n], true).(sndNxt := sndNxt), p[n..], failAt - 1, returned);
      }
    }
  }

  lemma CloseKeepsAcks(peer: Peer, c: Conn, ok: bool, returned: Bytes)
    requires Fits(peer) && Acknowledging(peer, c, returned)
    ensures Acknowledging(peer, Close(c, ok).conn, returned)
  {
    hide Wrap, AcksOrdered;
    SendKeepsAcks(peer, c, false, true, [], ok, returned, Taken(c, returned));
  }

  lemma ReadKeepsAcks(peer: Peer, c: Conn, room: nat, returned: Bytes)
    requires Acknowledging(peer, c, returned)
    ensures var answer := ReadAnswer(c, room);
            Acknowledging(peer, AfterRead(c, room), if answer.Data? then returned + answer.bytes else returned)
  {
    ReadKeepsReceiving(peer, c, room, returned);
  }

  // ----- Sending -----

  /** The payload of the successful attempts, in order. */
  ghost function Sent(log: seq<Attempt>): Bytes {
    if log == [] then []
    else Sent(log[..|log| - 1]) + if log[|log| - 1].ok then log[|log| - 1].segment.payload else []
  }

  ghost predicate FinTried(log: seq<Attempt>) {
    log != [] && log[|log| - 1].segment.fin
  }

  /** A segment sent after the bytes `before`: it is numbered right behind them and carries at most the
      MSS, and it is pushed exactly when it carries any data; a FIN carries no data and is the last segment of all. */
  ghost predicate Placed(iss: uint32, mss: nat, s: Outbound, before: Bytes, last: bool) {
    && !s.syn
    && s.seqNo == Wrap(iss + 1 + |before|)
    && |s.payload| <= mss && (s.psh <==> s.payload != [])
    && (s.fin ==> last && s.payload == [])
  }

  /** The SYN first and only first, and every other segment in its place. */
  ghost predicate Tiled(iss: uint32, mss: nat, log: seq<Attempt>) {
    && log != [] && log[0] == Syn(iss)
    && forall i | 0 < i < |log| :: Placed(iss, mss, log[i].segment, Sent(log[..i]), i == |log| - 1)
  }

  ghost predicate Sends(iss: uint32, mss: nat, log: seq<Attempt>, sndNxt: uint32, closed: bool, accepted: Bytes) {
    && Sent(log) == accepted
    && Tiled(iss, mss, log)
    && (FinTried(log) ==> closed)
    && sndNxt == Wrap(iss + 1 + |accepted| + if FinTried(log) then 1 else 0)
  }

  /** `accepted` is what Write has reported as written. */
  ghost predicate Sending(iss: uint32, c: Conn, accepted: Bytes) {
    Sends(iss, EffectiveMSS(c), c.log, c.sndNxt, c.closed, accepted)
  }

  lemma SentSnoc(log: seq<Attempt>, a: Attempt)
    ensures Sent(log + [a]) == Sent(log) + if a.ok then a.segment.payload else []
  {
    assert (log + [a])[..|log|] == log;
  }

  lemma NoLongerLast(iss: uint32, mss: nat, s: Outbound, before: Bytes)
    requires Placed(iss, mss, s, before, true) && !s.fin
    ensures Placed(iss, mss, s, before, false)
  {
  }

  lemma EarlierStayPlaced(iss: uint32, mss: nat, log: seq<Attempt>, a: Attempt, i: nat)
    requires Tiled(iss, mss, log) && !FinTried(log) && 0 < i < |log|
    ensures Placed(iss, mss, (log + [a])[i].segment, Sent((log + [a])[..i]), false)
  {
    assert (log + [a])[i] == log[i] && (log + [a])[..i] == log[..i];
    if i == |log| - 1 {
      NoLongerLast(iss, mss, log[i].segment, Sent(log[..i]));
    }
    hide Wrap, Sent, Placed;
  }

  lemma TiledSnoc(iss: uint32, mss: nat, log: seq<Attempt>, a: Attempt)
    requires Tiled(iss, mss, log) && !FinTried(log)
    requires Placed(iss, mss, a.segment, Sent(log), true)
    ensures Tiled(iss, mss, log + [a])
  {
    var log' := log + [a];
    forall i | 0 < i < |log'|
      ensures Placed(iss, mss, log'[i].segment, Sent(log'[..i]), i == |log'| - 1)
    {
      if i < |log| {
        EarlierStayPlaced(iss, mss, log, a, i);
      } else {
        assert log'[i] == a && log'[..i] == log;
      }
    }
    hide Wrap, Sent, Placed;
  }

  predicate Fitting(s: Outbound, mss: nat) {
    !s.syn && |s.payload| <= mss && (s.psh <==> s.payload != []) && (s.fin ==> s.payload == [])
  }

  /** One more attempt, numbered from sndNxt. */
  lemma AttemptKeepsTiling(iss: uint32, mss: nat, log: seq<Attempt>, a: Attempt, sndNxt: uint32, closed: bool, accepted: Bytes)
    requires Sends(iss, mss, log, sndNxt, closed, accepted) && !FinTried(log)
    requires a.segment.seqNo == sndNxt && Fitting(a.segment, mss)
    ensures sndNxt == Wrap(iss + 1 + |accepted|)
    ensures Sent(log + [a]) == accepted + (if a.ok then a.segment.payload else [])
    ensures Tiled(iss, mss, log + [a]) && FinTried(log + [a]) == a.segment.fin
  {
    hide Wrap, Sent, Tiled;
    SentSnoc(log, a);
    TiledSnoc(iss, mss, log, a);
  }

  /** An attempt that carries nothing, or fails to carry it, leaves the stream and sndNxt as they are. */
  lemma IdleAttemptKeepsSends(iss: uint32, mss: nat, log: seq<Attempt>, a: Attempt, sndNxt: uint32, closed: bool, accepted: Bytes)
    requires Sends(iss, mss, log, sndNxt, closed, accepted) && !FinTried(log)
    requires a.segment.seqNo == sndNxt && Fitting(a.segment, mss) && !a.segment.fin && (a.ok ==> a.segment.payload == [])
    ensures Sends(iss, mss, log + [a], sndNxt, closed, accepted)
  {
    hide Wrap, Sent, Tiled, FinTried;
    AttemptKeepsTiling(iss, mss, log, a, sndNxt, closed, accepted);
    assert accepted + [] == accepted;
  }

  lemma DataAttemptKeepsSends(iss: uint32, mss: nat, log: seq<Attempt>, a: Attempt, sndNxt: uint32, closed: bool, accepted: Bytes)
    requires Sends(iss, mss, log, sndNxt, closed, accepted) && !FinTried(log)
    requires a.segment.seqNo == sndNxt && Fitting(a.segment, mss) && !a.segment.fin && a.ok
    ensures Sends(iss, mss, log + [a], Wrap(sndNxt + |a.segment.payload|), closed, accepted + a.segment.payload)
  {
    hide Wrap, Sent, Tiled, FinTried;
    AttemptKeepsTiling(iss, mss, log, a, sndNxt, closed, accepted);
    WrapAdd(iss + 1 + |accepted|, |a.segment.payload|);
  }

  lemma FinAttemptKeepsSends(iss: uint32, mss: nat, log: seq<Attempt>, a: Attempt, sndNxt: uint32, closed: bool, accepted: Bytes)
    requires Sends(iss, mss, log, sndNxt, closed, accepted) && !FinTried(log)
    requires a.segment.seqNo == sndNxt && Fitting(a.segment, mss) && a.segment.fin
    ensures Sends(iss, mss, log + [a], Wrap(sndNxt + 1), true, accepted)
  {
    hide Wrap, Sent, Tiled, FinTried;
    AttemptKeepsTiling(iss, mss, log, a, sndNxt, closed, accepted);
    WrapAdd(iss + 1 + |accepted|, 1);
    assert accepted + [] == accepted;
  }

  /** No FIN has been tried on an open connection. */
  lemma OpenHasNoFin(iss: uint32, c: Conn, accepted: Bytes)
    requires Sending(iss, c, accepted) && !c.closed
    ensures !FinTried(c.log)
  {
  }

  lemma SendAckKeepsSending(iss: uint32, c: Conn, ok: bool, accepted: Bytes)
    requires Sending(iss, c, accepted) && !c.closed
    ensures Sending(iss, SendAck(c, ok), accepted)
  {
    OpenHasNoFin(iss, c, accepted);
    var a := Attempt(Outbound(c.sndNxt, c.rcvNxt, false, true, false, false, Echo(c), []), ok);
    IdleAttemptKeepsSends(iss, EffectiveMSS(c), c.log, a, c.sndNxt, c.closed, accepted);
    hide Sends, Wrap, FinTried;
  }

  lemma TakesKeepSending(iss: uint32, c: Conn, payload: Bytes, ok: bool, accepted: Bytes)
    requires Sending(iss, c, accepted) && !c.closed
    ensures Sending(iss, TakePayload(c, payload, ok), accepted)
    ensures Sending(iss, TakeFin(c, ok), accepted)
  {
    hide Wrap, Sends;
    SendAckKeepsSending(iss, c.(readBuf := c.readBuf + payload, rcvNxt := Wrap(c.rcvNxt + |payload|)), ok, accepted);
    SendAckKeepsSending(iss, c.(rcvNxt := Wrap(c.rcvNxt + 1), gotFIN := true), ok, accepted);
  }

  lemma HandleSegmentKeepsSending(iss: uint32, c: Conn, seg: Inbound, ok1: bool, ok2: bool, accepted: Bytes)
    requires Sending(iss, c, accepted)
    ensures Sending(iss, HandleSegment(c, seg, ok1, ok2).conn, accepted)
  {
    if !c.closed {
      var c1 := NoteEcho(c, seg);
      assert Sending(iss, c1, accepted) && !c1.closed by {
        hide Sends, TimestampEcho;
      }
      var c2 := TakePayload(c1, seg.payload, ok1);
      assert !c2.closed by {
        hide Wrap;
      }
      SendAckKeepsSending(iss, c1, ok1, accepted);
      TakesKeepSending(iss, c1, seg.payload, ok1, accepted);
      TakesKeepSending(iss, c1, [], ok2, accepted);
      TakesKeepSending(iss, c2, [], ok2, accepted);
    }
    hide Wrap, Sending, SendAck, TakePayload, TakeFin, NoteEcho;
  }

  lemma SendChunkKeepsSending(iss: uint32, c: Conn, chunk: Bytes, accepted: Bytes)
    requires Sending(iss, c, accepted) && !c.closed && 0 < |chunk| <= EffectiveMSS(c)
    ensures Sending(iss, Send(c, true, false, chunk, true).(sndNxt := Wrap(c.sndNxt + |chunk|)), accepted + chunk)
    ensures Sending(iss, Send(c, true, false, chunk, false), accepted)
  {
    OpenHasNoFin(iss, c, accepted);
    var segment := Outbound(c.sndNxt, c.rcvNxt, false, true, true, false, Echo(c), chunk);
    DataAttemptKeepsSends(iss, EffectiveMSS(c), c.log, Attempt(segment, true), c.sndNxt, c.closed, accepted);
    IdleAttemptKeepsSends(iss, EffectiveMSS(c), c.log, Attempt(segment, false), c.sndNxt, c.closed, accepted);
    hide Sends, Wrap, FinTried;
  }

  lemma PrefixGrows(accepted: Bytes, p: Bytes, n: nat, more: nat)
    requires n + more <= |p|
    ensures accepted + p[..0] == accepted
    ensures accepted + p[..n] + p[n..][..more] == accepted + p[..n + more]
  {
  }

  /** Whatever chunk fails, the stream of sent bytes grows by exactly the bytes that Write reports. */
  lemma {:induction false} WriteChunksKeepsSending(iss: uint32, c: Conn, p: Bytes, failAt: int, accepted: Bytes)
    requires Sending(iss, c, accepted) && !c.closed
    ensures var r := WriteChunks(c, p, failAt);
            Sending(iss, r.conn, accepted + p[..r.sent]) && r.conn.closed == c.closed
    decreases |p|
  {
    hide Wrap, Sending;
    PrefixGrows(accepted, p, 0, 0);
    if p != [] {
      var n := if EffectiveMSS(c) < |p| then EffectiveMSS(c) else |p|;
      SendChunkKeepsSending(iss, c, p[..n], accepted);
      if failAt != 0 {
        var next := Send(c, true, false, p[..n], true).(sndNxt := Wrap(c.sndNxt + n));
        WriteChunksKeepsSending(iss, next, p[n..], failAt - 1, accepted + p[..n]);
        var more := WriteChunks(next, p[n..], failAt - 1).sent;
        PrefixGrows(accepted, p, n, more);
      }
    }
  }

  lemma ClosingKeepsSends(iss: uint32, mss: nat, log: seq<Attempt>, sndNxt: uint32, closed: bool, accepted: Bytes)
    requires Sends(iss, mss, log, sndNxt, closed, accepted)
    ensures Sends(iss, mss, log, sndNxt, true, accepted)
  {
    hide Wrap, Sent, Tiled;
  }

  lemma CloseKeepsSending(iss: uint32, c: Conn, ok: bool, accepted: Bytes)
    requires Sending(iss, c, accepted)
    ensures Sending(iss, Close(c, ok).conn, accepted)
  {
    if !c.closed && c.err.None? {
      OpenHasNoFin(iss, c, accepted);
      var a := Attempt(Outbound(c.sndNxt, c.rcvNxt, false, true, false, true, Echo(c), []), ok);
      FinAttemptKeepsSends(iss, EffectiveMSS(c), c.log, a, c.sndNxt, c.closed, accepted);
    } else {
      ClosingKeepsSends(iss, EffectiveMSS(c), c.log, c.sndNxt, c.closed, accepted);
    }
    hide Sends, Wrap, FinTried;
  }

  lemma SynIsSent(iss: uint32, mss: nat)
    ensures Sends(iss, mss, [Syn(iss)], Wrap(iss + 1), false, [])
  {
    var log := [Syn(iss)];
    assert log[..0] == [] && Sent(log) == Sent([]) + log[0].segment.payload == [];
    assert iss + 1 + |Sent(log)| + 0 == iss + 1;
    hide Wrap, Placed;
  }

  ghost function Established(peer: Peer, useTS: bool, err: Option<ConnError>, tsEcho: uint32, synack: Inbound, ok: bool): Conn {
    Establish(Fresh(peer.iss, useTS).(err := err, tsEcho := tsEcho), peer.iss, synack, ok)
  }

  lemma EstablishedReceives(peer: Peer, useTS: bool, err: Option<ConnError>, tsEcho: uint32, synack: Inbound, ok: bool)
    requires Authentic(peer, synack) && IsSynAck(peer.iss, synack)
    ensures Receiving(peer, Established(peer, useTS, err, tsEcho, synack, ok), [])
  {
    hide TimestampEcho, SynackMSS;
  }

  lemma EstablishedSends(peer: Peer, useTS: bool, err: Option<ConnError>, tsEcho: uint32, synack: Inbound, ok: bool)
    ensures Sending(peer.iss, Established(peer, useTS, err, tsEcho, synack, ok), [])
  {
    hide TimestampEcho, SynackMSS, Wrap, Sends;
    var start := Fresh(peer.iss, useTS).(err := err, tsEcho := tsEcho);
    var c := start.(rcvNxt := Wrap(synack.seqNo + 1), tsEcho := TimestampEcho(synack.options),
                     peerMSS := SynackMSS(synack.options), sndNxt := Wrap(peer.iss + 1));
    SynIsSent(peer.iss, EffectiveMSS(c));
    SendAckKeepsSending(peer.iss, c, ok, []);
  }

  /** The handshake leaves the connection at the start of both streams. */
  lemma EstablishInitialises(peer: Peer, useTS: bool, err: Option<ConnError>, tsEcho: uint32, synack: Inbound, ok: bool)
    requires Authentic(peer, synack) && IsSynAck(peer.iss, synack)
    ensures var c := Establish(Fresh(peer.iss, useTS).(err := err, tsEcho := tsEcho), peer.iss, synack, ok);
            && Receiving(peer, c, [])
            && (Fits(peer) ==> Acknowledging(peer, c, []))
            && Sending(peer.iss, c, [])
  {
    hide TimestampEcho, SynackMSS, Wrap, Receiving, Sending, Authentic;
    var c := Established(peer, useTS, err, tsEcho, synack, ok);
    EstablishedReceives(peer, useTS, err, tsEcho, synack, ok);
    EstablishedSends(peer, useTS, err, tsEcho, synack, ok);
    if Fits(peer) {
      RcvNxtIsTaken(peer, c, []);
    }
  }
}
