/** The client end of a JA4T connection: its state and what each critical section of
    internal/curlu/tcpraw.go does to it. Everything a section may find out from outside
    (does a packet go out, has a deadline passed) is a parameter. */
module Tcp {
  import opened Wrappers
  import opened Word32

  type Bytes = seq<byte>

  const DEFAULT_MSS: uint16 := 1460
  const KIND_MSS: byte := 2
  const KIND_TIMESTAMPS: byte := 8

  datatype TcpOption = TcpOption(kind: byte, data: Bytes)

  /** A segment received from the peer. */
  datatype Inbound = Inbound(seqNo: uint32, ackNo: uint32, syn: bool, ack: bool, fin: bool,
                             options: seq<TcpOption>, payload: Bytes)

  /** A segment built by the client; `echo` is the timestamp echoed when timestamps are in use. */
  datatype Outbound = Outbound(seqNo: uint32, ackNo: uint32, syn: bool, ack: bool, psh: bool, fin: bool,
                               echo: Option<uint32>, payload: Bytes)

  /** One call of the packet writer: the segment, and whether the call succeeded. */
  datatype Attempt = Attempt(segment: Outbound, ok: bool)

  datatype ConnError = Reset | IoFailure(code: int)

  /** The connection state guarded by the mutex, with the log of all packets attempted so far. */
  datatype Conn = Conn(useTS: bool, peerMSS: uint16, sndNxt: uint32, rcvNxt: uint32, tsEcho: uint32,
                       readBuf: Bytes, closed: bool, gotFIN: bool, err: Option<ConnError>, log: seq<Attempt>)

  /** What a critical section does: the state it leaves, and whether it broadcast on the condition. */
  datatype Effect = Effect(conn: Conn, broadcast: bool)

  datatype ReadResult = Data(bytes: Bytes) | Failed(err: ConnError) | Eof | TimedOut

  datatype WriteError = Broken(err: ConnError) | Closed | SendFailed | Expired

  datatype WriteResult = WriteResult(conn: Conn, sent: nat, error: Option<WriteError>)

  function BigEndian16(data: Bytes): uint16
    requires |data| >= 2
  {
    data[0] as int * 256 + data[1]
  }

  function BigEndian32(data: Bytes): uint32
    requires |data| >= 4
  {
    ((data[0] as int * 256 + data[1]) * 256 + data[2]) * 256 + data[3]
  }

  /** The index of the first option of that kind with at least `size` data bytes, or |options|. */
  ghost function FirstOption(options: seq<TcpOption>, kind: byte, size: nat): (i: nat)
    ensures i <= |options|
    ensures i < |options| ==> options[i].kind == kind && |options[i].data| >= size
    ensures forall j :: 0 <= j < i ==> !(options[j].kind == kind && |options[j].data| >= size)
  {
    if options == [] || (options[0].kind == kind && |options[0].data| >= size) then 0
    else 1 + FirstOption(options[1..], kind, size)
  }

  ghost function TimestampEcho(options: seq<TcpOption>): uint32 {
    var i := FirstOption(options, KIND_TIMESTAMPS, 4);
    if i < |options| then BigEndian32(options[i].data) else 0
  }

  ghost function SynackMSS(options: seq<TcpOption>): uint16 {
    var i := FirstOption(options, KIND_MSS, 2);
    if i < |options| then BigEndian16(options[i].data) else DEFAULT_MSS
  }

  /** The bytes put in one data segment at most. */
  function EffectiveMSS(c: Conn): (mss: nat)
    ensures 1 <= mss < 65536
  {
    if c.peerMSS == 0 then DEFAULT_MSS else c.peerMSS
  }

  function Echo(c: Conn): Option<uint32> {
    if c.useTS then Some(c.tsEcho) else None
  }

  /** sendLocked: one attempt, numbered from the current state, which it does not advance. */
  function Send(c: Conn, psh: bool, fin: bool, payload: Bytes, ok: bool): Conn {
    c.(log := c.log + [Attempt(Outbound(c.sndNxt, c.rcvNxt, false, true, psh, fin, Echo(c), payload), ok)])
  }

  function SendAck(c: Conn, ok: bool): Conn {
    Send(c, false, false, [], ok)
  }

  /** The first packet of a connection. */
  function Syn(iss: uint32): Attempt {
    Attempt(Outbound(iss, 0, true, false, false, false, None, []), true)
  }

  function Fresh(iss: uint32, useTS: bool): Conn {
    Conn(useTS, 0, 0, 0, 0, [], false, false, None, [Syn(iss)])
  }

  /** waitSYNACK's test. */
  predicate IsSynAck(iss: uint32, seg: Inbound) {
    seg.syn && seg.ack && seg.ackNo == Wrap(iss + 1)
  }

  /** The state after the SYN-ACK is taken and the handshake's ACK is attempted. */
  ghost function Establish(c: Conn, iss: uint32, synack: Inbound, ok: bool): Conn {
    SendAck(c.(rcvNxt := Wrap(synack.seqNo + 1), tsEcho := TimestampEcho(synack.options),
               peerMSS := SynackMSS(synack.options), sndNxt := Wrap(iss + 1)), ok)
  }

  ghost function NoteEcho(c: Conn, seg: Inbound): Conn {
    var echo := TimestampEcho(seg.options);
    if echo != 0 then c.(tsEcho := echo) else c
  }

  function TakePayload(c: Conn, payload: Bytes, ok: bool): Conn {
    SendAck(c.(readBuf := c.readBuf + payload, rcvNxt := Wrap(c.rcvNxt + |payload|)), ok)
  }

  function TakeFin(c: Conn, ok: bool): Conn {
    SendAck(c.(rcvNxt := Wrap(c.rcvNxt + 1), gotFIN := true), ok)
  }

  /** handleSegment: only a segment that starts exactly at rcvNxt is taken; any other is answered with an ACK. */
  ghost function HandleSegment(c: Conn, seg: Inbound, ok1: bool, ok2: bool): Effect {
    if c.closed then Effect(c, false)
    else
      var c1 := NoteEcho(c, seg);
      if seg.seqNo != c1.rcvNxt then Effect(SendAck(c1, ok1), false)
      else
        var c2 := if |seg.payload| > 0 then TakePayload(c1, seg.payload, ok1) else c1;
        var c3 := if seg.fin then TakeFin(c2, ok2) else c2;
        Effect(c3, |seg.payload| > 0 || seg.fin)
  }

  /** The condition on which Read goes on waiting. */
  predicate MustWait(c: Conn) {
    c.readBuf == [] && c.err.None? && !c.gotFIN && !c.closed
  }

  /** What Read answers once it need not wait: at most `room` buffered bytes, else the error, else end of file. */
  function ReadAnswer(c: Conn, room: nat): ReadResult {
    if c.readBuf != [] then Data(c.readBuf[..if room < |c.readBuf| then room else |c.readBuf|])
    else if c.err.Some? then Failed(c.err.value)
    else Eof
  }

  function AfterRead(c: Conn, room: nat): Conn {
    var answer := ReadAnswer(c, room);
    if answer.Data? then c.(readBuf := c.readBuf[|answer.bytes|..]) else c
  }

  /** Write's loop: chunks of at most the MSS until one send fails. Chunk number `failAt` is the one
      that fails; a negative `failAt` lets all of them through. */
  function WriteChunks(c: Conn, p: Bytes, failAt: int): (r: WriteResult)
    ensures r.sent <= |p|
    ensures r.error.None? ==> r.sent == |p|
    decreases |p|
  {
    if p == [] then WriteResult(c, 0, None)
    else
      var n := if EffectiveMSS(c) < |p| then EffectiveMSS(c) else |p|;
      var tried := Send(c, true, false, p[..n], failAt != 0);
      if failAt == 0 then WriteResult(tried, 0, Some(SendFailed))
      else
        var rest := WriteChunks(tried.(sndNxt := Wrap(c.sndNxt + n)), p[n..], failAt - 1);
        WriteResult(rest.conn, n + rest.sent, rest.error)
  }

  function Write(c: Conn, p: Bytes, failAt: int): WriteResult {
    if c.err.Some? then WriteResult(c, 0, Some(Broken(c.err.value)))
    else if c.closed then WriteResult(c, 0, Some(Closed))
    else WriteChunks(c, p, failAt)
  }

  /** Close's critical section: a FIN only on an open connection without error. */
  function Close(c: Conn, ok: bool): Effect {
    var c1 := if !c.closed && c.err.None? then Send(c, false, true, [], ok).(sndNxt := Wrap(c.sndNxt + 1)) else c;
    Effect(c1.(closed := true), true)
  }

  /** fail keeps the first error. */
  function Fail(c: Conn, err: ConnError): Effect {
    Effect(if c.err.None? then c.(err := Some(err)) else c, true)
  }
}
