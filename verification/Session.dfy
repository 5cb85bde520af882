/** The HTTP/1 loop of execute (internal/curlu/client.go): all requests of one invocation, on as few
    connections as the responses allow. */
module Session {
  import opened Wrappers
  import opened Readers
  import opened Responses

  datatype NetEvent = Opened(k: nat) | OpenFailed | Closed(k: nat) | Sent(k: nat, target: nat, ok: bool)

  function Opens(trace: seq<NetEvent>): nat {
    if trace == [] then 0 else Opens(trace[..|trace| - 1]) + if trace[|trace| - 1].Opened? then 1 else 0
  }

  /** The connections opened and not yet closed. */
  function Live(trace: seq<NetEvent>): set<nat> {
    if trace == [] then {}
    else
      var before := Live(trace[..|trace| - 1]);
      match trace[|trace| - 1]
      case Opened(k) => before + {k}
      case Closed(k) => before - {k}
      case _ => before
  }

  /** A connection is only opened when none is open, and only the open connection is used or closed.
      Connections are numbered as they are opened. */
  ghost predicate Disciplined(trace: seq<NetEvent>) {
    trace == [] ||
    var before := trace[..|trace| - 1];
    && Disciplined(before)
    && match trace[|trace| - 1]
       case Opened(k) => Live(before) == {} && k == Opens(before)
       case OpenFailed => Live(before) == {}
       case Closed(k) => Live(before) == {k}
       case Sent(k, _, _) => Live(before) == {k}
  }

  function Closes(trace: seq<NetEvent>, k: nat): nat {
    if trace == [] then 0 else Closes(trace[..|trace| - 1], k) + if trace[|trace| - 1] == Closed(k) then 1 else 0
  }

  /** The targets requested, in order. */
  function Requested(trace: seq<NetEvent>): seq<nat> {
    if trace == [] then []
    else
      var last := trace[|trace| - 1];
      Requested(trace[..|trace| - 1]) + if last.Sent? && last.ok then [last.target] else []
  }

  /** At any point of a disciplined run at most one connection is open; a connection not open by then has
      been closed exactly once if it was ever opened. */
  lemma {:induction false} DisciplineBounds(trace: seq<NetEvent>, k: nat)
    requires Disciplined(trace)
    ensures |Live(trace)| <= 1 && (k in Live(trace) ==> k < Opens(trace))
    ensures Closes(trace, k) == if k < Opens(trace) && k !in Live(trace) then 1 else 0
  {
    if trace != [] {
      DisciplineBounds(trace[..|trace| - 1], k);
    }
  }

  lemma {:induction false} PrefixIsDisciplined(trace: seq<NetEvent>, n: nat)
    requires Disciplined(trace) && n <= |trace|
    ensures Disciplined(trace[..n])
  {
    if n < |trace| {
      PrefixIsDisciplined(trace[..|trace| - 1], n);
      assert trace[..|trace| - 1][..n] == trace[..n];
    } else {
      assert trace[..n] == trace;
    }
  }

  /** Over a finished run: never two connections at once, and every connection closed exactly once. */
  lemma OneConnectionAtATime(trace: seq<NetEvent>)
    requires Disciplined(trace) && Live(trace) == {}
    ensures forall n: nat :: n <= |trace| ==> |Live(trace[..n])| <= 1
    ensures forall k: nat :: k < Opens(trace) ==> Closes(trace, k) == 1
  {
    forall n: nat | n <= |trace| ensures |Live(trace[..n])| <= 1 {
      PrefixIsDisciplined(trace, n);
      DisciplineBounds(trace[..n], 0);
    }
    forall k: nat | k < Opens(trace) ensures Closes(trace, k) == 1 {
      DisciplineBounds(trace, k);
    }
  }

  /** The network: connection number `k` can be opened if `reachable(k)`, and will deliver `deliver(k)`. */
  class Network {
    const reachable: nat -> bool
    const deliver: nat -> string
    var trace: seq<NetEvent>

    method Connect() returns (conn: Option<nat>)
      modifies this
      ensures conn.Some? <==> reachable(Opens(old(trace)))
      ensures match conn
              case Some(k) => k == Opens(old(trace)) && trace == old(trace) + [Opened(k)]
              case None => trace == old(trace) + [OpenFailed]
    {
      if reachable(Opens(trace)) {
        conn := Some(Opens(trace));
        trace := trace + [Opened(conn.value)];
      } else {
        conn := None;
        trace := trace + [OpenFailed];
      }
    }

    method Close(k: nat)
      modifies this
      ensures trace == old(trace) + [Closed(k)]
    {
      trace := trace + [Closed(k)];
    }

    method Request(k: nat, target: nat) returns (ok: bool)
      modifies this
      ensures trace == old(trace) + [Sent(k, target, ok)]
    {
      ok := *;
      trace := trace + [Sent(k, target, ok)];
    }
  }

  /** Everything outside the client that a run depends on, but for failing sends and writes. */
  datatype Setting = Setting(interpret: Interpreter, showHeaders: bool, reachable: nat -> bool, deliver: nat -> string)

  datatype Transcript = Transcript(output: string, connects: nat)

  /** Why a run has no transcript: a response is refused, or a further connection cannot be opened. */
  datatype Halt = Refusal(trouble: Trouble) | NoConnection

  function PrintedBefore(printed: string, later: Result<Transcript, Halt>): Result<Transcript, Halt> {
    if later.Failure? then later else Success(later.value.(output := printed + later.value.output))
  }

  /** What a run of `n` more requests prints, on connection `k` that still delivers `s`, and how many
      connections it has opened in the end. */
  ghost function Play(env: Setting, k: nat, s: string, n: nat): Result<Transcript, Halt>
    decreases n, 0
  {
    if n == 0 then Success(Transcript("", k + 1))
    else
      var reply := ReplyTo(env.interpret, env.showHeaders, s);
      if reply.Refused? then Failure(Refusal(reply.trouble))
      else PrintedBefore(reply.output, Rest(env, k, reply.rest, n - 1, reply.reuse))
  }

  /** What is still to be played, given whether the last response lets the connection be reused. */
  ghost function Rest(env: Setting, k: nat, s: string, n: nat, reuse: bool): Result<Transcript, Halt>
    decreases n, 1
  {
    if reuse || n == 0 then Play(env, k, s, n)
    else if !env.reachable(k + 1) then Failure(NoConnection)
    else Play(env, k + 1, env.deliver(k + 1), n)
  }

  /** All connections opened so far have been closed. */
  ghost predicate Idle(trace: seq<NetEvent>) {
    Disciplined(trace) && Live(trace) == {}
  }

  /** The connection opened last, `k`, is the only open one. */
  ghost predicate Connected(trace: seq<NetEvent>, k: nat) {
    Disciplined(trace) && Live(trace) == {k} && Opens(trace) == k + 1
  }

  ghost predicate ReconnectFailed(trace: seq<NetEvent>) {
    trace != [] && trace[|trace| - 1] == OpenFailed && Opens(trace) > 0
  }

  lemma ConnectStep(trace: seq<NetEvent>)
    requires Idle(trace)
    ensures Connected(trace + [Opened(Opens(trace))], Opens(trace)) && Idle(trace + [OpenFailed])
    ensures Requested(trace + [Opened(Opens(trace))]) == Requested(trace) == Requested(trace + [OpenFailed])
    ensures ReconnectFailed(trace + [OpenFailed]) <==> Opens(trace) > 0
  {
    assert (trace + [Opened(Opens(trace))])[..|trace|] == trace;
    assert (trace + [OpenFailed])[..|trace|] == trace;
    assert Requested(trace) + [] == Requested(trace);
  }

  lemma CloseStep(trace: seq<NetEvent>, k: nat)
    requires Connected(trace, k)
    ensures Idle(trace + [Closed(k)]) && Opens(trace + [Closed(k)]) == k + 1
    ensures Requested(trace + [Closed(k)]) == Requested(trace) && !ReconnectFailed(trace + [Closed(k)])
  {
    assert (trace + [Closed(k)])[..|trace|] == trace;
    assert Requested(trace) + [] == Requested(trace);
  }

  lemma RequestStep(trace: seq<NetEvent>, k: nat, target: nat, ok: bool)
    requires Connected(trace, k)
    ensures Connected(trace + [Sent(k, target, ok)], k)
    ensures ok ==> Requested(trace + [Sent(k, target, ok)]) == Requested(trace) + [target]
  {
    assert (trace + [Sent(k, target, ok)])[..|trace|] == trace;
  }

  function FirstTargets(n: nat): (targets: seq<nat>)
    ensures |targets| == n && forall i :: 0 <= i < n ==> targets[i] == i
  {
    if n == 0 then [] else FirstTargets(n - 1) + [n - 1]
  }

  datatype Cause = Connecting | Sending | Response | Writing

  /** `NilConnection`: after a reconnect has failed, the deferred close calls a method of no connection. */
  datatype Exit = Ok | Error(cause: Cause, code: nat) | NilConnection

  /** The last request did not go out, and the connection was closed. */
  ghost predicate SendFailed(trace: seq<NetEvent>) {
    |trace| >= 2 && trace[|trace| - 2].Sent? && !trace[|trace| - 2].ok
  }

  lemma NextTarget(i: nat)
    ensures FirstTargets(i + 1) == FirstTargets(i) + [i]
  {
  }

  // ----- The steps of a run -----

  lemma StartOfRun(env: Setting, trace: seq<NetEvent>, n: nat)
    ensures Rest(env, 0, env.deliver(0), n, true) == Play(env, 0, env.deliver(0), n)
    ensures trace == [] ==> Idle(trace) && Opens(trace) == 0 && Requested(trace) == FirstTargets(0) && !ReconnectFailed(trace)
  {
  }

  /** Once the connection to use is known, the rest is played on it. */
  lemma RestPlays(env: Setting, k: nat, s: string, n: nat, reuse: bool)
    requires n > 0
    ensures Rest(env, k, s, n, reuse)
            == if reuse then Play(env, k, s, n)
               else if !env.reachable(k + 1) then Failure(NoConnection)
               else Play(env, k + 1, env.deliver(k + 1), n)
  {
  }

  lemma OneReply(env: Setting, k: nat, s: string, n: nat, printed: string)
    requires n > 0
    ensures var reply := ReplyTo(env.interpret, env.showHeaders, s);
            PrintedBefore(printed, Play(env, k, s, n))
            == if reply.Refused? then Failure(Refusal(reply.trouble))
               else PrintedBefore(printed + reply.output, Rest(env, k, reply.rest, n - 1, reply.reuse))
  {
    hide ReplyTo, Rest;
    var reply := ReplyTo(env.interpret, env.showHeaders, s);
    if reply.Replied? {
      var later := Rest(env, k, reply.rest, n - 1, reply.reuse);
      if later.Success? {
        assert printed + (reply.output + later.value.output) == (printed + reply.output) + later.value.output;
      }
    }
  }

  lemma EndOfRun(env: Setting, k: nat, s: string, reuse: bool, printed: string)
    ensures PrintedBefore(printed, Rest(env, k, s, 0, reuse)) == Success(Transcript(printed, k + 1))
  {
    assert printed + "" == printed;
  }

  lemma PrintedInAll(start: string, played: Result<Transcript, Halt>)
    ensures match PrintedBefore(start, played)
            case Failure(halt) => played == Failure(halt)
            case Success(t) => played.Success? && t == Transcript(start + played.value.output, played.value.connects)
  {
  }

  // ----- Conservation over the whole run -----

  /** The server answers with `answers`, each with the word whether it closes the connection: the first on
      connection `k`, of which `s` is still to come, and the next one behind it or on the next connection. */
  ghost predicate Serves(env: Setting, k: nat, s: string, answers: seq<(Exchange, bool)>)
    decreases |answers|
  {
    answers == [] ||
    var (x, close) := answers[0];
    && WellFormed(env.interpret, x, close)
    && Wire(x) <= s
    && if close && |answers| > 1 then Serves(env, k + 1, env.deliver(k + 1), answers[1..])
       else Serves(env, k, s[|Wire(x)|..], answers[1..])
  }

  function AllPrinted(showHeaders: bool, answers: seq<(Exchange, bool)>): string {
    if answers == [] then "" else Printed(showHeaders, answers[0].0) + AllPrinted(showHeaders, answers[1..])
  }

  /** The answers that close the connection before the last answer. */
  function ClosingBeforeLast(answers: seq<(Exchange, bool)>): nat {
    if |answers| <= 1 then 0 else (if answers[0].1 then 1 else 0) + ClosingBeforeLast(answers[1..])
  }

  /** The next `n` connections behind connection `k` can be opened. */
  predicate AllReachable(env: Setting, k: nat, n: nat) {
    forall j :: k < j <= k + n ==> env.reachable(j)
  }

  /** One answer is taken off the connection and printed. */
  lemma OneAnswer(env: Setting, k: nat, s: string, x: Exchange, close: bool, n: nat)
    requires n > 0 && WellFormed(env.interpret, x, close) && Wire(x) <= s
    ensures Play(env, k, s, n) == PrintedBefore(Printed(env.showHeaders, x), Rest(env, k, s[|Wire(x)|..], n - 1, !close))
  {
    hide ReplyTo, WellFormed, Wire, Printed, Rest, PrintedBefore;
    assert s == Wire(x) + s[|Wire(x)|..];
    ReplyToWire(env.interpret, env.showHeaders, x, close, s[|Wire(x)|..]);
  }

  /** Whatever number of answers, with whatever interim responses, on connections closed at whatever
      points: the run needs one connection and one more for every answer before the last that closes. If
      and only if all of them can be opened it has a transcript, in which each answer is printed once and
      in order; else it ends at the connection that fails. */
  lemma {:induction false} RunPrintsEveryAnswer(env: Setting, k: nat, s: string, answers: seq<(Exchange, bool)>)
    requires Serves(env, k, s, answers)
    ensures Play(env, k, s, |answers|)
            == if AllReachable(env, k, ClosingBeforeLast(answers))
               then Success(Transcript(AllPrinted(env.showHeaders, answers), k + 1 + ClosingBeforeLast(answers)))
               else Failure(NoConnection)
    decreases |answers|
  {
    hide ReplyTo, WellFormed, Wire, Printed;
    if answers != [] {
      var (x, close) := answers[0];
      var rest := s[|Wire(x)|..];
      OneAnswer(env, k, s, x, close, |answers|);
      if close && |answers| > 1 {
        RunPrintsEveryAnswer(env, k + 1, env.deliver(k + 1), answers[1..]);
        var n := ClosingBeforeLast(answers[1..]);
        assert AllReachable(env, k, n + 1) <==> env.reachable(k + 1) && AllReachable(env, k + 1, n);
      } else {
        RunPrintsEveryAnswer(env, k, rest, answers[1..]);
      }
    }
  }

  // ----- The loop -----

  /** Before a further request: the old connection and reader, or a new one of each. */
  method Prepare(net: Network, conn: nat, reader: Reader, reuse: bool, bufferSize: nat)
      returns (current: Option<nat>, ready: Reader)
    requires reader.Valid() && Connected(net.trace, conn) && bufferSize > 0
    modifies net
    ensures ready.Valid() && fresh(ready.repr - reader.repr)
    ensures Requested(net.trace) == old(Requested(net.trace))
    ensures current.None? <==> !reuse && !net.reachable(conn + 1)
    ensures current.None? ==> Idle(net.trace) && ReconnectFailed(net.trace)
    ensures current.Some? ==>
              && current.value == (if reuse then conn else conn + 1) && Connected(net.trace, current.value)
              && ready.Remaining() == if reuse then reader.Remaining() else net.deliver(conn + 1)
  {
    hide Disciplined, Live, Opens, Requested, ReconnectFailed, Idle, Connected;
    if reuse {
      return Some(conn), reader;
    }
    ready := reader;
    CloseStep(net.trace, conn);
    net.Close(conn);
    ConnectStep(net.trace);
    current := net.Connect();
    if current.Some? {
      ready := new Reader.OnConnection(bufferSize, net.deliver(current.value));
    }
  }

  /** One request and its response; on trouble, the deferred close. */
  method RoundTrip(net: Network, conn: nat, target: nat, reader: Reader, out: Output, showHeaders: bool, interpret: Interpreter)
      returns (exit: Exit, reuse: bool, next: Reader)
    requires reader.Valid() && Connected(net.trace, conn)
    modifies net, out, reader.repr
    ensures exit != NilConnection
    ensures exit != Ok ==> Idle(net.trace) && !ReconnectFailed(net.trace)
    ensures exit.Error? ==>
              match exit.cause
              case Connecting => false
              case Sending => SendFailed(net.trace) && exit.code in {28, 55}
              case Response =>
                var reply := ReplyTo(interpret, showHeaders, old(reader.Remaining()));
                reply.Refused? && CodeFor(reply.trouble, exit.code)
              case Writing => exit.code == 23
    ensures exit == Ok ==>
              && Connected(net.trace, conn) && Requested(net.trace) == old(Requested(net.trace)) + [target]
              && next.Valid() && fresh(next.repr - reader.repr)
              && var reply := ReplyTo(interpret, showHeaders, old(reader.Remaining()));
                 && reply.Replied? && reply.rest == next.Remaining() && reply.reuse == reuse
                 && out.data == old(out.data) + reply.output
  {
    hide Disciplined, Live, Opens, Requested, ReconnectFailed, Idle, Connected, ReplyTo, CodeFor;
    reuse, next := false, reader;
    RequestStep(net.trace, conn, target, true);
    RequestStep(net.trace, conn, target, false);
    var sent := net.Request(conn, target);
    CloseStep(net.trace, conn);
    if !sent {
      net.Close(conn);
      var timedOut: bool := *;
      return Error(Sending, if timedOut then 28 else 55), reuse, next;
    }
    var turn: Turn;
    turn, next := ReadResponse(reader, out, showHeaders, interpret);
    if turn.Failed? {
      net.Close(conn);
      return Error(Response, turn.code), reuse, next;
    }
    if turn.OutputFailed? {
      net.Close(conn);
      return Error(Writing, 23), reuse, next;
    }
    return Ok, turn.reuse, next;
  }

  /** One round of the loop: the connection to use, and one request and its response on it. What was
      still to be played is then played, but for this response. */
  method OneTarget(net: Network, conn: nat, target: nat, reader: Reader, reuse: bool, bufferSize: nat, out: Output,
                   showHeaders: bool, interpret: Interpreter, ghost left: nat)
      returns (exit: Exit, current: nat, keep: bool, next: Reader)
    requires reader.Valid() && Connected(net.trace, conn) && bufferSize > 0 && left > 0
    modifies net, out, reader.repr
    ensures exit == Ok ==>
              && Connected(net.trace, current) && Requested(net.trace) == old(Requested(net.trace)) + [target]
              && next.Valid() && fresh(next.repr - reader.repr)
    ensures exit != Ok ==> Idle(net.trace) && (exit == NilConnection <==> ReconnectFailed(net.trace))
    ensures var env := Setting(interpret, showHeaders, net.reachable, net.deliver);
            var goal := PrintedBefore(old(out.data), Rest(env, conn, old(reader.Remaining()), left, reuse));
            match exit
            case Ok => goal == PrintedBefore(out.data, Rest(env, current, next.Remaining(), left - 1, keep))
            case NilConnection => goal == Failure(NoConnection) && !reuse
            case Error(Connecting, _) => false
            case Error(Sending, code) => SendFailed(net.trace) && code in {28, 55}
            case Error(Response, code) => goal.Failure? && goal.error.Refusal? && CodeFor(goal.error.trouble, code)
            case Error(Writing, code) => code == 23
  {
    hide Disciplined, Live, Opens, Requested, ReconnectFailed, Idle, Connected, SendFailed;
    hide Play, Rest, ReplyTo, CodeFor, Reader.Valid, Reader.Remaining;
    ghost var env := Setting(interpret, showHeaders, net.reachable, net.deliver);
    RestPlays(env, conn, reader.Remaining(), left, reuse);
    var prepared, ready := Prepare(net, conn, reader, reuse, bufferSize);
    if prepared.None? {
      return NilConnection, conn, reuse, ready;
    }
    current := prepared.value;
    OneReply(env, current, ready.Remaining(), left, out.data);
    exit, keep, next := RoundTrip(net, current, target, ready, out, showHeaders, interpret);
  }

  /** On every way out all connections have been closed, each once, and never were two open together. A
      completed run has requested all targets in order and printed exactly the run's transcript. Any other
      run says why: a send or a write failed, or the run has no transcript for the very reason reported.
      The nil connection is closed if and only if a reconnect failed, which takes a second target. */
  method Execute(net: Network, out: Output, targets: nat, bufferSize: nat, showHeaders: bool, interpret: Interpreter)
      returns (exit: Exit)
    requires net.trace == [] && targets > 0 && bufferSize > 0
    modifies net, out
    ensures Idle(net.trace)
    ensures exit == NilConnection <==> ReconnectFailed(net.trace)
    ensures var played := Play(Setting(interpret, showHeaders, net.reachable, net.deliver), 0, net.deliver(0), targets);
            match exit
            case Ok =>
              && Requested(net.trace) == FirstTargets(targets)
              && played.Success? && played.value.connects == Opens(net.trace)
              && out.data == old(out.data) + played.value.output
            case NilConnection => played == Failure(NoConnection) && targets > 1
            case Error(Connecting, _) => net.trace == [OpenFailed] && !net.reachable(0)
            case Error(Sending, code) => SendFailed(net.trace) && code in {28, 55}
            case Error(Response, code) =>
              played.Failure? && played.error.Refusal? && CodeFor(played.error.trouble, code)
            case Error(Writing, code) => code == 23
  {
    hide Disciplined, Live, Opens, Requested, ReconnectFailed, Idle, Connected, FirstTargets, SendFailed;
    hide Play, Rest, PrintedBefore, ReplyTo, CodeFor, Reader.Valid, Reader.Remaining;
    ghost var env := Setting(interpret, showHeaders, net.reachable, net.deliver);
    ghost var goal := PrintedBefore(out.data, Play(env, 0, net.deliver(0), targets));
    PrintedInAll(out.data, Play(env, 0, net.deliver(0), targets));
    StartOfRun(env, net.trace, targets);
    ConnectStep(net.trace);
    var dialed := net.Connect();
    if dialed.None? {
      var code: nat := *;
      return Error(Connecting, code);
    }
    var conn := dialed.value;
    var reader := new Reader.OnConnection(bufferSize, net.deliver(conn));
    var reuse := true;
    var i := 0;
    while i < targets
      invariant 0 <= i <= targets && reader.Valid() && fresh(reader.repr)
      invariant Connected(net.trace, conn) && Requested(net.trace) == FirstTargets(i)
      invariant i == 0 ==> reuse
      invariant goal == PrintedBefore(out.data, Rest(env, conn, reader.Remaining(), targets - i, reuse))
    {
      var done, current, keep, next :=
        OneTarget(net, conn, i, reader, reuse, bufferSize, out, showHeaders, interpret, targets - i);
      if done != Ok {
        return done;
      }
      NextTarget(i);
      conn, reader, reuse, i := current, next, keep, i + 1;
    }
    CloseStep(net.trace, conn);
    EndOfRun(env, conn, reader.Remaining(), reuse, out.data);
    net.Close(conn);
    return Ok;
  }
}
