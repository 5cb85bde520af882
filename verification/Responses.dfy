/** Reading one response: readNextResponse and readResponse of internal/curlu/client.go. The HTTP library
    is represented by `interpret`, which says what a header block means. */
module Responses {
  import opened Wrappers
  import opened Readers
  import opened HeaderBlocks

  /** How many bytes of the stream the body takes. */
  datatype Framing = Length(n: nat) | ToClose

  datatype Head = Head(status: nat, framing: Framing, close: bool) {
    predicate Interim() {
      100 <= status < 200 && status != 101
    }

    /** The connection can carry another request afterwards. */
    predicate KeepsAlive() {
      !close && framing.Length?
    }
  }

  type Interpreter = string -> Option<Head>

  /** `BadHeader` carries the length of the stream that has no header block. */
  datatype Trouble = EmptyReply | BadHeader(length: nat) | Invalid | Upgrade | PartialBody

  /** What a stream of responses means for one request: the output, the bytes behind the response and
      whether the connection can be used again; or the trouble. */
  datatype Reply = Replied(output: string, rest: string, reuse: bool) | Refused(trouble: Trouble)

  /** A reply put behind output already written. */
  function Behind(output: string, reply: Reply): Reply {
    if reply.Replied? then reply.(output := output + reply.output) else reply
  }

  function Shown(showHeaders: bool, block: string): string {
    if showHeaders then block else ""
  }

  /** The final response whose header block is `block`, with `rest` behind it. */
  function FinalReply(head: Head, block: string, rest: string, showHeaders: bool): Reply {
    match head.framing
    case ToClose => Replied(Shown(showHeaders, block) + rest, "", false)
    case Length(n) =>
      if n > |rest| then Refused(PartialBody)
      else Replied(Shown(showHeaders, block) + rest[..n], rest[n..], head.KeepsAlive())
  }

  ghost function ReplyTo(interpret: Interpreter, showHeaders: bool, s: string): Reply
    decreases |s|
  {
    var header := HeaderBlockOf(s);
    if header.None? then Refused(if s == "" then EmptyReply else BadHeader(|s|))
    else
      var block, rest := header.value, s[|header.value|..];
      var head := interpret(block);
      if head.None? then Refused(Invalid)
      else if head.value.Interim() then Behind(Shown(showHeaders, block), ReplyTo(interpret, showHeaders, rest))
      else if head.value.status == 101 then Refused(Upgrade)
      else FinalReply(head.value, block, rest, showHeaders)
  }

  // ----- The loops -----

  /** Standard output. */
  class Output {
    var data: string

    method Write(s: string) returns (ok: bool)
      modifies this
      ensures ok ==> data == old(data) + s
    {
      ok := *;
      if ok {
        data := data + s;
      }
    }
  }

  datatype Turn = Done(reuse: bool) | Failed(code: nat) | OutputFailed

  /** The exit code for a trouble. Only where the stream ends at the very limit of a header block does the
      code depend on how the bytes arrive. */
  predicate CodeFor(trouble: Trouble, code: nat) {
    match trouble
    case EmptyReply => code == 52
    case BadHeader(length) =>
      if length < MAX_HEADER_BYTES then code == 56
      else if length > MAX_HEADER_BYTES then code == 8
      else code == 8 || code == 56
    case Invalid => code == 8
    case Upgrade => code == 8
    case PartialBody => code == 18
  }

  lemma HeaderBlockRead(s: string, r: Result<string, HeaderError>, rest: string)
    requires Outcome(s, r, rest)
    ensures r.Success? ==> HeaderBlockOf(s) == Some(r.value) && rest == s[|r.value|..] && r.value != ""
    ensures r.Failure? ==> HeaderBlockOf(s) == None && (s == "" <==> r.error == Broken(""))
    ensures r == Failure(TooLarge) ==> |s| >= MAX_HEADER_BYTES
    ensures r.Failure? && r.error.Broken? ==> |s| <= MAX_HEADER_BYTES
  {
    SuccessIsDetermined(s, r, rest);
    hide NoBlankLine;
  }

  /** The library reads the replayed block again and stands behind it. */
  method ParseReplayed(next: Reader, ghost block: string, ghost rest: string)
    requires next.Valid() && next.Remaining() == block + rest
    requires IsHeaderBlock(block, |block|) && |block| <= MAX_HEADER_BYTES
    modifies next.repr
    ensures next.Valid() && next.Remaining() == rest
  {
    var again := ReadHeaderBlock(next);
    HeaderBlockPrefix(block, rest);
    SuccessIsDetermined(block + rest, again, next.Remaining());
    hide IsHeaderBlock, Outcome;
    assert (block + rest)[|block|..] == rest;
  }

  lemma StartOfCopy(s: string, start: string)
    ensures "" + s == s && start + "" == start
  {
  }

  lemma EndOfCopy(s: string, copied: string, rest: string)
    requires copied + rest == s
    ensures s[..|copied|] == copied && s[|copied|..] == rest
  {
  }

  lemma Regroup(a: string, b: string, c: string)
    ensures (a + b) + c == a + (b + c)
  {
  }

  /** io.Copy of a body of `n` bytes, in pieces as they come. */
  method CopyBody(reader: Reader, out: Output, n: nat) returns (written: bool, missing: nat)
    requires reader.Valid()
    modifies reader.repr, out
    ensures reader.Valid() && missing <= n
    ensures written && missing == 0 ==>
              var s := old(reader.Remaining());
              n <= |s| && reader.Remaining() == s[n..] && out.data == old(out.data) + s[..n]
    ensures written && missing > 0 ==>
              |old(reader.Remaining())| < n && out.data == old(out.data) + old(reader.Remaining())
  {
    hide Reader.Valid, Reader.Remaining;
    written, missing := true, n;
    ghost var s, start, copied := reader.Remaining(), out.data, "";
    StartOfCopy(s, start);
    while missing > 0
      invariant reader.Valid() && missing <= n && |copied| == n - missing
      invariant copied + reader.Remaining() == s && out.data == start + copied
      decreases missing
    {
      var chunk := reader.Read(missing);
      if chunk == "" {
        assert copied + "" == copied;
        return;
      }
      Regroup(copied, chunk, reader.Remaining());
      written := out.Write(chunk);
      if !written {
        return;
      }
      Regroup(start, copied, chunk);
      copied, missing := copied + chunk, missing - |chunk|;
    }
    EndOfCopy(s, copied, reader.Remaining());
  }

  /** io.Copy of a body that ends with the connection. */
  method CopyToClose(reader: Reader, out: Output, chunkSize: nat) returns (written: bool)
    requires reader.Valid() && chunkSize > 0
    modifies reader.repr, out
    ensures reader.Valid()
    ensures written ==> reader.Remaining() == "" && out.data == old(out.data) + old(reader.Remaining())
  {
    hide Reader.Valid, Reader.Below;
    written := true;
    ghost var s, copied := reader.Remaining(), "";
    while true
      invariant reader.Valid() && copied + reader.Remaining() == s
      invariant out.data == old(out.data) + copied
      decreases |reader.Remaining()|
    {
      ghost var before := reader.Remaining();
      var chunk := reader.Read(chunkSize);
      if chunk == "" {
        assert copied + "" == copied;
        return;
      }
      written := out.Write(chunk);
      if !written {
        return;
      }
      assert copied + (chunk + reader.Remaining()) == (copied + chunk) + reader.Remaining();
      copied := copied + chunk;
    }
  }

  lemma BlockOfStream(s: string, block: string)
    requires HeaderBlockOf(s) == Some(block)
    ensures IsHeaderBlock(block, |block|) && |block| <= MAX_HEADER_BYTES && s == block + s[|block|..]
  {
    assert s == block + s[|block|..];
    HeaderBlockPrefix(block, s[|block|..]);
    hide IsHeaderBlock;
  }

  lemma ReplyUnfolds(interpret: Interpreter, showHeaders: bool, s: string)
    ensures var header := HeaderBlockOf(s);
            var reply := ReplyTo(interpret, showHeaders, s);
            if header.None? then reply == Refused(if s == "" then EmptyReply else BadHeader(|s|))
            else
              var block, rest := header.value, s[|header.value|..];
              var head := interpret(block);
              reply == if head.None? then Refused(Invalid)
                       else if head.value.Interim() then Behind(Shown(showHeaders, block), ReplyTo(interpret, showHeaders, rest))
                       else if head.value.status == 101 then Refused(Upgrade)
                       else FinalReply(head.value, block, rest, showHeaders)
  {
  }

  /** readNextResponse: one header block, and a new reader that stands behind it. */
  method ReadNextResponse(reader: Reader, ghost showHeaders: bool, interpret: Interpreter)
      returns (r: Result<(string, Head), nat>, next: Reader)
    requires reader.Valid()
    modifies reader.repr
    ensures r.Failure? ==>
              var reply := ReplyTo(interpret, showHeaders, old(reader.Remaining()));
              reply.Refused? && CodeFor(reply.trouble, r.error)
    ensures r.Success? ==>
              && next.Valid() && fresh(next.repr - reader.repr)
              && HeaderBlockOf(old(reader.Remaining())) == Some(r.value.0) && r.value.0 != ""
              && interpret(r.value.0) == Some(r.value.1)
              && next.Remaining() == old(reader.Remaining())[|r.value.0|..]
  {
    hide Outcome, ReplyTo, IsHeaderBlock;
    next := reader;
    ghost var s := reader.Remaining();
    var header := ReadHeaderBlock(reader);
    HeaderBlockRead(s, header, reader.Remaining());
    ReplyUnfolds(interpret, showHeaders, s);
    if header.Failure? {
      match header.error
      case TooLarge => return Failure(8), next;
      case Broken(block) =>
        if block == "" {
          return Failure(52), next;
        }
        return Failure(56), next;
    }
    var block := header.value;
    ghost var rest := reader.Remaining();
    next := new Reader.OnTop(reader.size, block, reader);
    if interpret(block).None? {
      return Failure(8), next;
    }
    BlockOfStream(s, block);
    ParseReplayed(next, block, rest);
    return Success((block, interpret(block).value)), next;
  }

  /** The output of the final response. */
  method CopyFinal(next: Reader, out: Output, head: Head, block: string, showHeaders: bool) returns (turn: Turn)
    requires next.Valid()
    modifies next.repr, out
    ensures next.Valid()
    ensures var reply := FinalReply(head, block, old(next.Remaining()), showHeaders);
            match turn
            case Done(reuse) =>
              && reply.Replied? && reply.rest == next.Remaining() && reply.reuse == reuse
              && out.data == old(out.data) + reply.output
            case Failed(code) =>
              && reply.Refused? && CodeFor(reply.trouble, code)
              && out.data == old(out.data) + (Shown(showHeaders, block) + old(next.Remaining()))
            case OutputFailed => true
  {
    ghost var rest, start := next.Remaining(), out.data;
    if showHeaders {
      var ok := out.Write(block);
      if !ok {
        return OutputFailed;
      }
    }
    assert out.data == start + Shown(showHeaders, block);
    match head.framing {
      case Length(n) =>
        var written, missing := CopyBody(next, out, n);
        if !written {
          return OutputFailed;
        }
        if missing > 0 {
          Regroup(start, Shown(showHeaders, block), rest);
          return Failed(18);
        }
        Regroup(start, Shown(showHeaders, block), rest[..n]);
      case ToClose =>
        var written := CopyToClose(next, out, 4096);
        if !written {
          return OutputFailed;
        }
        Regroup(start, Shown(showHeaders, block), rest);
    }
    return Done(head.KeepsAlive());
  }

  lemma BehindRefused(output: string, reply: Reply)
    ensures reply.Refused? ==> Behind(output, reply) == reply
  {
  }

  lemma BehindFinal(start: string, output: string, reply: Reply)
    ensures reply.Refused? ==> Behind(output, reply) == reply
    ensures reply.Replied? ==>
              && Behind(output, reply) == reply.(output := output + reply.output)
              && (start + output) + reply.output == start + (output + reply.output)
  {
    if reply.Replied? {
      assert (start + output) + reply.output == start + (output + reply.output);
    }
  }

  lemma BehindBlock(start: string, shown: string, showHeaders: bool, block: string, reply: Reply)
    ensures Behind(shown, Behind(Shown(showHeaders, block), reply)) == Behind(shown + Shown(showHeaders, block), reply)
    ensures (start + shown) + (if showHeaders then block else "") == start + (shown + Shown(showHeaders, block))
    ensures !showHeaders ==> start + (shown + Shown(showHeaders, block)) == start + shown
  {
    assert (start + shown) + Shown(showHeaders, block) == start + (shown + Shown(showHeaders, block));
    assert (start + shown) + "" == start + shown;
    if reply.Replied? {
      assert shown + (Shown(showHeaders, block) + reply.output) == (shown + Shown(showHeaders, block)) + reply.output;
    }
  }

  lemma StartOfReply(interpret: Interpreter, showHeaders: bool, s: string)
    ensures ReplyTo(interpret, showHeaders, s) == Behind("", ReplyTo(interpret, showHeaders, s))
  {
    var reply := ReplyTo(interpret, showHeaders, s);
    if reply.Replied? {
      assert "" + reply.output == reply.output;
    }
  }

  /** readResponse: interim responses first, then the final one. On success standard output has grown by
      exactly the reply's output, and the returned reader yields exactly the bytes behind the response:
      none lost in a buffer of the stack, none read twice. */
  method ReadResponse(first: Reader, out: Output, showHeaders: bool, interpret: Interpreter) returns (turn: Turn, next: Reader)
    requires first.Valid()
    modifies first.repr, out
    ensures turn.Done? ==>
              && next.Valid() && fresh(next.repr - first.repr)
              && var reply := ReplyTo(interpret, showHeaders, old(first.Remaining()));
                 && reply.Replied? && reply.rest == next.Remaining() && reply.reuse == turn.reuse
                 && out.data == old(out.data) + reply.output
    ensures turn.Failed? ==>
              var reply := ReplyTo(interpret, showHeaders, old(first.Remaining()));
              reply.Refused? && CodeFor(reply.trouble, turn.code)
  {
    hide ReplyTo, Behind, Shown, FinalReply;
    ghost var start, shown := out.data, "";
    ghost var goal := ReplyTo(interpret, showHeaders, first.Remaining());
    var reader := first;
    next := first;
    StartOfReply(interpret, showHeaders, first.Remaining());
    while true
      invariant reader.Valid() && fresh(reader.repr - first.repr)
      invariant goal == Behind(shown, ReplyTo(interpret, showHeaders, reader.Remaining()))
      invariant out.data == start + shown
      decreases |reader.Remaining()|
    {
      ghost var s := reader.Remaining();
      var parsed, above := ReadNextResponse(reader, showHeaders, interpret);
      next := above;
      BehindRefused(shown, ReplyTo(interpret, showHeaders, s));
      if parsed.Failure? {
        return Failed(parsed.error), next;
      }
      var (block, head) := parsed.value;
      ReplyUnfolds(interpret, showHeaders, s);
      if head.Interim() {
        if showHeaders {
          var ok := out.Write(block);
          if !ok {
            return OutputFailed, next;
          }
        }
        BehindBlock(start, shown, showHeaders, block, ReplyTo(interpret, showHeaders, next.Remaining()));
        shown := shown + Shown(showHeaders, block);
        reader := next;
        continue;
      }
      if head.status == 101 {
        return Failed(8), next;
      }
      turn := CopyFinal(next, out, head, block, showHeaders);
      BehindFinal(start, shown, FinalReply(head, block, s[|block|..], showHeaders));
      return turn, next;
    }
  }

  // ----- Conservation -----

  /** A server's answer to one request: header blocks of interim responses, then a header block and body. */
  datatype Exchange = Exchange(interim: seq<string>, block: string, body: string)

  ghost predicate WellFormedBlock(block: string) {
    IsHeaderBlock(block, |block|) && |block| <= 0x10_0000
  }

  /** A complete block with an interim status, 101 excepted. */
  ghost predicate IsInterim(interpret: Interpreter, block: string) {
    && WellFormedBlock(block) && interpret(block).Some?
    && 100 <= interpret(block).value.status < 200 && interpret(block).value.status != 101
  }

  ghost predicate AllInterim(interpret: Interpreter, blocks: seq<string>) {
    forall i :: 0 <= i < |blocks| ==> IsInterim(interpret, blocks[i])
  }

  /** Each block is complete and is understood as the server meant it. */
  ghost predicate WellFormed(interpret: Interpreter, x: Exchange, close: bool) {
    && AllInterim(interpret, x.interim)
    && WellFormedBlock(x.block)
    && (exists status: nat :: (status < 100 || status >= 200)
                              && interpret(x.block) == Some(Head(status, Length(|x.body|), close)))
  }

  function Concat(parts: seq<string>): string {
    if parts == [] then "" else parts[0] + Concat(parts[1..])
  }

  function Wire(x: Exchange): string {
    Concat(x.interim) + x.block + x.body
  }

  /** What curlu prints of the answer: the final body, with all header blocks when they are asked for. */
  function Printed(showHeaders: bool, x: Exchange): string {
    if showHeaders then Concat(x.interim) + x.block + x.body else x.body
  }

  lemma HeaderOfWire(block: string, rest: string)
    requires WellFormedBlock(block)
    ensures HeaderBlockOf(block + rest) == Some(block) && (block + rest)[|block|..] == rest
  {
    HeaderBlockPrefix(block, rest);
    var s := block + rest;
    assert IsHeaderBlock(s, |block|);
    HeaderBlockIsUnique(s, |HeaderBlockOf(s).value|, |block|);
    assert s[..|block|] == block;
    hide IsHeaderBlock;
  }

  lemma BehindTwice(a: string, b: string, reply: Reply)
    ensures Behind(a, Behind(b, reply)) == Behind(a + b, reply)
  {
    if reply.Replied? {
      assert a + (b + reply.output) == (a + b) + reply.output;
    }
  }

  /** Interim responses are skipped, or shown, and do not change what follows them. */
  lemma {:induction false} BehindInterim(interpret: Interpreter, showHeaders: bool, interims: seq<string>, rest: string)
    requires AllInterim(interpret, interims)
    ensures ReplyTo(interpret, showHeaders, Concat(interims) + rest)
            == Behind(if showHeaders then Concat(interims) else "", ReplyTo(interpret, showHeaders, rest))
    decreases |interims|
  {
    hide ReplyTo, WellFormedBlock;
    var reply := ReplyTo(interpret, showHeaders, rest);
    if interims == [] {
      assert Concat(interims) + rest == rest;
      StartOfReply(interpret, showHeaders, rest);
    } else {
      var block, more := interims[0], Concat(interims[1..]);
      assert IsInterim(interpret, block);
      assert Concat(interims) + rest == block + (more + rest);
      HeaderOfWire(block, more + rest);
      ReplyUnfolds(interpret, showHeaders, block + (more + rest));
      BehindInterim(interpret, showHeaders, interims[1..], rest);
      BehindTwice(if showHeaders then block else "", if showHeaders then more else "", reply);
      assert "" + "" == "";
    }
  }

  lemma ShownTogether(interims: string, block: string, body: string, showHeaders: bool)
    ensures (if showHeaders then interims else "") + ((if showHeaders then block else "") + body)
            == (if showHeaders then interims + block else "") + body
  {
    assert interims + (block + body) == (interims + block) + body;
    assert "" + ("" + body) == "" + body;
  }

  /** What a complete block behind any interim responses comes to: an upgrade or a block that means nothing is
      refused; else the body is as long as announced, or ends with the stream. */
  lemma BlockDecides(interpret: Interpreter, showHeaders: bool, interims: seq<string>, block: string, tail: string)
    requires AllInterim(interpret, interims) && WellFormedBlock(block)
    ensures var reply := ReplyTo(interpret, showHeaders, Concat(interims) + (block + tail));
            var shown := if showHeaders then Concat(interims) + block else "";
            match interpret(block)
            case None => reply == Refused(Invalid)
            case Some(Head(status, framing, close)) =>
              && (status == 101 ==> reply == Refused(Upgrade))
              && (status < 100 || status >= 200 ==>
                    reply == match framing
                             case ToClose => Replied(shown + tail, "", false)
                             case Length(n) =>
                               if n > |tail| then Refused(PartialBody) else Replied(shown + tail[..n], tail[n..], !close))
  {
    hide ReplyTo, WellFormedBlock, AllInterim;
    BehindInterim(interpret, showHeaders, interims, block + tail);
    HeaderOfWire(block, tail);
    ReplyUnfolds(interpret, showHeaders, block + tail);
    var first := if showHeaders then Concat(interims) else "";
    ShownTogether(Concat(interims), block, tail, showHeaders);
    if interpret(block).Some? && interpret(block).value.framing.Length? && interpret(block).value.framing.n <= |tail| {
      ShownTogether(Concat(interims), block, tail[..interpret(block).value.framing.n], showHeaders);
    }
  }

  /** Where no complete block follows, the reply is empty or broken off. */
  lemma NoBlockIsRefused(interpret: Interpreter, showHeaders: bool, interims: seq<string>, tail: string)
    requires AllInterim(interpret, interims)
    requires forall n: nat :: n <= 0x10_0000 ==> !IsHeaderBlock(tail, n)
    ensures ReplyTo(interpret, showHeaders, Concat(interims) + tail)
            == Refused(if tail == "" then EmptyReply else BadHeader(|tail|))
  {
    hide ReplyTo, AllInterim, IsHeaderBlock;
    BehindInterim(interpret, showHeaders, interims, tail);
    ReplyUnfolds(interpret, showHeaders, tail);
  }

  /** The exit codes: 52 for no reply, 18 for a short body, 8 for what cannot be understood, upgrades and
      headers over 2^20 bytes, 56 for headers that break off below that. */
  lemma ExitCodes(code: nat, length: nat)
    ensures CodeFor(EmptyReply, code) <==> code == 52
    ensures CodeFor(PartialBody, code) <==> code == 18
    ensures CodeFor(Invalid, code) <==> code == 8
    ensures CodeFor(Upgrade, code) <==> code == 8
    ensures length > 0x10_0000 ==> (CodeFor(BadHeader(length), code) <==> code == 8)
    ensures length < 0x10_0000 ==> (CodeFor(BadHeader(length), code) <==> code == 56)
  {
  }

  /** One answer in the stream is printed exactly once and taken off the stream exactly. */
  lemma ReplyToWire(interpret: Interpreter, showHeaders: bool, x: Exchange, close: bool, rest: string)
    requires WellFormed(interpret, x, close)
    ensures ReplyTo(interpret, showHeaders, Wire(x) + rest) == Replied(Printed(showHeaders, x), rest, !close)
  {
    hide WellFormedBlock, ReplyTo, AllInterim;
    assert Wire(x) + rest == Concat(x.interim) + (x.block + (x.body + rest));
    assert (x.body + rest)[..|x.body|] == x.body && (x.body + rest)[|x.body|..] == rest;
    assert "" + x.body == x.body;
    BlockDecides(interpret, showHeaders, x.interim, x.block, x.body + rest);
  }
}
