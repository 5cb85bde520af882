/** Request headers and the HTTP/1 request: parseRequestHeaders and serializeHTTP1 of
    internal/curlu/client.go. */
module Request {
  import opened Wrappers
  import opened Text
  import opened Readers
  import opened HeaderBlocks

  const CRLF := "\r\n"

  datatype HeaderProblem = ControlCharacter | NoColon | BadName

  /** `wire` is the line to send; a suppressed header only removes a generated one. */
  datatype RequestHeader = RequestHeader(name: string, wire: string, suppress: bool)

  // ----- One header -----

  function TrimSpace(s: string): string {
    if s == "" then ""
    else if IsSpace(s[0]) then TrimSpace(s[1..])
    else if IsSpace(s[|s| - 1]) then TrimSpace(s[..|s| - 1])
    else s
  }

  predicate NameChar(c: char) {
    || 'a' <= c <= 'z' || 'A' <= c <= 'Z' || '0' <= c <= '9'
    || c in "!#$%&'*+-.^_`|~"
  }

  predicate ValidHeaderName(name: string) {
    name != "" && forall i :: 0 <= i < |name| ==> NameChar(name[i])
  }

  /** No byte that could end a line. */
  predicate Unbroken(s: string) {
    '\r' !in s && '\n' !in s
  }

  lemma NameIsUnbroken(name: string)
    requires ValidHeaderName(name)
    ensures Unbroken(name) && '\0' !in name
  {
  }

  function ParseRequestHeader(value: string): (r: Result<RequestHeader, HeaderProblem>)
    ensures r.Success? && !r.value.suppress ==> r.value.wire != "" && Unbroken(r.value.wire) && '\0' !in r.value.wire
  {
    if '\r' in value || '\n' in value || '\0' in value then Failure(ControlCharacter)
    else
      var colon := IndexOf(value, ':');
      if colon == |value| || colon == 0 then Failure(NoColon)
      else
        var name := TrimSpace(value[..colon]);
        if !ValidHeaderName(name) then Failure(BadName)
        else
          var rest := value[colon + 1..];
          if TrimSpace(rest) == "" then Success(RequestHeader(name, "", true))
          else
            NameIsUnbroken(name);
            Success(RequestHeader(name, name + ":" + rest, false))
  }

  function LowerChar(c: char): char {
    if 'A' <= c <= 'Z' then (c as int + 32) as char else c
  }

  function Lower(s: string): (r: string)
    ensures |r| == |s|
  {
    if s == "" then "" else [LowerChar(s[0])] + Lower(s[1..])
  }

  predicate IsDefault(name: string) {
    name == "host" || name == "user-agent" || name == "accept"
  }

  function ParseAll(values: seq<string>): Result<seq<RequestHeader>, HeaderProblem> {
    if values == [] then Success([])
    else
      var header :- ParseRequestHeader(values[0]);
      var rest :- ParseAll(values[1..]);
      Success([header] + rest)
  }

  /** Some header, in any spelling, has that name. */
  predicate Names(headers: seq<RequestHeader>, name: string) {
    exists i :: 0 <= i < |headers| && Lower(headers[i].name) == name
  }

  /** The generated headers that given ones replace. */
  ghost predicate Replaces(headers: seq<RequestHeader>, suppressed: set<string>) {
    forall name :: name in suppressed <==> IsDefault(name) && Names(headers, name)
  }

  function Joined(headers: seq<RequestHeader>, rest: Result<seq<RequestHeader>, HeaderProblem>): Result<seq<RequestHeader>, HeaderProblem> {
    if rest.Success? then Success(headers + rest.value) else rest
  }

  lemma StartOfHeaders(values: seq<string>)
    ensures Joined([], ParseAll(values)) == ParseAll(values) && values[0..] == values && Replaces([], {})
  {
    if ParseAll(values).Success? {
      assert [] + ParseAll(values).value == ParseAll(values).value;
    }
  }

  lemma NamesOfOneMore(headers: seq<RequestHeader>, h: RequestHeader)
    ensures forall name :: Names(headers + [h], name) <==> Names(headers, name) || Lower(h.name) == name
  {
    forall name ensures Names(headers + [h], name) <==> Names(headers, name) || Lower(h.name) == name {
      var all := headers + [h];
      assert all[|headers|] == h && forall i :: 0 <= i < |headers| ==> all[i] == headers[i];
      if i :| 0 <= i < |headers| && Lower(headers[i].name) == name {
        assert Lower(all[i].name) == name;
      }
    }
  }

  lemma OneMoreReplaces(headers: seq<RequestHeader>, suppressed: set<string>, h: RequestHeader)
    requires Replaces(headers, suppressed)
    ensures Replaces(headers + [h], if IsDefault(Lower(h.name)) then suppressed + {Lower(h.name)} else suppressed)
  {
    hide Lower, Names;
    NamesOfOneMore(headers, h);
  }

  lemma JoinOne(headers: seq<RequestHeader>, h: RequestHeader, rest: Result<seq<RequestHeader>, HeaderProblem>)
    ensures rest.Success? ==> Joined(headers, Success([h] + rest.value)) == Joined(headers + [h], rest)
  {
    if rest.Success? {
      assert headers + ([h] + rest.value) == (headers + [h]) + rest.value;
    }
  }

  method ParseRequestHeaders(values: seq<string>) returns (r: Result<(seq<RequestHeader>, set<string>), HeaderProblem>)
    ensures match ParseAll(values)
            case Failure(e) => r == Failure(e)
            case Success(headers) => r.Success? && r.value.0 == headers && Replaces(headers, r.value.1)
  {
    hide ParseRequestHeader, Lower, Names, Replaces;
    var headers: seq<RequestHeader> := [];
    var suppressed: set<string> := {};
    StartOfHeaders(values);
    for i := 0 to |values|
      invariant ParseAll(values) == Joined(headers, ParseAll(values[i..]))
      invariant Replaces(headers, suppressed)
    {
      var header := ParseRequestHeader(values[i]);
      assert values[i..][1..] == values[i + 1..];
      if header.Failure? {
        return Failure(header.error);
      }
      JoinOne(headers, header.value, ParseAll(values[i + 1..]));
      OneMoreReplaces(headers, suppressed, header.value);
      headers := headers + [header.value];
      var lowerName := Lower(header.value.name);
      if lowerName == "host" || lowerName == "user-agent" || lowerName == "accept" {
        suppressed := suppressed + {lowerName};
      }
    }
    assert headers + [] == headers;
    return Success((headers, suppressed));
  }

  // ----- The request -----

  function SafeChar(c: char): char {
    if c < '!' || c > '~' then '-' else c
  }

  function SafeChars(s: string): (r: string)
    ensures |r| == |s| && Unbroken(r)
  {
    if s == "" then "" else [SafeChar(s[0])] + SafeChars(s[1..])
  }

  function SafeVersion(version: string): (r: string)
    ensures r != "" && Unbroken(r)
  {
    if version == "" then "dev" else SafeChars(version)
  }

  function WireLines(headers: seq<RequestHeader>): seq<string> {
    if headers == [] then []
    else (if headers[0].suppress then [] else [headers[0].wire]) + WireLines(headers[1..])
  }

  /** The request line, and the generated headers that no given header replaces. `uri` and `host` come
      from the URL. */
  function GeneratedLines(uri: string, host: string, suppressed: set<string>, version: string): seq<string> {
    ["GET " + uri + " HTTP/1.1"]
    + (if "host" in suppressed then [] else ["Host: " + host])
    + (if "user-agent" in suppressed then [] else ["User-Agent: curlu/" + SafeVersion(version)])
    + (if "accept" in suppressed then [] else ["Accept: */*"])
  }

  /** The lines of a request: generated ones first, then the given headers in their order. */
  function RequestLines(uri: string, host: string, headers: seq<RequestHeader>, suppressed: set<string>, version: string): seq<string> {
    GeneratedLines(uri, host, suppressed, version) + WireLines(headers)
  }

  /** Lines on the wire, with a blank line at the end. */
  function Block(lines: seq<string>): string {
    if lines == [] then CRLF else lines[0] + CRLF + Block(lines[1..])
  }

  /** Lines without the blank line at the end. */
  ghost function Lines(lines: seq<string>): string {
    if lines == [] then "" else lines[0] + CRLF + Lines(lines[1..])
  }

  lemma NoLines()
    ensures Lines([]) == ""
  {
  }

  lemma OneLine(line: string)
    ensures Lines([line]) == line + CRLF
  {
    assert [line][1..] == [];
    assert line + CRLF + "" == line + CRLF;
  }

  lemma {:induction false} LinesSnoc(lines: seq<string>, line: string)
    ensures Lines(lines + [line]) == Lines(lines) + (line + CRLF) == Lines(lines) + line + CRLF
  {
    if lines == [] {
      OneLine(line);
      assert [] + [line] == [line];
    } else {
      LinesSnoc(lines[1..], line);
      assert (lines + [line])[1..] == lines[1..] + [line];
    }
  }

  /** The loop over the given headers. */
  method SerializeHeaders(headers: seq<RequestHeader>) returns (request: string)
    ensures request == Lines(WireLines(headers))
  {
    hide Lines;
    ghost var lines: seq<string> := [];
    request := "";
    NoLines();
    assert headers[0..] == headers && [] + WireLines(headers) == WireLines(headers);
    for i := 0 to |headers|
      invariant request == Lines(lines)
      invariant lines + WireLines(headers[i..]) == WireLines(headers)
    {
      assert headers[i..][1..] == headers[i + 1..];
      if !headers[i].suppress {
        LinesSnoc(lines, headers[i].wire);
        assert lines + ([headers[i].wire] + WireLines(headers[i + 1..])) == (lines + [headers[i].wire]) + WireLines(headers[i + 1..]);
        lines := lines + [headers[i].wire];
        request := request + headers[i].wire;
        request := request + CRLF;
      }
    }
    assert lines + [] == lines;
  }

  lemma {:induction false} LinesConcat(a: seq<string>, b: seq<string>)
    ensures Lines(a + b) == Lines(a) + Lines(b)
  {
    if a == [] {
      assert a + b == b && "" + Lines(b) == Lines(b);
    } else {
      LinesConcat(a[1..], b);
      assert (a + b)[1..] == a[1..] + b;
      assert a[0] + CRLF + (Lines(a[1..]) + Lines(b)) == a[0] + CRLF + Lines(a[1..]) + Lines(b);
    }
  }

  lemma {:induction false} BlockOfLines(lines: seq<string>)
    ensures Block(lines) == Lines(lines) + CRLF
  {
    if lines == [] {
      assert "" + CRLF == CRLF;
    } else {
      BlockOfLines(lines[1..]);
      assert lines[0] + CRLF + (Lines(lines[1..]) + CRLF) == lines[0] + CRLF + Lines(lines[1..]) + CRLF;
    }
  }

  method SerializeHTTP1(uri: string, host: string, headers: seq<RequestHeader>, suppressed: set<string>, version: string)
      returns (request: string)
    ensures request == Block(RequestLines(uri, host, headers, suppressed, version))
  {
    hide SafeVersion, Lines, WireLines, Block;
    ghost var lines := ["GET " + uri + " HTTP/1.1"];
    request := "GET " + uri + " HTTP/1.1" + CRLF;
    OneLine(lines[0]);
    if "host" !in suppressed {
      LinesSnoc(lines, "Host: " + host);
      lines := lines + ["Host: " + host];
      request := request + ("Host: " + host + CRLF);
    }
    if "user-agent" !in suppressed {
      LinesSnoc(lines, "User-Agent: curlu/" + SafeVersion(version));
      lines := lines + ["User-Agent: curlu/" + SafeVersion(version)];
      request := request + ("User-Agent: curlu/" + SafeVersion(version) + CRLF);
    }
    if "accept" !in suppressed {
      LinesSnoc(lines, "Accept: */*");
      lines := lines + ["Accept: */*"];
      request := request + ("Accept: */*" + CRLF);
    }
    assert lines == GeneratedLines(uri, host, suppressed, version);
    var given := SerializeHeaders(headers);
    LinesConcat(lines, WireLines(headers));
    BlockOfLines(RequestLines(uri, host, headers, suppressed, version));
    request := request + given + CRLF;
  }

  // ----- Framing -----

  predicate CleanLines(lines: seq<string>) {
    forall i :: 0 <= i < |lines| ==> lines[i] != "" && Unbroken(lines[i])
  }

  /** The lines up to the blank line, as a server splits them. */
  function ReadLines(s: string): seq<string>
    decreases |s|
  {
    var i := IndexOf(s, '\n');
    if i == |s| then []
    else
      var line := if i > 0 && s[i - 1] == '\r' then s[..i - 1] else s[..i];
      if line == "" then [] else [line] + ReadLines(s[i + 1..])
  }

  /** A blank line behind a whole line is a blank line of what follows that line. */
  lemma BlankBehindLine(line: string, tail: string, n: nat)
    requires line != "" && Unbroken(line)
    ensures EndsBlankLine(line + CRLF + tail, n) <==> n > |line| + 2 && EndsBlankLine(tail, n - |line| - 2)
  {
    var s := line + CRLF + tail;
    var k := |line| + 2;
    assert forall i :: 0 <= i < |line| ==> s[i] == line[i] && s[i] != '\n';
    assert s[|line|] == '\r' && s[k - 1] == '\n';
    assert forall i :: k <= i < |s| ==> s[i] == tail[i - k];
  }

  /** Clean lines on the wire form one header block: the blank line at their end is the only one. */
  lemma {:induction false} BlockIsHeaderBlock(lines: seq<string>, rest: string)
    requires CleanLines(lines)
    ensures IsHeaderBlock(Block(lines) + rest, |Block(lines)|)
  {
    var s := Block(lines) + rest;
    if lines == [] {
      assert s[0] == '\r' && s[1] == '\n';
    } else {
      var tail := Block(lines[1..]) + rest;
      BlockIsHeaderBlock(lines[1..], rest);
      assert s == lines[0] + CRLF + tail;
      forall n: nat ensures EndsBlankLine(s, n) <==> n > |lines[0]| + 2 && EndsBlankLine(tail, n - |lines[0]| - 2) {
        BlankBehindLine(lines[0], tail, n);
      }
      hide EndsBlankLine;
    }
  }

  /** Reading the lines of a block back gives the lines that were written. */
  lemma {:induction false} ReadLinesOfBlock(lines: seq<string>, rest: string)
    requires CleanLines(lines)
    ensures ReadLines(Block(lines) + rest) == lines
  {
    var s := Block(lines) + rest;
    if lines == [] {
      IndexOfFirst(s, '\n', 1);
    } else {
      var line, tail := lines[0], Block(lines[1..]) + rest;
      assert s == line + CRLF + tail;
      IndexOfFirst(s, '\n', |line| + 1);
      assert s[..|line|] == line && s[|line| + 2..] == tail;
      ReadLinesOfBlock(lines[1..], rest);
    }
  }

  lemma {:induction false} ParsedLinesAreClean(values: seq<string>)
    requires ParseAll(values).Success?
    ensures CleanLines(WireLines(ParseAll(values).value))
  {
    if values != [] {
      ParsedLinesAreClean(values[1..]);
    }
    hide ParseRequestHeader;
  }

  lemma UnbrokenConcat(a: string, b: string)
    requires Unbroken(a) && Unbroken(b)
    ensures Unbroken(a + b)
  {
  }

  lemma CleanConcat(a: seq<string>, b: seq<string>)
    requires CleanLines(a) && CleanLines(b)
    ensures CleanLines(a + b)
  {
  }

  lemma LiteralsAreUnbroken()
    ensures Unbroken("GET ") && Unbroken(" HTTP/1.1") && Unbroken("Host: ") && Unbroken("User-Agent: curlu/") && Unbroken("Accept: */*")
  {
  }

  lemma OneOrNoneIsClean(lines: seq<string>)
    requires |lines| <= 1 && (lines != [] ==> lines[0] != "" && Unbroken(lines[0]))
    ensures CleanLines(lines)
  {
  }

  lemma RequestLinesAreClean(uri: string, host: string, headers: seq<RequestHeader>, suppressed: set<string>, version: string)
    requires Unbroken(uri) && Unbroken(host) && CleanLines(WireLines(headers))
    ensures CleanLines(RequestLines(uri, host, headers, suppressed, version))
  {
    hide SafeVersion, CleanLines, Unbroken, WireLines;
    LiteralsAreUnbroken();
    UnbrokenConcat("GET ", uri);
    UnbrokenConcat("GET " + uri, " HTTP/1.1");
    UnbrokenConcat("Host: ", host);
    UnbrokenConcat("User-Agent: curlu/", SafeVersion(version));
    var first := ["GET " + uri + " HTTP/1.1"];
    var second := if "host" in suppressed then [] else ["Host: " + host];
    var third := if "user-agent" in suppressed then [] else ["User-Agent: curlu/" + SafeVersion(version)];
    var fourth := if "accept" in suppressed then [] else ["Accept: */*"];
    OneOrNoneIsClean(first);
    OneOrNoneIsClean(second);
    OneOrNoneIsClean(third);
    OneOrNoneIsClean(fourth);
    CleanConcat(first, second);
    CleanConcat(first + second, third);
    CleanConcat(first + second + third, fourth);
    CleanConcat(GeneratedLines(uri, host, suppressed, version), WireLines(headers));
  }

  /** Whatever headers are accepted, the request has its only blank line at its end, and a server reads
      exactly the intended lines from it: no header can end the request or add a line of its own. */
  lemma RequestIsFramed(uri: string, host: string, values: seq<string>, suppressed: set<string>, version: string, rest: string)
    requires Unbroken(uri) && Unbroken(host) && ParseAll(values).Success?
    ensures var lines := RequestLines(uri, host, ParseAll(values).value, suppressed, version);
            && IsHeaderBlock(Block(lines) + rest, |Block(lines)|)
            && ReadLines(Block(lines) + rest) == lines
  {
    var lines := RequestLines(uri, host, ParseAll(values).value, suppressed, version);
    ParsedLinesAreClean(values);
    RequestLinesAreClean(uri, host, ParseAll(values).value, suppressed, version);
    BlockIsHeaderBlock(lines, rest);
    ReadLinesOfBlock(lines, rest);
    hide CleanLines, IsHeaderBlock, RequestLines;
  }

  /** readHeaderBlock takes a serialised request off a stream exactly, when it fits the limit. */
  lemma RequestIsReadBack(uri: string, host: string, values: seq<string>, suppressed: set<string>, version: string, rest: string,
                          r: Result<string, HeaderError>, left: string)
    requires Unbroken(uri) && Unbroken(host) && ParseAll(values).Success?
    requires var request := Block(RequestLines(uri, host, ParseAll(values).value, suppressed, version));
             |request| <= MAX_HEADER_BYTES && Outcome(request + rest, r, left)
    ensures r == Success(Block(RequestLines(uri, host, ParseAll(values).value, suppressed, version))) && left == rest
  {
    var request := Block(RequestLines(uri, host, ParseAll(values).value, suppressed, version));
    RequestIsFramed(uri, host, values, suppressed, version, rest);
    SuccessIsDetermined(request + rest, r, left);
    assert (request + rest)[..|request|] == request && (request + rest)[|request|..] == rest;
  }
}
