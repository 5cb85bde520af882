/** What goes out for every header that is given, and which generated headers stay. */
module RequestEffects {
  import opened Wrappers
  import opened Text
  import opened Request

  // ----- One header -----

  predicate IsDelimiter(c: char) {
    || c == '"' || c == '(' || c == ')' || c == ',' || c == '/' || c == ':' || c == ';' || c == '<' || c == '='
    || c == '>' || c == '?' || c == '@' || c == '[' || c == '\\' || c == ']' || c == '{' || c == '}'
  }

  /** A field name is a token (section 5.6.2 of RFC 9110): visible ASCII without the delimiters. */
  lemma NamesAreTokens(c: char)
    ensures NameChar(c) <==> '!' <= c <= '~' && !IsDelimiter(c)
  {
  }

  predicate AllSpace(s: string) {
    forall j :: 0 <= j < |s| ==> IsSpace(s[j])
  }

  lemma {:induction false} TrimFront(pre: string, core: string)
    requires AllSpace(pre)
    ensures TrimSpace(pre + core) == TrimSpace(core)
    decreases |pre|
  {
    if pre == "" {
      assert pre + core == core;
    } else {
      var s := pre + core;
      assert s[0] == pre[0] && s[1..] == pre[1..] + core;
      TrimFront(pre[1..], core);
    }
  }

  lemma {:induction false} TrimBack(core: string, post: string)
    requires AllSpace(post) && core != "" && !IsSpace(core[0]) && !IsSpace(core[|core| - 1])
    ensures TrimSpace(core + post) == core
    decreases |post|
  {
    var s := core + post;
    assert s[0] == core[0];
    if post == "" {
      assert s == core;
    } else {
      assert s[|s| - 1] == post[|post| - 1] && s[..|s| - 1] == core + post[..|post| - 1];
      TrimBack(core, post[..|post| - 1]);
    }
  }

  lemma TrimOfSpace(s: string)
    requires AllSpace(s)
    ensures TrimSpace(s) == ""
  {
    TrimFront(s, "");
    assert s + "" == s;
  }

  /** White space around a text is trimmed, and a text of nothing else leaves nothing. */
  lemma TrimIs(pre: string, core: string, post: string)
    requires AllSpace(pre) && AllSpace(post)
    requires core == "" || (!IsSpace(core[0]) && !IsSpace(core[|core| - 1]))
    ensures TrimSpace(pre + core + post) == core
  {
    hide TrimSpace, IsSpace, AllSpace;
    assert pre + core + post == pre + (core + post);
    TrimFront(pre, core + post);
    if core == "" {
      assert core + post == post;
      TrimOfSpace(post);
    } else {
      TrimBack(core, post);
    }
  }

  lemma {:induction false} TrimIsNothing(s: string)
    ensures TrimSpace(s) == "" <==> AllSpace(s)
    decreases |s|
  {
    if s != "" {
      if IsSpace(s[0]) {
        TrimIsNothing(s[1..]);
        assert forall j :: 0 < j < |s| ==> s[j] == s[1..][j - 1];
        assert forall j :: 0 <= j < |s[1..]| ==> s[1..][j] == s[j + 1];
      } else if IsSpace(s[|s| - 1]) {
        TrimIsNothing(s[..|s| - 1]);
        assert s[..|s| - 1][0] == s[0];
      }
    }
  }

  predicate Clean(s: string) {
    '\r' !in s && '\n' !in s && '\0' !in s
  }

  predicate IsToken(name: string) {
    name != "" && forall j :: 0 <= j < |name| ==> NameChar(name[j])
  }

  lemma ColonIsFirst(before: string, rest: string)
    requires ':' !in before
    ensures var s := before + ":" + rest;
            IndexOf(s, ':') == |before| < |s| && s[..|before|] == before && s[|before| + 1..] == rest
  {
    var s := before + ":" + rest;
    assert s[|before|] == ':' && s[..|before|] == before;
    IndexOfFirst(s, ':', |before|);
  }

  lemma TokensHaveNoSpace(name: string)
    requires IsToken(name)
    ensures ':' !in name && !IsSpace(name[0]) && !IsSpace(name[|name| - 1])
  {
  }

  lemma SpaceIsNoColon(s: string)
    requires AllSpace(s)
    ensures ':' !in s
  {
  }

  /** A header is sent as it is given, but for white space around its name; with nothing but white space
      behind the colon it is not sent. */
  lemma HeaderGoesOut(pre: string, name: string, post: string, value: string)
    requires AllSpace(pre) && AllSpace(post) && IsToken(name) && Clean(pre + name + post + ":" + value)
    ensures ParseRequestHeader(pre + name + post + ":" + value)
            == Success(if AllSpace(value) then RequestHeader(name, "", true) else RequestHeader(name, name + ":" + value, false))
  {
    hide TrimSpace, IndexOf, NameChar, IsSpace;
    var before := pre + name + post;
    TokensHaveNoSpace(name);
    SpaceIsNoColon(pre);
    SpaceIsNoColon(post);
    ColonIsFirst(before, value);
    TrimIs(pre, name, post);
    TrimIsNothing(value);
  }

  /** Control characters, no name, and a name that is no token are refused. */
  lemma HeadersRefused(before: string, value: string)
    requires ':' !in before
    ensures !Clean(before + ":" + value) ==> ParseRequestHeader(before + ":" + value) == Failure(ControlCharacter)
    ensures !Clean(before) ==> ParseRequestHeader(before) == Failure(ControlCharacter)
    ensures Clean(before) ==> ParseRequestHeader(before) == Failure(NoColon)
    ensures Clean(":" + value) ==> ParseRequestHeader(":" + value) == Failure(NoColon)
    ensures before != "" && Clean(before + ":" + value) && !IsToken(TrimSpace(before)) ==>
              ParseRequestHeader(before + ":" + value) == Failure(BadName)
  {
    hide TrimSpace, IndexOf, NameChar;
    ColonIsFirst(before, value);
    ColonIsFirst("", value);
    assert "" + ":" + value == ":" + value;
    IndexOfFirst(before, ':', |before|);
  }

  // ----- The lines of a request -----

  /** The same name, in whatever case: `lower` is written in small letters. */
  predicate SameName(name: string, lower: string) {
    |name| == |lower| && forall j :: 0 <= j < |lower| ==>
      name[j] == lower[j] || ('a' <= lower[j] <= 'z' && name[j] as int == lower[j] as int - 32)
  }

  lemma {:induction false} LowerExactly(name: string, lower: string)
    requires forall j :: 0 <= j < |lower| ==> !('A' <= lower[j] <= 'Z')
    ensures Lower(name) == lower <==> SameName(name, lower)
  {
    if name == "" || lower == "" {
    } else {
      LowerExactly(name[1..], lower[1..]);
      assert lower == [lower[0]] + lower[1..];
      var small := [LowerChar(name[0])] + Lower(name[1..]);
      assert small == lower <==> LowerChar(name[0]) == lower[0] && Lower(name[1..]) == lower[1..] by {
        assert small[1..] == Lower(name[1..]) && small[0] == LowerChar(name[0]);
      }
      assert forall j :: 0 < j < |name| ==> name[j] == name[1..][j - 1];
      assert forall j :: 0 < j < |lower| ==> lower[j] == lower[1..][j - 1];
      assert forall j :: 0 <= j < |lower[1..]| ==> lower[1..][j] == lower[j + 1];
      assert forall j :: 0 <= j < |name[1..]| ==> name[1..][j] == name[j + 1];
    }
  }

  predicate Given(headers: seq<RequestHeader>, lower: string) {
    exists i :: 0 <= i < |headers| && SameName(headers[i].name, lower)
  }

  lemma GivenIsSuppressed(headers: seq<RequestHeader>, suppressed: set<string>, lower: string)
    requires Replaces(headers, suppressed) && IsDefault(lower)
    ensures lower in suppressed <==> Given(headers, lower)
  {
    assert forall j :: 0 <= j < |lower| ==> !('A' <= lower[j] <= 'Z');
    forall i | 0 <= i < |headers| ensures Lower(headers[i].name) == lower <==> SameName(headers[i].name, lower) {
      LowerExactly(headers[i].name, lower);
    }
    hide Lower, SameName, IsDefault;
  }

  /** The request line; Host, User-Agent and Accept, each unless a header of that name is given in any case,
      suppressed or not; and the headers that are not suppressed, in their order. */
  lemma RequestLinesAre(uri: string, host: string, headers: seq<RequestHeader>, suppressed: set<string>, version: string)
    requires Replaces(headers, suppressed)
    ensures RequestLines(uri, host, headers, suppressed, version)
            == ["GET " + uri + " HTTP/1.1"]
               + (if Given(headers, "host") then [] else ["Host: " + host])
               + (if Given(headers, "user-agent") then [] else ["User-Agent: curlu/" + SafeVersion(version)])
               + (if Given(headers, "accept") then [] else ["Accept: */*"])
               + WireLines(headers)
  {
    hide Given, Replaces, WireLines, SafeVersion;
    GivenIsSuppressed(headers, suppressed, "host");
    GivenIsSuppressed(headers, suppressed, "user-agent");
    GivenIsSuppressed(headers, suppressed, "accept");
  }

  lemma {:induction false} WireLinesInOrder(a: seq<RequestHeader>, h: RequestHeader)
    ensures WireLines(a + [h]) == WireLines(a) + (if h.suppress then [] else [h.wire])
    ensures WireLines([]) == []
  {
    if a == [] {
      assert a + [h] == [h];
    } else {
      WireLinesInOrder(a[1..], h);
      assert (a + [h])[1..] == a[1..] + [h];
      var last := if h.suppress then [] else [h.wire];
      var first := if a[0].suppress then [] else [a[0].wire];
      assert first + (WireLines(a[1..]) + last) == (first + WireLines(a[1..])) + last;
    }
  }

  lemma {:induction false} CharactersAreShown(s: string)
    ensures forall j :: 0 <= j < |s| ==> SafeChars(s)[j] == if '!' <= s[j] <= '~' then s[j] else '-'
  {
    if s != "" {
      CharactersAreShown(s[1..]);
    }
  }

  /** The version shows in visible ASCII, as `dev` when there is none. */
  lemma {:induction false} VersionIsShown(version: string)
    ensures version == "" ==> SafeVersion(version) == "dev"
    ensures version != "" ==>
              && |SafeVersion(version)| == |version|
              && forall j :: 0 <= j < |version| ==>
                   SafeVersion(version)[j] == if '!' <= version[j] <= '~' then version[j] else '-'
  {
    if version != "" {
      CharactersAreShown(version);
    }
  }

  lemma FourLines(a: string, b: string, c: string, d: string)
    ensures Block([a, b, c, d]) == a + "\r\n" + (b + "\r\n" + (c + "\r\n" + (d + "\r\n" + "\r\n")))
  {
    var lines := [a, b, c, d];
    assert lines[1..] == [b, c, d] && [b, c, d][1..] == [c, d] && [c, d][1..] == [d] && [d][1..] == [];
    assert Block([]) == "\r\n" && Block([d]) == d + "\r\n" + "\r\n";
    assert Block([c, d]) == c + "\r\n" + Block([d]);
  }

  /** Without given headers the request is this text. */
  lemma PlainRequest(uri: string, host: string, version: string)
    ensures Block(RequestLines(uri, host, [], {}, version))
            == "GET " + uri + " HTTP/1.1\r\n" + "Host: " + host + "\r\n"
               + "User-Agent: curlu/" + SafeVersion(version) + "\r\n" + "Accept: */*\r\n" + "\r\n"
  {
    hide SafeVersion;
    var a, b, c, d := "GET " + uri + " HTTP/1.1", "Host: " + host, "User-Agent: curlu/" + SafeVersion(version), "Accept: */*";
    assert RequestLines(uri, host, [], {}, version) == [a, b, c, d];
    FourLines(a, b, c, d);
    assert " HTTP/1.1" + "\r\n" == " HTTP/1.1\r\n" && "Accept: */*" + "\r\n" == "Accept: */*\r\n";
  }
}
