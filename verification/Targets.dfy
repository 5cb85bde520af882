/** parseTargets of internal/curlu/client.go: every URL argument expanded and parsed, on one origin. */
module Targets {
  import opened Wrappers
  import opened Decimal
  import Glob
  import GlobExpand

  const MAX_PORT: nat := 0xFFFF

  /** What url.Parse finds in a URL. The scheme is in lower case and the host name case-folded. */
  datatype Url = Url(scheme: string, hasHost: bool, hasUser: bool, hostname: string, port: string, rest: string)

  /** url.Parse, which this model leaves open. */
  type Parser = string -> Option<Url>

  /** parseURL, with the exit code of a refusal. */
  function ParseURL(raw: string, parse: Parser): Result<Url, nat> {
    var parsed := parse(raw);
    if parsed.None? || parsed.value.scheme == "" || !parsed.value.hasHost then Failure(3)
    else
      var u := parsed.value;
      if u.scheme != "http" && u.scheme != "https" then Failure(1)
      else if u.hasUser || u.hostname == "" then Failure(3)
      else if u.port != "" && ParseUint(u.port, MAX_PORT).None? then Failure(3)
      else Success(u)
  }

  function CanonicalPort(port: string): string {
    var n := ParseUint(port, MAX_PORT);
    if n.None? then port else Format(n.value)
  }

  function TargetPort(u: Url): string {
    if u.port != "" then CanonicalPort(u.port) else if u.scheme == "https" then "443" else "80"
  }

  predicate SameOrigin(u: Url, v: Url) {
    u.scheme == v.scheme && u.hostname == v.hostname && TargetPort(u) == TargetPort(v)
  }

  /** The strings one URL argument stands for. */
  ghost function Names(raw: string, globoff: bool): Result<seq<string>, Glob.GlobError> {
    if globoff then Success([raw]) else GlobExpand.Expansion(raw)
  }

  ghost function ParseEach(names: seq<string>, parse: Parser): Result<seq<Url>, nat> {
    if names == [] then Success([])
    else
      var first :- ParseURL(names[0], parse);
      var others :- ParseEach(names[1..], parse);
      Success([first] + others)
  }

  /** All URL arguments from left to right; the first trouble decides the exit code. */
  ghost function Collect(raws: seq<string>, globoff: bool, parse: Parser): Result<seq<Url>, nat> {
    if raws == [] then Success([])
    else if Names(raws[0], globoff).Failure? then Failure(3)
    else
      var here :- ParseEach(Names(raws[0], globoff).value, parse);
      var later :- Collect(raws[1..], globoff, parse);
      Success(here + later)
  }

  ghost predicate OneOrigin(targets: seq<Url>) {
    forall j, k :: 0 <= j < |targets| && 0 <= k < |targets| ==> SameOrigin(targets[j], targets[k])
  }

  ghost function Behind(done: seq<Url>, rest: Result<seq<Url>, nat>): Result<seq<Url>, nat> {
    if rest.Success? then Success(done + rest.value) else rest
  }

  /** Parses the strings of one argument behind the targets found so far. */
  method AppendParsed(names: seq<string>, parse: Parser, before: seq<Url>) returns (r: Result<seq<Url>, nat>)
    ensures r == Behind(before, ParseEach(names, parse))
  {
    var targets := before;
    assert names[0..] == names;
    for i := 0 to |names|
      invariant Behind(before, ParseEach(names, parse)) == Behind(targets, ParseEach(names[i..], parse))
    {
      hide ParseURL;
      assert names[i..][0] == names[i] && names[i..][1..] == names[i + 1..];
      var u := ParseURL(names[i], parse);
      if u.Failure? {
        return Failure(u.error);
      }
      ghost var later := ParseEach(names[i + 1..], parse);
      if later.Success? {
        assert targets + ([u.value] + later.value) == targets + [u.value] + later.value;
      }
      targets := targets + [u.value];
    }
    assert targets + [] == targets;
    r := Success(targets);
  }

  lemma CollectStep(before: seq<Url>, raws: seq<string>, i: nat, globoff: bool, parse: Parser)
    requires i < |raws|
    ensures var rest, names := Collect(raws[i..], globoff, parse), Names(raws[i], globoff);
            if names.Failure? then Behind(before, rest) == Failure(3)
            else
              var here := Behind(before, ParseEach(names.value, parse));
              Behind(before, rest) == if here.Failure? then here else Behind(here.value, Collect(raws[i + 1..], globoff, parse))
  {
    hide ParseEach, Names;
    assert raws[i..][0] == raws[i] && raws[i..][1..] == raws[i + 1..];
    var names, later := Names(raws[i], globoff), Collect(raws[i + 1..], globoff, parse);
    if names.Success? {
      var here := ParseEach(names.value, parse);
      if here.Success? && later.Success? {
        assert before + (here.value + later.value) == before + here.value + later.value;
      }
    }
  }

  lemma NothingLeft(raws: seq<string>, globoff: bool, parse: Parser)
    ensures Collect(raws[|raws|..], globoff, parse) == Success([])
  {
  }

  /** The loop over the arguments. */
  method CollectTargets(raws: seq<string>, globoff: bool, parse: Parser) returns (r: Result<seq<Url>, nat>)
    ensures r == Collect(raws, globoff, parse)
  {
    hide ParseEach, Collect, GlobExpand.Expansion;
    var targets: seq<Url> := [];
    assert raws[0..] == raws;
    ghost var all := Collect(raws, globoff, parse);
    assert all.Success? ==> [] + all.value == all.value;
    for i := 0 to |raws|
      invariant all == Behind(targets, Collect(raws[i..], globoff, parse))
    {
      CollectStep(targets, raws, i, globoff, parse);
      var names := [raws[i]];
      if !globoff {
        var expanded := GlobExpand.ExpandGlob(raws[i]);
        if expanded.Failure? {
          return Failure(3);
        }
        names := expanded.value;
      }
      var appended := AppendParsed(names, parse, targets);
      if appended.Failure? {
        return Failure(appended.error);
      }
      targets := appended.value;
    }
    NothingLeft(raws, globoff, parse);
    assert targets + [] == targets;
    r := Success(targets);
  }

  /** The targets are what the strings parse to, one by one. */
  ghost predicate Lists(names: seq<string>, targets: seq<Url>, parse: Parser) {
    |targets| == |names| && forall k :: 0 <= k < |names| ==> Success(targets[k]) == ParseURL(names[k], parse)
  }

  ghost predicate AllParse(names: seq<string>, parse: Parser) {
    forall k :: 0 <= k < |names| ==> ParseURL(names[k], parse).Success?
  }

  lemma Append(a: seq<string>, b: seq<string>, us: seq<Url>, vs: seq<Url>, parse: Parser)
    ensures AllParse(a + b, parse) <==> AllParse(a, parse) && AllParse(b, parse)
    ensures Lists(a, us, parse) && Lists(b, vs, parse) ==> Lists(a + b, us + vs, parse)
  {
    hide ParseURL;
    var names := a + b;
    assert forall k :: 0 <= k < |a| ==> names[k] == a[k];
    assert forall k :: 0 <= k < |b| ==> b[k] == names[|a| + k];
  }

  lemma {:induction false} ParseEachLists(names: seq<string>, parse: Parser)
    ensures var r := ParseEach(names, parse);
            (r.Success? <==> AllParse(names, parse)) && (r.Success? ==> Lists(names, r.value, parse))
  {
    hide ParseURL;
    if names != [] {
      var rest := names[1..];
      ParseEachLists(rest, parse);
      assert names == [names[0]] + rest;
      var first, others := ParseURL(names[0], parse), ParseEach(rest, parse);
      Append([names[0]], rest, if first.Success? then [first.value] else [], if others.Success? then others.value else [], parse);
      assert AllParse([names[0]], parse) <==> first.Success? by {
        assert [names[0]][0] == names[0];
      }
    }
  }

  lemma ArgumentYields(raw: string, globoff: bool, parse: Parser)
    requires Names(raw, globoff).Success?
    ensures var here := ParseEach(Names(raw, globoff).value, parse); here.Success? ==> |here.value| >= 1
  {
    hide GlobExpand.Expansion, ParseURL, ParseEach;
    GlobExpand.ExpansionIsBounded(raw);
    ParseEachLists(Names(raw, globoff).value, parse);
  }

  /** No argument expands to nothing, so there are at least as many targets as arguments. */
  lemma {:induction false} EveryArgumentYields(raws: seq<string>, globoff: bool, parse: Parser)
    ensures var all := Collect(raws, globoff, parse); all.Success? ==> |all.value| >= |raws|
  {
    hide Names, ParseEach;
    if raws != [] {
      if Names(raws[0], globoff).Success? {
        ArgumentYields(raws[0], globoff, parse);
      }
      EveryArgumentYields(raws[1..], globoff, parse);
    }
  }

  /** A success is the whole collection, on one origin, of 1 to 1000 targets. With no URL at all there would
      be no first target, and no such options pass ParseArgs unless they ask for nothing but a listing. */
  method ParseTargets(raws: seq<string>, globoff: bool, parse: Parser) returns (r: Result<seq<Url>, nat>)
    requires raws != []
    ensures var all := Collect(raws, globoff, parse);
            r == if all.Failure? then all
                 else if |all.value| > 1000 then Failure(3)
                 else if !OneOrigin(all.value) then Failure(2)
                 else all
    ensures r.Success? ==> 1 <= |r.value| <= 1000
  {
    hide Collect, TargetPort;
    r := CollectTargets(raws, globoff, parse);
    if r.Failure? {
      return;
    }
    var targets := r.value;
    if |targets| > Glob.MAX_GLOB_URLS {
      return Failure(3);
    }
    EveryArgumentYields(raws, globoff, parse);
    for k := 1 to |targets|
      invariant forall j :: 0 <= j < k ==> SameOrigin(targets[0], targets[j])
    {
      if !SameOrigin(targets[0], targets[k]) {
        return Failure(2);
      }
    }
  }

  // ----- What the collection is, without its loops -----

  /** All strings of all arguments, if every argument expands. */
  ghost function AllNames(raws: seq<string>, globoff: bool): Option<seq<string>> {
    if raws == [] then Some([])
    else
      var here, later := Names(raws[0], globoff), AllNames(raws[1..], globoff);
      if here.Success? && later.Some? then Some(here.value + later.value) else None
  }

  lemma NoNames(parse: Parser)
    ensures AllParse([], parse) && Lists([], [], parse)
  {
  }

  /** The targets are the parsed strings of all arguments in order, and there are any exactly when all
      arguments expand and all strings parse. */
  lemma {:induction false} CollectionIsExactly(raws: seq<string>, globoff: bool, parse: Parser)
    ensures var names, all := AllNames(raws, globoff), Collect(raws, globoff, parse);
            && (all.Success? <==> names.Some? && AllParse(names.value, parse))
            && (all.Success? ==> Lists(names.value, all.value, parse))
  {
    hide Names, ParseURL, ParseEach, AllParse, Lists;
    if raws == [] {
      ParseEachLists([], parse);
      NoNames(parse);
    } else {
      CollectionIsExactly(raws[1..], globoff, parse);
      var here, later := Names(raws[0], globoff), AllNames(raws[1..], globoff);
      if here.Success? {
        ParseEachLists(here.value, parse);
        if later.Some? {
          var us, vs := ParseEach(here.value, parse), Collect(raws[1..], globoff, parse);
          Append(here.value, later.value, if us.Success? then us.value else [], if vs.Success? then vs.value else [], parse);
        }
      }
    }
  }

  /** A port with leading zeros is the same port. */
  lemma PortSpellingDoesNotMatter(u: Url, n: nat, width: nat)
    requires n <= MAX_PORT
    ensures TargetPort(u.(port := Pad(n, width))) == Format(n)
  {
    ValueOfPad(n, width);
  }

  /** The port of a target: as written, without leading zeros; else 443 for https and 80 for http. */
  lemma PortsAre(u: Url, n: nat)
    requires u.scheme == "http" || u.scheme == "https"
    ensures u.port == "" ==> TargetPort(u) == if u.scheme == "https" then "443" else "80"
    ensures u.port != "" && AllDigits(u.port) && ValueOf(u.port) == n <= 65535 ==> TargetPort(u) == Format(n)
  {
    hide ValueOf, Format;
  }

  /** A URL is accepted if and only if it is http or https, names a host, carries no user, and its port, if
      any, is a number below 65536. Another scheme has exit code 1, everything else 3. */
  lemma URLAcceptedExactly(raw: string, parse: Parser)
    ensures var r := ParseURL(raw, parse);
            match parse(raw)
            case None => r == Failure(3)
            case Some(u) =>
              var portOk := u.port == "" || (AllDigits(u.port) && ValueOf(u.port) <= 65535);
              if u.scheme == "" || !u.hasHost then r == Failure(3)
              else if u.scheme != "http" && u.scheme != "https" then r == Failure(1)
              else if u.hasUser || u.hostname == "" || !portOk then r == Failure(3)
              else r == Success(u)
  {
    hide ValueOf;
  }

  /** One origin: the same scheme, host and port throughout. */
  lemma OneOriginMeans(targets: seq<Url>)
    ensures OneOrigin(targets) <==>
              forall j, k :: 0 <= j < |targets| && 0 <= k < |targets| ==>
                && targets[j].scheme == targets[k].scheme && targets[j].hostname == targets[k].hostname
                && TargetPort(targets[j]) == TargetPort(targets[k])
  {
    hide TargetPort;
  }
}
