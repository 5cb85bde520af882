/** The command line: ParseArgs of internal/curlu/options.go. */
module Arguments {
  import opened Wrappers
  import opened Text

  /** Options that take no value. */
  datatype Flag =
    | Include | Silent | ShowError | Verbose | HelloList | Info | ALPNNone | ExtNone
    | PriorKnowledge | HTTP3 | IPv4 | IPv6 | Globoff | Insecure | Help | Version

  /** Options that take one. */
  datatype Key =
    | Header | ConnectTimeout | MaxTime | Resolve | Hello | CipherAppend | VersionAppend
    | ExtAppend | ALPNHex | JA4T

  /** Values are kept as given; whether one is acceptable is asked of the reader of that option. */
  datatype Options = Options(
    flags: set<Flag>, ipFamily: string, headers: seq<string>, resolve: seq<string>,
    connectTimeout: Option<string>, maxTime: Option<string>, hello: Option<string>,
    ciphers: seq<string>, versions: seq<string>, extensions: seq<string>, alpn: Option<string>,
    ja4t: Option<string>, urls: seq<string>)

  const NO_OPTIONS := Options({}, "", [], [], None, None, None, [], [], [], None, None, [])

  type Accepts = (Key, string) -> bool

  /** What a known option name stands for: a flag, or a key with a value to come. */
  datatype Meaning = Flag(flag: Flag) | Key(key: Key)

  function LongOptionNamed(name: string): Option<Meaning> {
    if name == "include" then Some(Meaning.Flag(Include))
    else if name == "silent" then Some(Meaning.Flag(Silent))
    else if name == "show-error" then Some(Meaning.Flag(ShowError))
    else if name == "verbose" then Some(Meaning.Flag(Verbose))
    else if name == "utls-hello-list" then Some(Meaning.Flag(HelloList))
    else if name == "utls-info" then Some(Meaning.Flag(Info))
    else if name == "utls-alpn-none" then Some(Meaning.Flag(ALPNNone))
    else if name == "utls-ext-none" then Some(Meaning.Flag(ExtNone))
    else if name == "http2-prior-knowledge" then Some(Meaning.Flag(PriorKnowledge))
    else if name == "http3" || name == "http3-only" then Some(Meaning.Flag(HTTP3))
    else if name == "ipv4" then Some(Meaning.Flag(IPv4))
    else if name == "ipv6" then Some(Meaning.Flag(IPv6))
    else if name == "globoff" then Some(Meaning.Flag(Globoff))
    else if name == "insecure" then Some(Meaning.Flag(Insecure))
    else if name == "help" then Some(Meaning.Flag(Help))
    else if name == "version" then Some(Meaning.Flag(Version))
    else if name == "header" then Some(Meaning.Key(Header))
    else if name == "connect-timeout" then Some(Meaning.Key(ConnectTimeout))
    else if name == "max-time" then Some(Meaning.Key(MaxTime))
    else if name == "resolve" then Some(Meaning.Key(Resolve))
    else if name == "utls-hello" then Some(Meaning.Key(Hello))
    else if name == "utls-cipher-append" then Some(Meaning.Key(CipherAppend))
    else if name == "utls-version-append" then Some(Meaning.Key(VersionAppend))
    else if name == "utls-ext-append" then Some(Meaning.Key(ExtAppend))
    else if name == "utls-alpn-hex" then Some(Meaning.Key(ALPNHex))
    else if name == "ja4t" then Some(Meaning.Key(JA4T))
    else None
  }

  function LongFlag(name: string): Option<Flag> {
    var m := LongOptionNamed(name);
    if m.Some? && m.value.Flag? then Some(m.value.flag) else None
  }

  function LongKey(name: string): Option<Key> {
    var m := LongOptionNamed(name);
    if m.Some? && m.value.Key? then Some(m.value.key) else None
  }

  function ShortFlag(c: char): Option<Flag> {
    match c
    case 'i' => Some(Include)
    case 's' => Some(Silent)
    case 'S' => Some(ShowError)
    case 'v' => Some(Verbose)
    case 'k' => Some(Insecure)
    case 'g' => Some(Globoff)
    case '4' => Some(IPv4)
    case '6' => Some(IPv6)
    case 'h' => Some(Help)
    case 'V' => Some(Version)
    case _ => None
  }

  function ShortKey(c: char): Option<Key> {
    match c
    case 'H' => Some(Header)
    case 'm' => Some(MaxTime)
    case _ => None
  }

  function SetFlag(o: Options, f: Flag): Options {
    match f
    case IPv4 => o.(ipFamily := "4")
    case IPv6 => o.(ipFamily := "6")
    case _ => o.(flags := o.flags + {f})
  }

  /** The option's value, if its reader accepts it; a header is accepted as it is. */
  function SetValue(o: Options, k: Key, value: string, accepts: Accepts): Option<Options> {
    if k != Header && !accepts(k, value) then None
    else
      Some(match k
           case Header => o.(headers := o.headers + [value])
           case ConnectTimeout => o.(connectTimeout := Some(value))
           case MaxTime => o.(maxTime := Some(value))
           case Resolve => o.(resolve := o.resolve + [value])
           case Hello => o.(hello := Some(value))
           case CipherAppend => o.(ciphers := o.ciphers + [value])
           case VersionAppend => o.(versions := o.versions + [value])
           case ExtAppend => o.(extensions := o.extensions + [value])
           case ALPNHex => o.(alpn := Some(value))
           case JA4T => o.(ja4t := Some(value)))
  }

  /** The checks on the options as a whole. */
  predicate Consistent(o: Options) {
    && !(ALPNNone in o.flags && o.alpn.Some?)
    && !(ExtNone in o.flags && (ALPNNone in o.flags || o.alpn.Some?))
    && (o.versions != [] ==> ExtNone !in o.flags && o.hello.Some?)
    && (o.extensions != [] ==> ExtNone !in o.flags && o.hello.Some?)
    && (Help in o.flags || Version in o.flags || HelloList in o.flags || o.urls != [])
  }

  function Finish(o: Options): Option<Options> {
    if Consistent(o) then Some(o) else None
  }

  // ----- Meaning -----

  predicate IsPositional(arg: string) {
    arg == "-" || arg == "" || arg[0] != '-'
  }

  predicate IsLong(arg: string) {
    |arg| >= 2 && arg[..2] == "--"
  }

  predicate IsCluster(arg: string) {
    !IsPositional(arg) && arg != "--" && !IsLong(arg)
  }

  /** strings.Cut at the first '=' of a long option. */
  function NameOf(arg: string): string
    requires IsLong(arg)
  {
    arg[2..][..IndexOf(arg[2..], '=')]
  }

  function ValueOf(arg: string): Option<string>
    requires IsLong(arg)
  {
    var i := IndexOf(arg[2..], '=');
    if i == |arg[2..]| then None else Some(arg[2..][i + 1..])
  }

  /** What the options say so far, with the arguments still to be read; None is an error. */
  datatype State = State(options: Options, rest: seq<string>)

  function WithValue(o: Options, k: Key, value: string, rest: seq<string>, accepts: Accepts): Option<State> {
    var o' := SetValue(o, k, value, accepts);
    if o'.None? then None else Some(State(o'.value, rest))
  }

  /** A cluster of short options, without its hyphen. */
  function ReadCluster(short: string, rest: seq<string>, o: Options, accepts: Accepts): (r: Option<State>)
    ensures r.Some? ==> |r.value.rest| <= |rest|
    decreases |short|
  {
    if short == "" then Some(State(o, rest))
    else if ShortFlag(short[0]).Some? then ReadCluster(short[1..], rest, SetFlag(o, ShortFlag(short[0]).value), accepts)
    else if ShortKey(short[0]).Some? then
      var k := ShortKey(short[0]).value;
      if short[1..] != "" then WithValue(o, k, short[1..], rest, accepts)
      else if rest == [] then None
      else WithValue(o, k, rest[0], rest[1..], accepts)
    else None
  }

  /** A long option. */
  function ReadLong(arg: string, rest: seq<string>, o: Options, accepts: Accepts): (r: Option<State>)
    requires IsLong(arg)
    ensures r.Some? ==> |r.value.rest| <= |rest|
  {
    var name, value := NameOf(arg), ValueOf(arg);
    if LongFlag(name).Some? then
      if value.Some? then None else Some(State(SetFlag(o, LongFlag(name).value), rest))
    else if LongKey(name).Some? then
      var k := LongKey(name).value;
      if value.Some? then WithValue(o, k, value.value, rest, accepts)
      else if rest == [] then None
      else WithValue(o, k, rest[0], rest[1..], accepts)
    else None
  }

  /** The argument list, read from left to right. */
  function Scan(args: seq<string>, o: Options, accepts: Accepts): Option<Options>
    decreases |args|
  {
    if args == [] then Finish(o)
    else
      var arg, rest := args[0], args[1..];
      if IsPositional(arg) then Scan(rest, o.(urls := o.urls + [arg]), accepts)
      else if arg == "--" then Finish(o.(urls := o.urls + rest))
      else
        var next := if IsLong(arg) then ReadLong(arg, rest, o, accepts) else ReadCluster(arg[1..], rest, o, accepts);
        if next.None? then None else Scan(next.value.rest, next.value.options, accepts)
  }

  // ----- Combined arguments -----

  predicate IsCombined(arg: string) {
    arg != "" && arg[0] == '-' && ' ' in arg
  }

  function WordLength(s: string): (n: nat)
    ensures n <= |s| && (forall j :: 0 <= j < n ==> !IsSpace(s[j])) && (n < |s| ==> IsSpace(s[n]))
  {
    if s == "" || IsSpace(s[0]) then 0 else 1 + WordLength(s[1..])
  }

  predicate IsWord(w: string) {
    w != "" && forall j :: 0 <= j < |w| ==> !IsSpace(w[j])
  }

  /** strings.Fields. */
  function Fields(s: string): (words: seq<string>)
    ensures forall k :: 0 <= k < |words| ==> IsWord(words[k])
    decreases |s|
  {
    if s == "" then []
    else if IsSpace(s[0]) then Fields(s[1..])
    else [s[..WordLength(s)]] + Fields(s[WordLength(s)..])
  }

  /** The arguments with every combined one replaced by its words. */
  function Expanded(args: seq<string>): seq<string> {
    if args == [] then []
    else (if IsCombined(args[0]) then Fields(args[0]) else [args[0]]) + Expanded(args[1..])
  }

  // ----- The loops -----

  method ExpandCombinedFlags(args: seq<string>) returns (out: seq<string>)
    ensures out == Expanded(args)
  {
    out := [];
    assert args[0..] == args;
    for i := 0 to |args|
      invariant out + Expanded(args[i..]) == Expanded(args)
    {
      hide Fields, IsCombined;
      ghost var before := out;
      assert args[i..][0] == args[i] && args[i..][1..] == args[i + 1..];
      if IsCombined(args[i]) {
        out := out + Fields(args[i]);
        assert out + Expanded(args[i + 1..]) == before + (Fields(args[i]) + Expanded(args[i + 1..]));
      } else {
        out := out + [args[i]];
        assert out + Expanded(args[i + 1..]) == before + ([args[i]] + Expanded(args[i + 1..]));
      }
    }
  }

  method OptionArgument(args: seq<string>, index: nat, given: Option<string>) returns (ok: bool, value: string, i: nat)
    requires index < |args|
    ensures ok <==> given.Some? || index + 1 < |args|
    ensures index <= i < |args|
    ensures given.Some? ==> value == given.value && i == index
    ensures given.None? && ok ==> i == index + 1 && value == args[i]
  {
    if given.Some? {
      return true, given.value, index;
    }
    if index + 1 >= |args| {
      return false, "", index;
    }
    return true, args[index + 1], index + 1;
  }

  /** One long option; `i` is the index of the argument read last. */
  method LongOption(args: seq<string>, index: nat, start: Options, accepts: Accepts)
      returns (ok: bool, i: nat, opts: Options)
    requires index < |args| && IsLong(args[index])
    ensures index <= i < |args|
    ensures ReadLong(args[index], args[index + 1..], start, accepts)
            == if ok then Some(State(opts, args[i + 1..])) else None
  {
    hide SetFlag, SetValue, LongFlag, LongKey;
    i, opts := index, start;
    var name, given := NameOf(args[index]), ValueOf(args[index]);
    if LongFlag(name).Some? {
      if given.Some? {
        return false, i, opts;
      }
      opts := SetFlag(opts, LongFlag(name).value);
    } else if LongKey(name).Some? {
      var value;
      ok, value, i := OptionArgument(args, index, given);
      if !ok {
        return;
      }
      if given.None? {
        assert args[index + 1..][0] == args[i] && args[index + 1..][1..] == args[i + 1..];
      }
      var changed := SetValue(opts, LongKey(name).value, value, accepts);
      if changed.None? {
        return false, i, opts;
      }
      opts := changed.value;
    } else {
      return false, i, opts;
    }
    ok := true;
  }

  /** The loop over one cluster; `i` is the index of the argument read last. */
  method ShortOptions(args: seq<string>, index: nat, cluster: string, start: Options, accepts: Accepts)
      returns (ok: bool, i: nat, opts: Options)
    requires index < |args|
    ensures index <= i < |args|
    ensures ReadCluster(cluster, args[index + 1..], start, accepts)
            == if ok then Some(State(opts, args[i + 1..])) else None
  {
    i, opts := index, start;
    var short := cluster;
    while |short| > 0
      invariant index <= i < |args| && (short != "" ==> i == index)
      invariant ReadCluster(cluster, args[index + 1..], start, accepts) == ReadCluster(short, args[i + 1..], opts, accepts)
      decreases |short|
    {
      hide SetFlag, SetValue, ShortFlag, ShortKey;
      var flag := short[0];
      short := short[1..];
      if ShortFlag(flag).Some? {
        opts := SetFlag(opts, ShortFlag(flag).value);
      } else if ShortKey(flag).Some? {
        var value := short;
        if value == "" {
          if i + 1 >= |args| {
            return false, i, opts;
          }
          assert args[i + 1..][0] == args[i + 1] && args[i + 1..][1..] == args[i + 2..];
          i := i + 1;
          value := args[i];
        }
        short := "";
        var changed := SetValue(opts, ShortKey(flag).value, value, accepts);
        if changed.None? {
          return false, i, opts;
        }
        opts := changed.value;
      } else {
        return false, i, opts;
      }
    }
    ok := true;
  }

  /** What is left to read, once only URLs follow and before. */
  function Resume(positional: bool, args: seq<string>, o: Options, accepts: Accepts): Option<Options> {
    if positional then Finish(o.(urls := o.urls + args)) else Scan(args, o, accepts)
  }

  function Then(next: Option<State>, accepts: Accepts): Option<Options> {
    if next.None? then None else Scan(next.value.rest, next.value.options, accepts)
  }

  lemma ResumeIsScan(args: seq<string>, o: Options, accepts: Accepts)
    ensures Resume(false, args, o, accepts) == Scan(args, o, accepts)
  {
  }

  lemma ResumeAtURL(positional: bool, arg: string, rest: seq<string>, o: Options, accepts: Accepts)
    requires positional || IsPositional(arg)
    ensures Resume(positional, [arg] + rest, o, accepts)
            == Resume(positional, rest, o.(urls := o.urls + [arg]), accepts)
  {
    hide Finish, ReadLong, ReadCluster, IsPositional;
    assert ([arg] + rest)[1..] == rest;
    assert o.urls + ([arg] + rest) == o.urls + [arg] + rest;
  }

  lemma ResumeAtOption(arg: string, rest: seq<string>, o: Options, accepts: Accepts)
    requires !IsPositional(arg) && arg != "--"
    ensures Resume(false, [arg] + rest, o, accepts)
            == Then(if IsLong(arg) then ReadLong(arg, rest, o, accepts) else ReadCluster(arg[1..], rest, o, accepts), accepts)
  {
    hide Finish, ReadLong, ReadCluster;
    assert ([arg] + rest)[1..] == rest;
  }

  lemma ResumeAtEnd(positional: bool, o: Options, accepts: Accepts)
    ensures Resume(positional, [], o, accepts) == Finish(o)
  {
    hide Finish;
    assert o.urls + [] == o.urls;
  }

  lemma ResumeAtDashes(rest: seq<string>, o: Options, accepts: Accepts)
    ensures Resume(false, ["--"] + rest, o, accepts) == Resume(true, rest, o, accepts)
  {
    hide Finish, ReadLong, ReadCluster;
    assert (["--"] + rest)[1..] == rest;
  }

  method ParseArgs(raw: seq<string>, accepts: Accepts) returns (r: Option<Options>)
    ensures r == Scan(Expanded(raw), NO_OPTIONS, accepts)
  {
    hide Expanded, Scan, Finish, ReadLong, ReadCluster, Resume;
    var args := ExpandCombinedFlags(raw);
    var opts := NO_OPTIONS;
    var positional, i := false, 0;
    ResumeIsScan(args, opts, accepts);
    assert args[0..] == args;
    while i < |args|
      invariant i <= |args|
      invariant Scan(args, NO_OPTIONS, accepts) == Resume(positional, args[i..], opts, accepts)
      decreases |args| - i
    {
      var arg := args[i];
      assert args[i..] == [arg] + args[i + 1..];
      if positional || IsPositional(arg) {
        ResumeAtURL(positional, arg, args[i + 1..], opts, accepts);
        opts := opts.(urls := opts.urls + [arg]);
      } else if arg == "--" {
        ResumeAtDashes(args[i + 1..], opts, accepts);
        positional := true;
      } else {
        ResumeAtOption(arg, args[i + 1..], opts, accepts);
        var ok;
        if IsLong(arg) {
          ok, i, opts := LongOption(args, i, opts, accepts);
        } else {
          ok, i, opts := ShortOptions(args, i, arg[1..], opts, accepts);
        }
        if !ok {
          return None;
        }
        ResumeIsScan(args[i + 1..], opts, accepts);
      }
      i := i + 1;
    }
    ResumeAtEnd(positional, opts, accepts);
    assert args[i..] == [];
    r := Finish(opts);
  }

  // ----- The normal form -----

  /** The length of the leading run of known flags of a cluster. */
  function FlagRun(c: string): (n: nat)
    ensures n <= |c|
    ensures forall j :: 0 <= j < n ==> ShortFlag(c[j]).Some?
    ensures n < |c| ==> ShortFlag(c[n]).None?
  {
    if c == "" || ShortFlag(c[0]).None? then 0 else 1 + FlagRun(c[1..])
  }

  function Singles(flags: string): (args: seq<string>) {
    if flags == "" then [] else ["-" + [flags[0]]] + Singles(flags[1..])
  }

  /** Every option as an argument of its own and every value as another; what cannot be read stays as it is. */
  function Normal(args: seq<string>): seq<string>
    decreases |args|
  {
    if args == [] then []
    else
      var arg, rest := args[0], args[1..];
      if IsPositional(arg) then [arg] + Normal(rest)
      else if arg == "--" then args
      else if IsLong(arg) then
        if LongKey(NameOf(arg)).None? then [arg] + Normal(rest)
        else if ValueOf(arg).Some? then ["--" + NameOf(arg), ValueOf(arg).value] + Normal(rest)
        else WithNextArgument(arg, rest)
      else
        var n, c := FlagRun(arg[1..]), arg[1..];
        if n == |c| then Singles(c) + Normal(rest)
        else if ShortKey(c[n]).None? then [arg] + Normal(rest)
        else if c[n + 1..] != "" then Singles(c[..n]) + (["-" + [c[n]], c[n + 1..]] + Normal(rest))
        else Singles(c[..n]) + WithNextArgument("-" + [c[n]], rest)
  }

  function WithNextArgument(arg: string, rest: seq<string>): seq<string>
    decreases |rest|
  {
    if rest == [] then [arg] else [arg, rest[0]] + Normal(rest[1..])
  }

  /** Whether an option argument is followed by its value. */
  predicate NeedsNext(arg: string) {
    if IsLong(arg) then LongKey(NameOf(arg)).Some? else |arg| == 2 && ShortKey(arg[1]).Some?
  }

  /** Up to a "--", every option argument holds one option and no value. */
  predicate IsPlain(args: seq<string>)
    decreases |args|
  {
    args == [] || args[0] == "--"
    || if IsPositional(args[0]) then IsPlain(args[1..])
       else
         && (if IsLong(args[0]) then ValueOf(args[0]).None? else |args[0]| == 2)
         && (if NeedsNext(args[0]) then |args| >= 2 && IsPlain(args[2..]) else IsPlain(args[1..]))
  }

  lemma KnownCharactersAreNotHyphens(c: char)
    requires ShortFlag(c).Some? || ShortKey(c).Some?
    ensures c != '-' && (ShortFlag(c).None? || ShortKey(c).None?)
  {
  }

  lemma NameHasNoEquals(arg: string)
    requires IsLong(arg) && LongKey(NameOf(arg)).Some?
    ensures var plain := "--" + NameOf(arg);
            plain != "--" && IsLong(plain) && NameOf(plain) == NameOf(arg) && ValueOf(plain) == None
  {
    var name := NameOf(arg);
    assert ("--" + name)[2..] == name;
    IndexOfFirst(name, '=', |name|);
    assert name[..|name|] == name;
  }

  function SetFlags(o: Options, flags: string): Options
    requires forall j :: 0 <= j < |flags| ==> ShortFlag(flags[j]).Some?
    decreases |flags|
  {
    if flags == "" then o else SetFlags(SetFlag(o, ShortFlag(flags[0]).value), flags[1..])
  }

  lemma {:induction false} ReadFlagRun(flags: string, c: string, rest: seq<string>, o: Options, accepts: Accepts)
    requires forall j :: 0 <= j < |flags| ==> ShortFlag(flags[j]).Some?
    ensures ReadCluster(flags + c, rest, o, accepts) == ReadCluster(c, rest, SetFlags(o, flags), accepts)
  {
    hide ShortFlag, SetFlag;
    if flags == "" {
      assert flags + c == c;
    } else {
      assert (flags + c)[1..] == flags[1..] + c;
      ReadFlagRun(flags[1..], c, rest, SetFlag(o, ShortFlag(flags[0]).value), accepts);
    }
  }

  lemma {:induction false} ScanSingles(flags: string, tail: seq<string>, o: Options, accepts: Accepts)
    requires forall j :: 0 <= j < |flags| ==> ShortFlag(flags[j]).Some?
    ensures Scan(Singles(flags) + tail, o, accepts) == Scan(tail, SetFlags(o, flags), accepts)
  {
    hide ShortFlag, SetFlag, ReadLong, Finish;
    if flags == "" {
      assert Singles(flags) + tail == tail;
    } else {
      var o' := SetFlag(o, ShortFlag(flags[0]).value);
      var arg := "-" + [flags[0]];
      KnownCharactersAreNotHyphens(flags[0]);
      assert Singles(flags) + tail == [arg] + (Singles(flags[1..]) + tail);
      assert arg[1..] == [flags[0]] && [flags[0]][1..] == "";
      assert ReadCluster("", Singles(flags[1..]) + tail, o', accepts) == Some(State(o', Singles(flags[1..]) + tail));
      ScanSingles(flags[1..], tail, o', accepts);
    }
  }

  lemma KeysAreNotFlags(name: string)
    requires LongKey(name).Some?
    ensures LongFlag(name).None?
  {
    hide LongOptionNamed;
  }

  /** An option that needs a value, followed by it. */
  lemma ScanPair(arg: string, value: string, tail: seq<string>, o: Options, accepts: Accepts)
    requires !IsPositional(arg) && arg != "--"
    requires if IsLong(arg) then LongKey(NameOf(arg)).Some? && ValueOf(arg).None? else |arg| == 2 && ShortKey(arg[1]).Some?
    ensures Scan([arg, value] + tail, o, accepts)
            == Then(WithValue(o, if IsLong(arg) then LongKey(NameOf(arg)).value else ShortKey(arg[1]).value, value, tail, accepts), accepts)
  {
    hide LongFlag, LongKey, ShortFlag, ShortKey, SetFlag, SetValue, Finish, NameOf, ValueOf;
    var args := [arg, value] + tail;
    assert args[1..][0] == value && args[1..][1..] == tail;
    if IsLong(arg) {
      KeysAreNotFlags(NameOf(arg));
    } else {
      KnownCharactersAreNotHyphens(arg[1]);
      assert arg[1..][0] == arg[1] && arg[1..][1..] == "";
    }
  }

  lemma MeaningOfLong(args: seq<string>, o: Options, accepts: Accepts)
    requires args != [] && !IsPositional(args[0]) && args[0] != "--" && IsLong(args[0])
    requires forall k, o' :: 0 < k <= |args| ==> Scan(Normal(args[k..]), o', accepts) == Scan(args[k..], o', accepts)
    ensures Scan(Normal(args), o, accepts) == Scan(args, o, accepts)
  {
    hide LongFlag, LongKey, ShortFlag, ShortKey, SetFlag, SetValue, Finish, NameOf, ValueOf, ReadCluster;
    var arg, rest := args[0], args[1..];
    if LongKey(NameOf(arg)).None? {
      assert ([arg] + Normal(rest))[1..] == Normal(rest);
    } else {
      KeysAreNotFlags(NameOf(arg));
      NameHasNoEquals(arg);
      if ValueOf(arg).Some? {
        ScanPair("--" + NameOf(arg), ValueOf(arg).value, Normal(rest), o, accepts);
      } else if rest != [] {
        assert rest[1..] == args[2..];
        ScanPair(arg, rest[0], Normal(args[2..]), o, accepts);
        ScanPair(arg, rest[0], args[2..], o, accepts);
        assert args == [arg, rest[0]] + args[2..];
      }
    }
  }

  lemma ReadKey(c: string, n: nat, rest: seq<string>, o: Options, accepts: Accepts)
    requires n == FlagRun(c) < |c| && ShortKey(c[n]).Some?
    ensures var k, o' := ShortKey(c[n]).value, SetFlags(o, c[..n]);
            ReadCluster(c, rest, o, accepts)
            == if c[n + 1..] != "" then WithValue(o', k, c[n + 1..], rest, accepts)
               else if rest == [] then None
               else WithValue(o', k, rest[0], rest[1..], accepts)
  {
    hide ShortFlag, ShortKey, SetFlags, SetValue, WithValue;
    assert c[..n] + c[n..] == c && c[n..][0] == c[n] && c[n..][1..] == c[n + 1..];
    ReadFlagRun(c[..n], c[n..], rest, o, accepts);
  }

  lemma ScanLoneKey(c: char, o: Options, accepts: Accepts)
    requires ShortKey(c).Some?
    ensures Scan(["-" + [c]], o, accepts) == None
  {
    hide ShortFlag, ShortKey, SetFlag, SetValue, ReadLong, Finish;
    KnownCharactersAreNotHyphens(c);
    assert ("-" + [c])[1..] == [c] && [c][1..] == "";
  }

  lemma SameAfterValue(o: Options, k: Key, value: string, rest: seq<string>, accepts: Accepts)
    requires forall o' :: Scan(Normal(rest), o', accepts) == Scan(rest, o', accepts)
    ensures Then(WithValue(o, k, value, Normal(rest), accepts), accepts) == Then(WithValue(o, k, value, rest, accepts), accepts)
  {
    hide SetValue, Normal, Scan;
  }

  lemma NormalOfCluster(arg: string, rest: seq<string>)
    requires IsCluster(arg)
    ensures var c := arg[1..];
            var n := FlagRun(c);
            Normal([arg] + rest)
            == if n == |c| then Singles(c) + Normal(rest)
               else if ShortKey(c[n]).None? then [arg] + Normal(rest)
               else if c[n + 1..] != "" then Singles(c[..n]) + ([("-" + [c[n]]), c[n + 1..]] + Normal(rest))
               else if rest == [] then Singles(c[..n]) + ["-" + [c[n]]]
               else Singles(c[..n]) + (["-" + [c[n]], rest[0]] + Normal(rest[1..]))
  {
    hide LongKey, ShortFlag, ShortKey, NameOf, ValueOf, Singles, FlagRun;
    assert ([arg] + rest)[1..] == rest;
  }

  lemma MeaningOfShortKey(args: seq<string>, n: nat, o: Options, accepts: Accepts)
    requires args != [] && IsCluster(args[0])
    requires n == FlagRun(args[0][1..]) < |args[0][1..]| && ShortKey(args[0][1..][n]).Some?
    requires forall k, o' :: 0 < k <= |args| ==> Scan(Normal(args[k..]), o', accepts) == Scan(args[k..], o', accepts)
    ensures Scan(Normal(args), o, accepts) == Scan(args, o, accepts)
  {
    hide LongKey, ShortFlag, ShortKey, SetFlags, WithValue, NameOf, ValueOf, Singles, Normal, ReadCluster, Scan;
    var rest, c := args[1..], args[0][1..];
    var o', key := SetFlags(o, c[..n]), "-" + [c[n]];
    assert args == [args[0]] + rest;
    NormalOfCluster(args[0], rest);
    ResumeIsScan(args, o, accepts);
    ResumeAtOption(args[0], rest, o, accepts);
    ReadKey(c, n, rest, o, accepts);
    KnownCharactersAreNotHyphens(c[n]);
    if c[n + 1..] != "" {
      ScanSingles(c[..n], [key, c[n + 1..]] + Normal(rest), o, accepts);
      ScanPair(key, c[n + 1..], Normal(rest), o', accepts);
      SameAfterValue(o', ShortKey(c[n]).value, c[n + 1..], rest, accepts);
    } else if rest == [] {
      ScanSingles(c[..n], [key], o, accepts);
      ScanLoneKey(c[n], o', accepts);
    } else {
      assert rest[1..] == args[2..];
      ScanSingles(c[..n], [key, rest[0]] + Normal(rest[1..]), o, accepts);
      ScanPair(key, rest[0], Normal(rest[1..]), o', accepts);
      SameAfterValue(o', ShortKey(c[n]).value, rest[0], rest[1..], accepts);
    }
  }

  lemma MeaningOfCluster(args: seq<string>, o: Options, accepts: Accepts)
    requires args != [] && IsCluster(args[0])
    requires forall k, o' :: 0 < k <= |args| ==> Scan(Normal(args[k..]), o', accepts) == Scan(args[k..], o', accepts)
    ensures Scan(Normal(args), o, accepts) == Scan(args, o, accepts)
  {
    hide LongFlag, LongKey, ShortFlag, ShortKey, SetFlag, SetValue, Finish, NameOf, ValueOf, SetFlags, Singles;
    var rest, c := args[1..], args[0][1..];
    var n := FlagRun(c);
    var o' := SetFlags(o, c[..n]);
    assert c[..n] + c[n..] == c;
    ReadFlagRun(c[..n], c[n..], rest, o, accepts);
    if n == |c| {
      assert c[..n] == c;
      ScanSingles(c, Normal(rest), o, accepts);
    } else if ShortKey(c[n]).None? {
      assert ReadCluster(c[n..], rest, o', accepts) == None;
      assert ReadCluster(c[n..], Normal(rest), o', accepts) == None;
      ReadFlagRun(c[..n], c[n..], Normal(rest), o, accepts);
      assert ([args[0]] + Normal(rest))[1..] == Normal(rest);
    } else {
      MeaningOfShortKey(args, n, o, accepts);
    }
  }

  /** The normal form says what the argument list says. */
  lemma {:induction false} NormalKeepsMeaning(args: seq<string>, o: Options, accepts: Accepts)
    ensures Scan(Normal(args), o, accepts) == Scan(args, o, accepts)
    decreases |args|
  {
    hide LongFlag, LongKey, ShortFlag, ShortKey, SetFlag, SetValue, Finish, ReadLong, ReadCluster, Singles;
    forall k, o' | 0 < k <= |args| ensures Scan(Normal(args[k..]), o', accepts) == Scan(args[k..], o', accepts) {
      NormalKeepsMeaning(args[k..], o', accepts);
    }
    if args == [] || args[0] == "--" {
    } else if IsPositional(args[0]) {
      assert ([args[0]] + Normal(args[1..]))[1..] == Normal(args[1..]);
    } else if IsLong(args[0]) {
      MeaningOfLong(args, o, accepts);
    } else {
      MeaningOfCluster(args, o, accepts);
    }
  }

  lemma NormalOfSingle(f: char, tail: seq<string>)
    requires ShortFlag(f).Some?
    ensures Normal(["-" + [f]] + tail) == ["-" + [f]] + Normal(tail)
    ensures IsPlain(tail) ==> IsPlain(["-" + [f]] + tail)
  {
    hide ShortFlag, ShortKey;
    var arg, c := "-" + [f], [f];
    KnownCharactersAreNotHyphens(f);
    assert ([arg] + tail)[1..] == tail;
    assert arg[1..] == c && c[1..] == "" && FlagRun(c[1..]) == 0 && FlagRun(c) == 1;
    assert Singles(c) == [arg] + Singles(c[1..]) == [arg];
  }

  lemma {:induction false} NormalOfSingles(flags: string, tail: seq<string>)
    requires forall j :: 0 <= j < |flags| ==> ShortFlag(flags[j]).Some?
    ensures Normal(Singles(flags) + tail) == Singles(flags) + Normal(tail)
    ensures IsPlain(tail) ==> IsPlain(Singles(flags) + tail)
  {
    hide ShortFlag, ShortKey, Normal, IsPlain;
    if flags == "" {
      assert Singles(flags) + tail == tail && Singles(flags) + Normal(tail) == Normal(tail);
    } else {
      var arg, more := "-" + [flags[0]], Singles(flags[1..]);
      assert Singles(flags) + tail == [arg] + (more + tail);
      NormalOfSingles(flags[1..], tail);
      NormalOfSingle(flags[0], more + tail);
      assert Singles(flags) + Normal(tail) == [arg] + (more + Normal(tail));
    }
  }

  lemma NormalOfPair(arg: string, value: string, tail: seq<string>)
    requires !IsPositional(arg) && arg != "--"
    requires if IsLong(arg) then LongKey(NameOf(arg)).Some? && ValueOf(arg).None? else |arg| == 2 && ShortKey(arg[1]).Some?
    ensures Normal([arg, value] + tail) == [arg, value] + Normal(tail)
    ensures IsPlain(tail) ==> IsPlain([arg, value] + tail)
  {
    hide LongKey, ShortFlag, ShortKey, NameOf, ValueOf;
    var args := [arg, value] + tail;
    assert args[1..][0] == value && args[1..][1..] == tail && args[2..] == tail;
    if !IsLong(arg) {
      KnownCharactersAreNotHyphens(arg[1]);
      assert arg[1..] == [arg[1]] && FlagRun(arg[1..]) == 0;
      assert arg[1..][1..] == "" && "-" + [arg[1]] == arg;
      assert Singles(arg[1..][..0]) == [];
    }
  }

  lemma IdempotentPair(flags: string, key: char, value: string, tail: seq<string>)
    requires (forall j :: 0 <= j < |flags| ==> ShortFlag(flags[j]).Some?) && ShortKey(key).Some?
    requires Normal(tail) == tail
    ensures var args := Singles(flags) + (["-" + [key], value] + tail); Normal(args) == args
  {
    hide LongKey, ShortFlag, ShortKey, NameOf, ValueOf, Singles, Normal;
    KnownCharactersAreNotHyphens(key);
    var arg := "-" + [key];
    assert arg[0] == '-' && arg[1] == key;
    NormalOfPair(arg, value, tail);
    NormalOfSingles(flags, ["-" + [key], value] + tail);
  }

  lemma NormalOfLoneKey(key: string)
    requires |key| == 2 && key[0] == '-' && key[1] != '-' && ShortFlag(key[1]).None? && ShortKey(key[1]).Some?
    ensures Normal([key]) == [key]
  {
    hide ShortFlag, ShortKey;
    assert key[1..] == [key[1]] && FlagRun(key[1..]) == 0;
    assert key[1..][1..] == "" && "-" + [key[1]] == key;
    assert Singles(key[1..][..0]) + [key] == [key];
  }

  lemma IdempotentCluster(args: seq<string>)
    requires args != [] && IsCluster(args[0])
    requires Normal(Normal(args[1..])) == Normal(args[1..])
    requires |args| > 1 ==> Normal(Normal(args[1..][1..])) == Normal(args[1..][1..])
    ensures Normal(Normal(args)) == Normal(args)
  {
    hide LongKey, ShortFlag, ShortKey, NameOf, ValueOf, Singles, Normal;
    var rest, c := args[1..], args[0][1..];
    var n := FlagRun(c);
    assert args == [args[0]] + rest;
    NormalOfCluster(args[0], rest);
    if n == |c| {
      NormalOfSingles(c, Normal(rest));
    } else if ShortKey(c[n]).None? {
      NormalOfCluster(args[0], Normal(rest));
    } else if c[n + 1..] != "" {
      IdempotentPair(c[..n], c[n], c[n + 1..], Normal(rest));
    } else if rest != [] {
      IdempotentPair(c[..n], c[n], rest[0], Normal(rest[1..]));
    } else {
      KnownCharactersAreNotHyphens(c[n]);
      NormalOfLoneKey("-" + [c[n]]);
      NormalOfSingles(c[..n], ["-" + [c[n]]]);
    }
  }

  /** Normalising twice changes nothing more. */
  lemma {:induction false} NormalIsIdempotent(args: seq<string>)
    ensures Normal(Normal(args)) == Normal(args)
    decreases |args|
  {
    hide LongKey, ShortFlag, ShortKey, NameOf, ValueOf, Singles;
    if args == [] || args[0] == "--" {
      return;
    }
    var arg, rest := args[0], args[1..];
    NormalIsIdempotent(rest);
    if rest != [] {
      NormalIsIdempotent(rest[1..]);
    }
    var alone := [arg] + Normal(rest);
    assert alone[1..] == Normal(rest);
    if IsPositional(arg) {
    } else if IsLong(arg) {
      if LongKey(NameOf(arg)).Some? {
        NameHasNoEquals(arg);
        if ValueOf(arg).Some? {
          NormalOfPair("--" + NameOf(arg), ValueOf(arg).value, Normal(rest));
        } else if rest != [] {
          NormalOfPair(arg, rest[0], Normal(rest[1..]));
        }
      }
    } else {
      IdempotentCluster(args);
    }
  }

  lemma ClusterLeaves(c: string, rest: seq<string>, o: Options, accepts: Accepts)
    requires ReadCluster(c, rest, o, accepts).Some?
    ensures var n := FlagRun(c);
            var left := ReadCluster(c, rest, o, accepts).value.rest;
            if n == |c| then left == rest
            else ShortKey(c[n]).Some? && if c[n + 1..] != "" then left == rest else rest != [] && left == rest[1..]
  {
    hide ShortFlag, ShortKey, SetFlags, SetValue;
    var n := FlagRun(c);
    assert c[..n] + c[n..] == c;
    ReadFlagRun(c[..n], c[n..], rest, o, accepts);
    if n < |c| {
      assert c[n..][0] == c[n] && c[n..][1..] == c[n + 1..];
    }
  }

  lemma PlainCluster(args: seq<string>, o: Options, accepts: Accepts)
    requires args != [] && IsCluster(args[0])
    requires var next := ReadCluster(args[0][1..], args[1..], o, accepts); next.Some? && IsPlain(Normal(next.value.rest))
    ensures IsPlain(Normal(args))
  {
    hide LongKey, ShortFlag, ShortKey, SetFlags, SetValue, NameOf, ValueOf, Singles, IsPlain, Normal, ReadCluster;
    var rest, c := args[1..], args[0][1..];
    var n := FlagRun(c);
    assert args == [args[0]] + rest;
    NormalOfCluster(args[0], rest);
    ClusterLeaves(c, rest, o, accepts);
    if n == |c| {
      NormalOfSingles(c, Normal(rest));
    } else {
      var key := "-" + [c[n]];
      KnownCharactersAreNotHyphens(c[n]);
      if c[n + 1..] != "" {
        NormalOfPair(key, c[n + 1..], Normal(rest));
        NormalOfSingles(c[..n], [key, c[n + 1..]] + Normal(rest));
      } else {
        NormalOfPair(key, rest[0], Normal(rest[1..]));
        NormalOfSingles(c[..n], [key, rest[0]] + Normal(rest[1..]));
      }
    }
  }

  /** An accepted list has no cluster and no attached value left in its normal form. */
  lemma {:induction false} AcceptedBecomesPlain(args: seq<string>, o: Options, accepts: Accepts)
    requires Scan(args, o, accepts).Some?
    ensures IsPlain(Normal(args))
    decreases |args|
  {
    hide LongFlag, LongKey, ShortFlag, ShortKey, SetFlag, SetValue, Finish, ReadCluster, NameOf, ValueOf, Singles;
    if args == [] || args[0] == "--" {
      return;
    }
    var arg, rest := args[0], args[1..];
    var alone := [arg] + Normal(rest);
    assert alone[1..] == Normal(rest);
    if IsPositional(arg) {
      AcceptedBecomesPlain(rest, o.(urls := o.urls + [arg]), accepts);
    } else if IsLong(arg) {
      var next := ReadLong(arg, rest, o, accepts).value;
      AcceptedBecomesPlain(next.rest, next.options, accepts);
      if LongKey(NameOf(arg)).Some? {
        KeysAreNotFlags(NameOf(arg));
        NameHasNoEquals(arg);
        if ValueOf(arg).Some? {
          NormalOfPair("--" + NameOf(arg), ValueOf(arg).value, Normal(rest));
        } else {
          NormalOfPair(arg, rest[0], Normal(rest[1..]));
        }
      }
    } else {
      var next := ReadCluster(arg[1..], rest, o, accepts).value;
      AcceptedBecomesPlain(next.rest, next.options, accepts);
      PlainCluster(args, o, accepts);
    }
  }

  lemma FlagsAloneAreACluster(flags: string, c: string)
    requires flags != "" && forall j :: 0 <= j < |flags| ==> ShortFlag(flags[j]).Some?
    ensures IsCluster("-" + flags + c) && ("-" + flags + c)[1..] == flags + c
  {
    hide ShortFlag;
    KnownCharactersAreNotHyphens(flags[0]);
    var arg := "-" + flags + c;
    assert arg[1] == flags[0] && |arg| >= 2;
    assert arg[1..] == flags + c;
  }

  lemma HyphenIsUnknown(more: string, rest: seq<string>, o: Options, accepts: Accepts)
    ensures ReadCluster("-" + more, rest, o, accepts) == None
  {
  }

  /** A hyphen cannot be split off a cluster: behind any flags it is refused, whatever follows it there,
      but as an argument `--` of its own it ends the options. */
  lemma HyphenMustStay(flags: string, more: string, tail: seq<string>, o: Options, accepts: Accepts)
    requires flags != "" && forall j :: 0 <= j < |flags| ==> ShortFlag(flags[j]).Some?
    ensures Scan(["-" + flags + "-" + more] + tail, o, accepts) == None
    ensures Scan(["-" + flags, "--"] + tail, o, accepts)
            == Finish(SetFlags(o, flags).(urls := SetFlags(o, flags).urls + tail))
  {
    hide ShortFlag, SetFlags, Finish, Scan, ReadLong;
    var first, second, o' := "-" + flags + ("-" + more), "-" + flags + "", SetFlags(o, flags);
    assert first == "-" + flags + "-" + more && second == "-" + flags;
    FlagsAloneAreACluster(flags, "-" + more);
    FlagsAloneAreACluster(flags, "");
    ResumeIsScan([first] + tail, o, accepts);
    ResumeAtOption(first, tail, o, accepts);
    ReadFlagRun(flags, "-" + more, tail, o, accepts);
    HyphenIsUnknown(more, tail, o', accepts);
    ResumeIsScan([second] + (["--"] + tail), o, accepts);
    ResumeAtOption(second, ["--"] + tail, o, accepts);
    ReadFlagRun(flags, "", ["--"] + tail, o, accepts);
    ResumeIsScan(["--"] + tail, o', accepts);
    ResumeAtDashes(tail, o', accepts);
    assert [second] + (["--"] + tail) == ["-" + flags, "--"] + tail;
  }

  /** The long name that the documentation gives a short option. */
  function LongName(c: char): string
    requires ShortFlag(c).Some? || ShortKey(c).Some?
  {
    match c
    case 'i' => "include"
    case 's' => "silent"
    case 'S' => "show-error"
    case 'v' => "verbose"
    case 'k' => "insecure"
    case 'g' => "globoff"
    case '4' => "ipv4"
    case '6' => "ipv6"
    case 'h' => "help"
    case 'V' => "version"
    case 'H' => "header"
    case 'm' => "max-time"
  }

  lemma NamedFlags()
    ensures LongOptionNamed("include") == Some(Meaning.Flag(Include))
    ensures LongOptionNamed("silent") == Some(Meaning.Flag(Silent))
    ensures LongOptionNamed("show-error") == Some(Meaning.Flag(ShowError))
    ensures LongOptionNamed("verbose") == Some(Meaning.Flag(Verbose))
    ensures LongOptionNamed("insecure") == Some(Meaning.Flag(Insecure))
  {
  }

  lemma NamedChoices()
    ensures LongOptionNamed("globoff") == Some(Meaning.Flag(Globoff))
    ensures LongOptionNamed("ipv4") == Some(Meaning.Flag(IPv4))
    ensures LongOptionNamed("ipv6") == Some(Meaning.Flag(IPv6))
    ensures LongOptionNamed("help") == Some(Meaning.Flag(Help))
    ensures LongOptionNamed("version") == Some(Meaning.Flag(Version))
  {
  }

  lemma NamedKeys()
    ensures LongOptionNamed("header") == Some(Meaning.Key(Header))
    ensures LongOptionNamed("max-time") == Some(Meaning.Key(MaxTime))
  {
  }

  lemma LongNameMeansTheSame(c: char)
    requires ShortFlag(c).Some? || ShortKey(c).Some?
    ensures LongFlag(LongName(c)) == ShortFlag(c) && LongKey(LongName(c)) == ShortKey(c)
  {
    hide LongOptionNamed;
    NamedFlags();
    NamedChoices();
    NamedKeys();
  }

  lemma LongNameIsBare(c: char)
    requires ShortFlag(c).Some? || ShortKey(c).Some?
    ensures LongName(c) != "" && '=' !in LongName(c)
  {
  }

  /** A short option does what its long name does, whatever follows. */
  lemma ShortMeansLong(c: char, tail: seq<string>, o: Options, accepts: Accepts)
    requires ShortFlag(c).Some? || ShortKey(c).Some?
    ensures Scan(["-" + [c]] + tail, o, accepts) == Scan(["--" + LongName(c)] + tail, o, accepts)
  {
    hide ShortFlag, ShortKey, LongFlag, LongKey, LongName, SetFlag, Scan, WithValue;
    LongNameMeansTheSame(c);
    LongNameIsBare(c);
    KnownCharactersAreNotHyphens(c);
    var short, name := "-" + [c], LongName(c);
    var long := "--" + name;
    assert long[2..] == name && name[..|name|] == name;
    IndexOfFirst(name, '=', |name|);
    assert short[1..] == [c] && [c][1..] == "";
    ResumeIsScan([short] + tail, o, accepts);
    ResumeIsScan([long] + tail, o, accepts);
    ResumeAtOption(short, tail, o, accepts);
    ResumeAtOption(long, tail, o, accepts);
    if ShortFlag(c).Some? {
      assert ReadCluster("", tail, SetFlag(o, ShortFlag(c).value), accepts) == Some(State(SetFlag(o, ShortFlag(c).value), tail));
    }
  }

  // ----- Combined arguments and words -----

  lemma WordLengthIs(s: string, n: nat)
    requires n <= |s| && (forall j :: 0 <= j < n ==> !IsSpace(s[j])) && (n < |s| ==> IsSpace(s[n]))
    ensures WordLength(s) == n
  {
  }

  lemma {:induction false} WordEnds(w: string, tail: string)
    requires IsWord(w) && (tail != "" ==> IsSpace(tail[0]))
    ensures Fields(w + tail) == [w] + Fields(tail)
  {
    var s := w + tail;
    WordLengthIs(s, |w|);
    assert s[0] == w[0] && s[..|w|] == w && s[|w|..] == tail;
  }

  lemma {:induction false} FieldsOfJoin(words: seq<string>)
    requires forall k :: 0 <= k < |words| ==> IsWord(words[k])
    ensures Fields(Join(words, ' ')) == words
  {
    if words == [] {
    } else if |words| == 1 {
      WordEnds(words[0], "");
      assert words[0] + "" == words[0];
    } else {
      var rest := Join(words[1..], ' ');
      var s := Join(words, ' ');
      assert s == words[0] + ([' '] + rest);
      WordEnds(words[0], [' '] + rest);
      assert ([' '] + rest)[1..] == rest;
      FieldsOfJoin(words[1..]);
    }
  }

  /** Any white space separates words, and as much of it as there is. */
  lemma {:induction false} SpacesSeparate(space: string, w: string, tail: string)
    requires (forall j :: 0 <= j < |space| ==> IsSpace(space[j])) && IsWord(w) && (tail != "" ==> IsSpace(tail[0]))
    ensures Fields(space + (w + tail)) == [w] + Fields(tail)
    ensures Fields(space) == []
    decreases |space|
  {
    hide IsSpace;
    if space == "" {
      assert space + (w + tail) == w + tail;
      WordEnds(w, tail);
    } else {
      var s := space + (w + tail);
      assert s[0] == space[0] && s[1..] == space[1..] + (w + tail);
      SpacesSeparate(space[1..], w, tail);
    }
  }

  /** One argument that holds a whole command line is read as that command line. */
  lemma CombinedIsReadAsWords(words: seq<string>, tail: seq<string>)
    requires |words| >= 2 && words[0] != "" && words[0][0] == '-'
    requires forall k :: 0 <= k < |words| ==> IsWord(words[k])
    ensures Expanded([Join(words, ' ')] + tail) == words + Expanded(tail)
  {
    var s := Join(words, ' ');
    assert s == words[0] + [' '] + Join(words[1..], ' ');
    assert s[0] == '-' && s[|words[0]|] == ' ';
    FieldsOfJoin(words);
    assert ([s] + tail)[1..] == tail;
  }

  lemma {:induction false} NothingStaysCombined(args: seq<string>)
    ensures forall k :: 0 <= k < |Expanded(args)| ==> !IsCombined(Expanded(args)[k])
  {
    if args != [] {
      NothingStaysCombined(args[1..]);
      var words := Fields(args[0]);
      forall k | 0 <= k < |words| ensures !IsCombined(words[k]) {
        assert IsWord(words[k]);
      }
    }
  }

  lemma {:induction false} UncombinedStays(args: seq<string>)
    requires forall k :: 0 <= k < |args| ==> !IsCombined(args[k])
    ensures Expanded(args) == args
  {
    if args != [] {
      UncombinedStays(args[1..]);
    }
  }

  /** Expansion leaves a list alone exactly when nothing in it is combined, so it has nothing left to do afterwards. */
  lemma {:induction false} ExpansionSettles(args: seq<string>)
    ensures forall k :: 0 <= k < |Expanded(args)| ==> !IsCombined(Expanded(args)[k])
    ensures Expanded(args) == args <==> forall k :: 0 <= k < |args| ==> !IsCombined(args[k])
    ensures Expanded(Expanded(args)) == Expanded(args)
  {
    NothingStaysCombined(args);
    if forall k :: 0 <= k < |args| ==> !IsCombined(args[k]) {
      UncombinedStays(args);
    }
    UncombinedStays(Expanded(args));
  }

  lemma ReadAttachedHeader(name: string, rest: seq<string>, o: Options, accepts: Accepts)
    requires name != ""
    ensures ReadCluster("H" + name, rest, o, accepts) == Some(State(o.(headers := o.headers + [name]), rest))
  {
    var c := "H" + name;
    assert c[0] == 'H' && c[1..] == name;
  }

  lemma ScanAttachedHeader(name: string, rest: seq<string>, o: Options, accepts: Accepts)
    requires name != ""
    ensures Scan(["-H" + name] + rest, o, accepts) == Scan(rest, o.(headers := o.headers + [name]), accepts)
  {
    hide Scan, Finish, ReadLong, ReadCluster;
    var arg := "-H" + name;
    assert arg[0] == '-' && arg[1] == 'H' && arg[1..] == "H" + name;
    ResumeIsScan([arg] + rest, o, accepts);
    ResumeAtOption(arg, rest, o, accepts);
    ReadAttachedHeader(name, rest, o, accepts);
  }

  lemma ScanTwoURLs(a: string, b: string, o: Options, accepts: Accepts)
    requires IsPositional(a) && IsPositional(b)
    ensures Scan([a, b], o, accepts) == Finish(o.(urls := o.urls + [a, b]))
  {
    hide Finish, ReadLong, ReadCluster;
    assert [a, b][1..] == [b] && [b][1..] == [];
    assert o.urls + [a] + [b] == o.urls + [a, b];
    var o' := o.(urls := o.urls + [a]);
    assert Scan([b], o', accepts) == Scan([], o'.(urls := o'.urls + [b]), accepts);
  }

  /** So `-HName: value` in one argument loses its value: the second word becomes a URL. */
  lemma AttachedHeaderIsSplit(name: string, value: string, url: string, accepts: Accepts)
    requires IsWord(name) && IsWord(value) && IsPositional(value) && IsPositional(url) && !IsCombined(url)
    ensures Scan(Expanded(["-H" + name + " " + value, url]), NO_OPTIONS, accepts)
            == Some(NO_OPTIONS.(headers := [name], urls := [value, url]))
  {
    hide Expanded, Scan, IsPositional, IsCombined;
    var first := "-H" + name;
    var words := [first, value];
    forall j | 0 <= j < |first| ensures !IsSpace(first[j]) {
      assert j >= 2 ==> first[j] == name[j - 2];
    }
    assert words[1..] == [value];
    assert Join(words, ' ') == "-H" + name + " " + value;
    CombinedIsReadAsWords(words, [url]);
    assert [Join(words, ' ')] + [url] == ["-H" + name + " " + value, url];
    UncombinedStays([url]);
    assert words + [url] == [first] + [value, url];
    ScanAttachedHeader(name, [value, url], NO_OPTIONS, accepts);
    var o := NO_OPTIONS.(headers := [name]);
    assert NO_OPTIONS.headers + [name] == [name] && o.urls + [value, url] == [value, url];
    ScanTwoURLs(value, url, o, accepts);
  }

  // ----- When an attached header survives -----

  function WithURLs(r: Option<State>, urls: seq<string>): Option<State> {
    if r.None? then None else Some(r.value.(options := r.value.options.(urls := urls)))
  }

  /** A cluster neither reads nor changes the URLs, and headers are only ever added. */
  lemma {:induction false} ClusterLeavesURLs(short: string, rest: seq<string>, o: Options, urls: seq<string>, accepts: Accepts)
    ensures var r := ReadCluster(short, rest, o, accepts);
            && ReadCluster(short, rest, o.(urls := urls), accepts) == WithURLs(r, urls)
            && (r.Some? ==> o.headers <= r.value.options.headers && r.value.options.urls == o.urls)
    decreases |short|
  {
    hide ShortFlag, ShortKey;
    if short != "" && ShortFlag(short[0]).Some? {
      ClusterLeavesURLs(short[1..], rest, SetFlag(o, ShortFlag(short[0]).value), urls, accepts);
    }
  }

  lemma LongLeavesURLs(arg: string, rest: seq<string>, o: Options, urls: seq<string>, accepts: Accepts)
    requires IsLong(arg)
    ensures var r := ReadLong(arg, rest, o, accepts);
            && ReadLong(arg, rest, o.(urls := urls), accepts) == WithURLs(r, urls)
            && (r.Some? ==> o.headers <= r.value.options.headers && r.value.options.urls == o.urls)
  {
    hide NameOf, ValueOf, LongFlag, LongKey;
  }

  /** Headers already read stay in front, and how many URLs are added does not depend on those before. */
  lemma {:induction false} ScanAdds(args: seq<string>, o: Options, urls: seq<string>, accepts: Accepts)
    ensures var r, r' := Scan(args, o, accepts), Scan(args, o.(urls := urls), accepts);
            && (r.Some? ==> o.headers <= r.value.headers)
            && (r.Some? && r'.Some? ==> |r'.value.urls| - |urls| == |r.value.urls| - |o.urls|)
    decreases |args|
  {
    hide ReadLong, ReadCluster;
    if args != [] && args[0] != "--" {
      var arg, rest := args[0], args[1..];
      if IsPositional(arg) {
        ScanAdds(rest, o.(urls := o.urls + [arg]), urls + [arg], accepts);
      } else if IsLong(arg) {
        LongLeavesURLs(arg, rest, o, urls, accepts);
        var next := ReadLong(arg, rest, o, accepts);
        if next.Some? {
          ScanAdds(next.value.rest, next.value.options, urls, accepts);
        }
      } else {
        ClusterLeavesURLs(arg[1..], rest, o, urls, accepts);
        var next := ReadCluster(arg[1..], rest, o, accepts);
        if next.Some? {
          ScanAdds(next.value.rest, next.value.options, urls, accepts);
        }
      }
    }
  }

  /** Readings that begin with different headers end differently. */
  lemma FirstHeaderShows(a: string, b: string, args: seq<string>, args': seq<string>, o: Options, accepts: Accepts)
    requires a != b
    requires Scan(args, o.(headers := o.headers + [a]), accepts).Some?
    ensures Scan(args', o.(headers := o.headers + [b]), accepts) != Scan(args, o.(headers := o.headers + [a]), accepts)
  {
    hide Scan;
    var oa, ob := o.(headers := o.headers + [a]), o.(headers := o.headers + [b]);
    ScanAdds(args, oa, oa.urls, accepts);
    ScanAdds(args', ob, ob.urls, accepts);
    assert oa.headers[|o.headers|] == a && ob.headers[|o.headers|] == b;
  }

  lemma ScanHeaderThen(value: string, rest: seq<string>, o: Options, accepts: Accepts)
    ensures Scan(["-H", value] + rest, o, accepts) == Scan(rest, o.(headers := o.headers + [value]), accepts)
  {
    hide Scan;
    ScanPair("-H", value, rest, o, accepts);
  }

  lemma ScanURL(arg: string, rest: seq<string>, o: Options, accepts: Accepts)
    requires IsPositional(arg)
    ensures Scan([arg] + rest, o, accepts) == Scan(rest, o.(urls := o.urls + [arg]), accepts)
  {
    hide Scan, IsPositional;
    ResumeIsScan([arg] + rest, o, accepts);
    ResumeAtURL(false, arg, rest, o, accepts);
    ResumeIsScan(rest, o.(urls := o.urls + [arg]), accepts);
  }

  /** The first word of `-H` and a value with a space: what is left of the value there, if anything. */
  lemma FirstWordOfHeader(v: string)
    requires ' ' in v
    ensures var words := Fields("-H" + v);
            && words != [] && |words[0]| >= 2 && words[0] == "-H" + words[0][2..]
            && ' ' !in words[0][2..] && words[0][2..] != v
            && (words[0] == "-H" ==> IsPositional(v))
    ensures IsCombined("-H" + v)
  {
    var s := "-H" + v;
    var n := WordLength(s);
    assert s[0] == '-' && s[1] == 'H' && s[2..] == v;
    var k :| 0 <= k < |v| && v[k] == ' ';
    assert s[k + 2] == ' ' && IsSpace(s[k + 2]) && n <= k + 2;
    assert n >= 2;
    var w := s[..n];
    assert Fields(s)[0] == w && IsWord(w);
    assert w == "-H" + w[2..];
    forall j | 0 <= j < |w[2..]| ensures w[2..][j] != ' ' {
      assert w[2..][j] == w[j + 2];
    }
    if w == "-H" {
      assert IsSpace(s[2]) && s[2] == v[0];
    }
  }

  lemma WordHasNoSpace(w: string, v: string)
    requires IsWord(w) && ' ' in v
    ensures w != v
  {
  }

  /** `-H` alone takes the next argument, which is not the value meant, or is missed among the URLs. */
  lemma TakenFromTheRest(v: string, t: seq<string>, o: Options, accepts: Accepts)
    requires t != [] && (t[0] == v ==> IsPositional(v)) && Scan(t, o.(headers := o.headers + [v]), accepts).Some?
    ensures Scan(["-H"] + t, o, accepts) != Scan(t, o.(headers := o.headers + [v]), accepts)
  {
    hide Scan, IsPositional;
    var want := o.(headers := o.headers + [v]);
    assert ["-H"] + t == ["-H", t[0]] + t[1..];
    ScanHeaderThen(t[0], t[1..], o, accepts);
    if t[0] != v {
      FirstHeaderShows(v, t[0], t, t[1..], o, accepts);
    } else {
      assert t == [v] + t[1..];
      ScanURL(v, t[1..], want, accepts);
      ScanAdds(t[1..], want, want.urls + [v], accepts);
    }
  }

  /** Cut off by a space, the header read first is not the one meant, or it is taken from the URLs. */
  lemma CutHeaderIsLost(v: string, t: seq<string>, o: Options, accepts: Accepts)
    requires ' ' in v && Scan(t, o.(headers := o.headers + [v]), accepts).Some?
    ensures Scan(Fields("-H" + v) + t, o, accepts) != Scan(t, o.(headers := o.headers + [v]), accepts)
  {
    hide Scan, Fields, IsPositional, IsCombined, IsWord;
    FirstWordOfHeader(v);
    var words := Fields("-H" + v);
    var first, more := words[0], words[1..];
    assert words + t == [first] + (more + t);
    if first != "-H" {
      ScanAttachedHeader(first[2..], more + t, o, accepts);
      FirstHeaderShows(v, first[2..], t, more + t, o, accepts);
    } else if more != [] {
      WordHasNoSpace(more[0], v);
      assert [first] + (more + t) == ["-H", more[0]] + (more[1..] + t);
      ScanHeaderThen(more[0], more[1..] + t, o, accepts);
      FirstHeaderShows(v, more[0], t, more[1..] + t, o, accepts);
    } else {
      assert more + t == t;
      if t == [] {
        assert first == "-" + ['H'] && [first] + t == ["-" + ['H']];
        ScanLoneKey('H', o, accepts);
      } else {
        TakenFromTheRest(v, t, o, accepts);
      }
    }
  }

  /** A header attached as `-Hvalue` is read as that header if and only if the value has no space: in any
      list whose other arguments are accepted beside it, whatever has been read before. */
  lemma AttachedHeaderSurvivesExactlyWhen(v: string, tail: seq<string>, o: Options, accepts: Accepts)
    requires v != "" && Scan(Expanded(tail), o.(headers := o.headers + [v]), accepts).Some?
    ensures Scan(Expanded(["-H" + v] + tail), o, accepts) == Scan(Expanded(tail), o.(headers := o.headers + [v]), accepts)
            <==> ' ' !in v
  {
    hide Scan, Fields;
    var first := "-H" + v;
    assert ([first] + tail)[1..] == tail;
    if ' ' in v {
      FirstWordOfHeader(v);
      CutHeaderIsLost(v, Expanded(tail), o, accepts);
    } else {
      assert first[0] == '-' && first[1] == 'H' && first[2..] == v;
      assert ' ' !in first;
      ScanAttachedHeader(v, Expanded(tail), o, accepts);
    }
  }

  lemma ScanNothing(o: Options, accepts: Accepts)
    ensures Scan([], o, accepts) == Finish(o)
  {
  }

  /** For one header and one URL. */
  lemma AttachedHeaderWithURL(v: string, url: string, accepts: Accepts)
    requires v != "" && IsPositional(url)
    ensures Scan(Expanded(["-H" + v, url]), NO_OPTIONS, accepts) == Some(NO_OPTIONS.(headers := [v], urls := [url]))
            <==> ' ' !in v
  {
    hide Scan;
    UncombinedStays([url]);
    var o := NO_OPTIONS.(headers := [v]);
    assert NO_OPTIONS.headers + [v] == [v] && o.urls + [url] == [url];
    ScanURL(url, [], o, accepts);
    assert [url] + [] == [url] && ["-H" + v] + [url] == ["-H" + v, url];
    ScanNothing(o.(urls := [url]), accepts);
    AttachedHeaderSurvivesExactlyWhen(v, [url], NO_OPTIONS, accepts);
  }
}
