/** What every option on the command line does to the options, by the names that the documentation gives. */
module ArgumentEffects {
  import opened Wrappers
  import opened Text
  import opened Arguments

  // ----- Reading one option -----

  lemma NamedUTLSFlags()
    ensures LongOptionNamed("utls-hello-list") == Some(Meaning.Flag(HelloList))
    ensures LongOptionNamed("utls-info") == Some(Meaning.Flag(Info))
    ensures LongOptionNamed("utls-alpn-none") == Some(Meaning.Flag(ALPNNone))
    ensures LongOptionNamed("utls-ext-none") == Some(Meaning.Flag(ExtNone))
  {
  }

  lemma NamedProtocols()
    ensures LongOptionNamed("http2-prior-knowledge") == Some(Meaning.Flag(PriorKnowledge))
    ensures LongOptionNamed("http3") == Some(Meaning.Flag(HTTP3))
    ensures LongOptionNamed("http3-only") == Some(Meaning.Flag(HTTP3))
  {
  }

  lemma NamedPlainKeys()
    ensures LongOptionNamed("connect-timeout") == Some(Meaning.Key(ConnectTimeout))
    ensures LongOptionNamed("resolve") == Some(Meaning.Key(Resolve))
    ensures LongOptionNamed("ja4t") == Some(Meaning.Key(JA4T))
  {
  }

  lemma NamedUTLSKeys()
    ensures LongOptionNamed("utls-hello") == Some(Meaning.Key(Hello))
    ensures LongOptionNamed("utls-cipher-append") == Some(Meaning.Key(CipherAppend))
    ensures LongOptionNamed("utls-version-append") == Some(Meaning.Key(VersionAppend))
  {
  }

  lemma NamedMoreUTLSKeys()
    ensures LongOptionNamed("utls-ext-append") == Some(Meaning.Key(ExtAppend))
    ensures LongOptionNamed("utls-alpn-hex") == Some(Meaning.Key(ALPNHex))
  {
  }

  /** A long option without a value attached. */
  lemma LongIs(name: string)
    requires name != "" && '=' !in name
    ensures var arg := "--" + name;
            IsLong(arg) && !IsPositional(arg) && arg != "--" && NameOf(arg) == name && ValueOf(arg) == None
  {
    var arg := "--" + name;
    assert arg[2..] == name && name[..|name|] == name && |arg| > 2;
    IndexOfFirst(name, '=', |name|);
  }

  /** And with one. */
  lemma AttachedIs(name: string, v: string)
    requires '=' !in name
    ensures var arg := "--" + name + "=" + v;
            IsLong(arg) && !IsPositional(arg) && arg != "--" && NameOf(arg) == name && ValueOf(arg) == Some(v)
  {
    var arg := "--" + name + "=" + v;
    var s := name + "=" + v;
    assert arg[2..] == s && |arg| > 2;
    assert s[|name|] == '=' && s[..|name|] == name && s[|name| + 1..] == v;
    IndexOfFirst(s, '=', |name|);
  }

  lemma ScanLongFlag(name: string, f: Flag, tail: seq<string>, o: Options, accepts: Accepts)
    requires name != "" && '=' !in name && LongOptionNamed(name) == Some(Meaning.Flag(f))
    ensures Scan(["--" + name] + tail, o, accepts) == Scan(tail, SetFlag(o, f), accepts)
  {
    hide LongOptionNamed, Scan, SetFlag, IsLong, IsPositional, NameOf, ValueOf, ReadCluster, WithValue;
    LongIs(name);
    ResumeIsScan(["--" + name] + tail, o, accepts);
    ResumeAtOption("--" + name, tail, o, accepts);
  }

  lemma ScanLongKey(name: string, k: Key, v: string, tail: seq<string>, o: Options, accepts: Accepts)
    requires name != "" && '=' !in name && LongOptionNamed(name) == Some(Meaning.Key(k))
    ensures Scan(["--" + name, v] + tail, o, accepts) == Then(WithValue(o, k, v, tail, accepts), accepts)
    ensures Scan(["--" + name + "=" + v] + tail, o, accepts) == Then(WithValue(o, k, v, tail, accepts), accepts)
    ensures Scan(["--" + name], o, accepts) == None
  {
    hide LongOptionNamed, Scan, IsLong, IsPositional, NameOf, ValueOf, ReadCluster, WithValue;
    LongIs(name);
    ScanPair("--" + name, v, tail, o, accepts);
    AttachedIs(name, v);
    ResumeIsScan(["--" + name + "=" + v] + tail, o, accepts);
    ResumeAtOption("--" + name + "=" + v, tail, o, accepts);
    ResumeIsScan(["--" + name], o, accepts);
    ResumeAtOption("--" + name, [], o, accepts);
    assert ["--" + name] + [] == ["--" + name];
  }

  /** Accepted, the value goes into the options; else the list is refused. */
  lemma ValueGoesIn(k: Key, v: string, tail: seq<string>, o: Options, accepts: Accepts)
    ensures var r := Then(WithValue(o, k, v, tail, accepts), accepts);
            if k != Header && !accepts(k, v) then r == None
            else
              match k
              case Header => r == Scan(tail, o.(headers := o.headers + [v]), accepts)
              case ConnectTimeout => r == Scan(tail, o.(connectTimeout := Some(v)), accepts)
              case MaxTime => r == Scan(tail, o.(maxTime := Some(v)), accepts)
              case Resolve => r == Scan(tail, o.(resolve := o.resolve + [v]), accepts)
              case Hello => r == Scan(tail, o.(hello := Some(v)), accepts)
              case CipherAppend => r == Scan(tail, o.(ciphers := o.ciphers + [v]), accepts)
              case VersionAppend => r == Scan(tail, o.(versions := o.versions + [v]), accepts)
              case ExtAppend => r == Scan(tail, o.(extensions := o.extensions + [v]), accepts)
              case ALPNHex => r == Scan(tail, o.(alpn := Some(v)), accepts)
              case JA4T => r == Scan(tail, o.(ja4t := Some(v)), accepts)
  {
    hide Scan;
  }

  // ----- Long options -----

  /** The long options without a value, by name: what each adds to the options read so far. */
  ghost predicate SetsFlag(name: string, flag: Flag, tail: seq<string>, o: Options, accepts: Accepts) {
    Scan(["--" + name] + tail, o, accepts) == Scan(tail, o.(flags := o.flags + {flag}), accepts)
  }

  lemma LongFlagsSet(tail: seq<string>, o: Options, accepts: Accepts)
    ensures SetsFlag("include", Include, tail, o, accepts)
    ensures SetsFlag("silent", Silent, tail, o, accepts)
    ensures SetsFlag("show-error", ShowError, tail, o, accepts)
    ensures SetsFlag("verbose", Verbose, tail, o, accepts)
    ensures SetsFlag("insecure", Insecure, tail, o, accepts)
    ensures SetsFlag("globoff", Globoff, tail, o, accepts)
    ensures SetsFlag("help", Help, tail, o, accepts)
    ensures SetsFlag("version", Version, tail, o, accepts)
  {
    hide LongOptionNamed, Scan;
    NamedFlags();
    NamedChoices();
    ScanLongFlag("include", Include, tail, o, accepts);
    ScanLongFlag("silent", Silent, tail, o, accepts);
    ScanLongFlag("show-error", ShowError, tail, o, accepts);
    ScanLongFlag("verbose", Verbose, tail, o, accepts);
    ScanLongFlag("insecure", Insecure, tail, o, accepts);
    ScanLongFlag("globoff", Globoff, tail, o, accepts);
    ScanLongFlag("help", Help, tail, o, accepts);
    ScanLongFlag("version", Version, tail, o, accepts);
  }

  lemma UTLSFlagsSet(tail: seq<string>, o: Options, accepts: Accepts)
    ensures SetsFlag("utls-hello-list", HelloList, tail, o, accepts)
    ensures SetsFlag("utls-info", Info, tail, o, accepts)
    ensures SetsFlag("utls-alpn-none", ALPNNone, tail, o, accepts)
    ensures SetsFlag("utls-ext-none", ExtNone, tail, o, accepts)
  {
    hide LongOptionNamed, Scan;
    NamedUTLSFlags();
    ScanLongFlag("utls-hello-list", HelloList, tail, o, accepts);
    ScanLongFlag("utls-info", Info, tail, o, accepts);
    ScanLongFlag("utls-alpn-none", ALPNNone, tail, o, accepts);
    ScanLongFlag("utls-ext-none", ExtNone, tail, o, accepts);
  }

  lemma ProtocolFlagsSet(tail: seq<string>, o: Options, accepts: Accepts)
    ensures SetsFlag("http2-prior-knowledge", PriorKnowledge, tail, o, accepts)
    ensures SetsFlag("http3", HTTP3, tail, o, accepts)
    ensures SetsFlag("http3-only", HTTP3, tail, o, accepts)
    ensures Scan(["--" + "ipv4"] + tail, o, accepts) == Scan(tail, o.(ipFamily := "4"), accepts)
    ensures Scan(["--" + "ipv6"] + tail, o, accepts) == Scan(tail, o.(ipFamily := "6"), accepts)
  {
    hide LongOptionNamed, Scan;
    NamedProtocols();
    NamedChoices();
    ScanLongFlag("http2-prior-knowledge", PriorKnowledge, tail, o, accepts);
    ScanLongFlag("http3", HTTP3, tail, o, accepts);
    ScanLongFlag("http3-only", HTTP3, tail, o, accepts);
    ScanLongFlag("ipv4", IPv4, tail, o, accepts);
    ScanLongFlag("ipv6", IPv6, tail, o, accepts);
  }

  /** A long option with a value, behind it or attached: refused without one, or when its reader does not
      accept it; else the options become `o'`. */
  ghost predicate SetsValue(name: string, ok: bool, v: string, tail: seq<string>, o: Options, o': Options, accepts: Accepts) {
    && Scan(["--" + name, v] + tail, o, accepts) == (if ok then Scan(tail, o', accepts) else None)
    && Scan(["--" + name + "=" + v] + tail, o, accepts) == (if ok then Scan(tail, o', accepts) else None)
    && Scan(["--" + name], o, accepts) == None
  }

  lemma LongValuesSet(v: string, tail: seq<string>, o: Options, accepts: Accepts)
    ensures SetsValue("header", true, v, tail, o, o.(headers := o.headers + [v]), accepts)
    ensures SetsValue("connect-timeout", accepts(ConnectTimeout, v), v, tail, o, o.(connectTimeout := Some(v)), accepts)
    ensures SetsValue("max-time", accepts(MaxTime, v), v, tail, o, o.(maxTime := Some(v)), accepts)
    ensures SetsValue("resolve", accepts(Resolve, v), v, tail, o, o.(resolve := o.resolve + [v]), accepts)
    ensures SetsValue("ja4t", accepts(JA4T, v), v, tail, o, o.(ja4t := Some(v)), accepts)
  {
    hide LongOptionNamed, Scan, Then, WithValue;
    NamedKeys();
    NamedPlainKeys();
    ScanLongKey("header", Header, v, tail, o, accepts);
    ScanLongKey("connect-timeout", ConnectTimeout, v, tail, o, accepts);
    ScanLongKey("max-time", MaxTime, v, tail, o, accepts);
    ScanLongKey("resolve", Resolve, v, tail, o, accepts);
    ScanLongKey("ja4t", JA4T, v, tail, o, accepts);
    ValueGoesIn(Header, v, tail, o, accepts);
    ValueGoesIn(ConnectTimeout, v, tail, o, accepts);
    ValueGoesIn(MaxTime, v, tail, o, accepts);
    ValueGoesIn(Resolve, v, tail, o, accepts);
    ValueGoesIn(JA4T, v, tail, o, accepts);
  }

  lemma UTLSListsSet(v: string, tail: seq<string>, o: Options, accepts: Accepts)
    ensures SetsValue("utls-cipher-append", accepts(CipherAppend, v), v, tail, o, o.(ciphers := o.ciphers + [v]), accepts)
    ensures SetsValue("utls-version-append", accepts(VersionAppend, v), v, tail, o, o.(versions := o.versions + [v]), accepts)
    ensures SetsValue("utls-ext-append", accepts(ExtAppend, v), v, tail, o, o.(extensions := o.extensions + [v]), accepts)
  {
    hide LongOptionNamed, Scan, Then, WithValue;
    NamedUTLSKeys();
    NamedMoreUTLSKeys();
    ScanLongKey("utls-cipher-append", CipherAppend, v, tail, o, accepts);
    ScanLongKey("utls-version-append", VersionAppend, v, tail, o, accepts);
    ScanLongKey("utls-ext-append", ExtAppend, v, tail, o, accepts);
    ValueGoesIn(CipherAppend, v, tail, o, accepts);
    ValueGoesIn(VersionAppend, v, tail, o, accepts);
    ValueGoesIn(ExtAppend, v, tail, o, accepts);
  }

  lemma UTLSValuesSet(v: string, tail: seq<string>, o: Options, accepts: Accepts)
    ensures SetsValue("utls-hello", accepts(Hello, v), v, tail, o, o.(hello := Some(v)), accepts)
    ensures SetsValue("utls-alpn-hex", accepts(ALPNHex, v), v, tail, o, o.(alpn := Some(v)), accepts)
  {
    hide LongOptionNamed, Scan, Then, WithValue;
    NamedUTLSKeys();
    NamedMoreUTLSKeys();
    ScanLongKey("utls-hello", Hello, v, tail, o, accepts);
    ScanLongKey("utls-alpn-hex", ALPNHex, v, tail, o, accepts);
    ValueGoesIn(Hello, v, tail, o, accepts);
    ValueGoesIn(ALPNHex, v, tail, o, accepts);
  }

  predicate IsFlagName(name: string) {
    || name == "include" || name == "silent" || name == "show-error" || name == "verbose" || name == "utls-hello-list"
    || name == "utls-info" || name == "utls-alpn-none" || name == "utls-ext-none" || name == "http2-prior-knowledge"
    || name == "http3" || name == "http3-only" || name == "ipv4" || name == "ipv6" || name == "globoff"
    || name == "insecure" || name == "help" || name == "version"
  }

  predicate IsKeyName(name: string) {
    || name == "header" || name == "connect-timeout" || name == "max-time" || name == "resolve" || name == "utls-hello"
    || name == "utls-cipher-append" || name == "utls-version-append" || name == "utls-ext-append"
    || name == "utls-alpn-hex" || name == "ja4t"
  }

  lemma FlagNamesAreFlags(name: string)
    requires IsFlagName(name)
    ensures LongFlag(name).Some? && '=' !in name
  {
    hide LongOptionNamed;
    NamedFlags();
    NamedChoices();
    NamedUTLSFlags();
    NamedProtocols();
  }

  lemma OtherNamesAreUnknown(name: string)
    requires !IsFlagName(name) && !IsKeyName(name)
    ensures LongFlag(name).None? && LongKey(name).None?
  {
  }

  /** A flag with a value is refused. */
  lemma FlagTakesNoValue(name: string, v: string, tail: seq<string>, o: Options, accepts: Accepts)
    requires IsFlagName(name)
    ensures Scan(["--" + name + "=" + v] + tail, o, accepts) == None
  {
    hide LongOptionNamed, Scan, IsLong, IsPositional, NameOf, ValueOf, ReadCluster, IsFlagName;
    FlagNamesAreFlags(name);
    AttachedIs(name, v);
    ResumeIsScan(["--" + name + "=" + v] + tail, o, accepts);
    ResumeAtOption("--" + name + "=" + v, tail, o, accepts);
  }

  /** Any other name is refused, with a value or without. */
  lemma OtherNamesAreRefused(name: string, v: string, tail: seq<string>, o: Options, accepts: Accepts)
    requires name != "" && '=' !in name && !IsFlagName(name) && !IsKeyName(name)
    ensures Scan(["--" + name] + tail, o, accepts) == None
    ensures Scan(["--" + name + "=" + v] + tail, o, accepts) == None
  {
    hide LongFlag, LongKey, Scan, IsLong, IsPositional, NameOf, ValueOf, ReadCluster, IsFlagName, IsKeyName;
    OtherNamesAreUnknown(name);
    LongIs(name);
    AttachedIs(name, v);
    ResumeIsScan(["--" + name] + tail, o, accepts);
    ResumeAtOption("--" + name, tail, o, accepts);
    ResumeIsScan(["--" + name + "=" + v] + tail, o, accepts);
    ResumeAtOption("--" + name + "=" + v, tail, o, accepts);
  }

  // ----- Short options -----

  /** A cluster that begins with `c`, of which `more` follows. */
  function Cluster(c: char, more: string): string {
    "-" + [c] + more
  }

  lemma ClusterIs(c: char, more: string)
    requires c != '-'
    ensures IsCluster(Cluster(c, more)) && Cluster(c, more)[1..] == [c] + more
  {
    var arg := Cluster(c, more);
    assert arg[1] == c && |arg| >= 2;
  }

  lemma ScanCluster(c: char, more: string, tail: seq<string>, o: Options, accepts: Accepts)
    requires c != '-'
    ensures Scan([Cluster(c, more)] + tail, o, accepts) == Then(ReadCluster([c] + more, tail, o, accepts), accepts)
  {
    hide Scan, ReadCluster, ReadLong, Cluster;
    ClusterIs(c, more);
    ResumeIsScan([Cluster(c, more)] + tail, o, accepts);
    ResumeAtOption(Cluster(c, more), tail, o, accepts);
  }

  /** What a short flag at the head of a cluster adds, and that the rest of the cluster is read as if it came
      behind a hyphen of its own. */
  ghost predicate ShortSets(c: char, more: string, tail: seq<string>, o: Options, o': Options, accepts: Accepts) {
    && Then(ReadCluster([c] + more, tail, o, accepts), accepts) == Then(ReadCluster(more, tail, o', accepts), accepts)
    && Scan([Cluster(c, more)] + tail, o, accepts) == Then(ReadCluster(more, tail, o', accepts), accepts)
  }

  lemma ShortFlagStep(c: char, more: string, tail: seq<string>, o: Options, accepts: Accepts)
    requires ShortFlag(c).Some?
    ensures ShortSets(c, more, tail, o, SetFlag(o, ShortFlag(c).value), accepts)
  {
    hide Scan, SetFlag, ShortFlag, ShortKey, Cluster;
    KnownCharactersAreNotHyphens(c);
    ScanCluster(c, more, tail, o, accepts);
    assert ([c] + more)[0] == c && ([c] + more)[1..] == more;
  }

  lemma ShortFlagsSet(more: string, tail: seq<string>, o: Options, accepts: Accepts)
    ensures ShortSets('i', more, tail, o, o.(flags := o.flags + {Include}), accepts)
    ensures ShortSets('s', more, tail, o, o.(flags := o.flags + {Silent}), accepts)
    ensures ShortSets('S', more, tail, o, o.(flags := o.flags + {ShowError}), accepts)
    ensures ShortSets('v', more, tail, o, o.(flags := o.flags + {Verbose}), accepts)
    ensures ShortSets('k', more, tail, o, o.(flags := o.flags + {Insecure}), accepts)
    ensures ShortSets('g', more, tail, o, o.(flags := o.flags + {Globoff}), accepts)
    ensures ShortSets('h', more, tail, o, o.(flags := o.flags + {Help}), accepts)
    ensures ShortSets('V', more, tail, o, o.(flags := o.flags + {Version}), accepts)
    ensures ShortSets('4', more, tail, o, o.(ipFamily := "4"), accepts)
    ensures ShortSets('6', more, tail, o, o.(ipFamily := "6"), accepts)
  {
    hide ShortSets;
    ShortFlagStep('i', more, tail, o, accepts);
    ShortFlagStep('s', more, tail, o, accepts);
    ShortFlagStep('S', more, tail, o, accepts);
    ShortFlagStep('v', more, tail, o, accepts);
    ShortFlagStep('k', more, tail, o, accepts);
    ShortFlagStep('g', more, tail, o, accepts);
    ShortFlagStep('h', more, tail, o, accepts);
    ShortFlagStep('V', more, tail, o, accepts);
    ShortFlagStep('4', more, tail, o, accepts);
    ShortFlagStep('6', more, tail, o, accepts);
  }

  lemma ShortKeyStep(c: char, k: Key, v: string, tail: seq<string>, o: Options, accepts: Accepts)
    requires ShortKey(c) == Some(k)
    ensures Scan([Cluster(c, ""), v] + tail, o, accepts) == Then(WithValue(o, k, v, tail, accepts), accepts)
    ensures v != "" ==> Scan([Cluster(c, v)] + tail, o, accepts) == Then(WithValue(o, k, v, tail, accepts), accepts)
  {
    hide Scan, ShortFlag, ShortKey, Cluster, Then, WithValue;
    KnownCharactersAreNotHyphens(c);
    ScanCluster(c, "", [v] + tail, o, accepts);
    assert [Cluster(c, "")] + ([v] + tail) == [Cluster(c, ""), v] + tail;
    assert ([c] + "")[0] == c && ([c] + "")[1..] == "" && ([v] + tail)[0] == v && ([v] + tail)[1..] == tail;
    ScanCluster(c, v, tail, o, accepts);
    assert ([c] + v)[0] == c && ([c] + v)[1..] == v;
  }

  /** -H and -m take the rest of the cluster, or the next argument, as their value. */
  lemma ShortValuesSet(v: string, tail: seq<string>, o: Options, accepts: Accepts)
    ensures Scan([Cluster('H', ""), v] + tail, o, accepts) == Scan(tail, o.(headers := o.headers + [v]), accepts)
    ensures v != "" ==> Scan([Cluster('H', v)] + tail, o, accepts) == Scan(tail, o.(headers := o.headers + [v]), accepts)
    ensures var r := if accepts(MaxTime, v) then Scan(tail, o.(maxTime := Some(v)), accepts) else None;
            && Scan([Cluster('m', ""), v] + tail, o, accepts) == r
            && (v != "" ==> Scan([Cluster('m', v)] + tail, o, accepts) == r)
  {
    hide Scan, Cluster;
    ShortKeyStep('H', Header, v, tail, o, accepts);
    ShortKeyStep('m', MaxTime, v, tail, o, accepts);
    ValueGoesIn(Header, v, tail, o, accepts);
    ValueGoesIn(MaxTime, v, tail, o, accepts);
    hide Then, WithValue;
  }

  lemma Unknown(c: char)
    requires c !in "isSvkg46hVHm"
    ensures ShortFlag(c).None? && ShortKey(c).None?
  {
    assert c != "isSvkg46hVHm"[0] && c != "isSvkg46hVHm"[1] && c != "isSvkg46hVHm"[2] && c != "isSvkg46hVHm"[3];
    assert c != "isSvkg46hVHm"[4] && c != "isSvkg46hVHm"[5] && c != "isSvkg46hVHm"[6] && c != "isSvkg46hVHm"[7];
    assert c != "isSvkg46hVHm"[8] && c != "isSvkg46hVHm"[9] && c != "isSvkg46hVHm"[10] && c != "isSvkg46hVHm"[11];
  }

  lemma OtherCharactersAreRefused(c: char, more: string, tail: seq<string>, o: Options, accepts: Accepts)
    requires c !in "isSvkg46hVHm"
    ensures c != '-' ==> Scan([Cluster(c, more)] + tail, o, accepts) == None
    ensures ReadCluster([c] + more, tail, o, accepts) == None
  {
    hide Scan, Cluster;
    Unknown(c);
    assert ([c] + more)[0] == c;
    if c != '-' {
      ScanCluster(c, more, tail, o, accepts);
    }
    hide ShortFlag, ShortKey;
  }

  // ----- URLs and the end of the list -----

  /** Where the list ends, the options as a whole are judged. */
  lemma ListEnds(o: Options, accepts: Accepts)
    ensures var refused :=
              || (ALPNNone in o.flags && o.alpn != None)
              || (ExtNone in o.flags && (ALPNNone in o.flags || o.alpn != None))
              || (o.versions != [] && (ExtNone in o.flags || o.hello == None))
              || (o.extensions != [] && (ExtNone in o.flags || o.hello == None))
              || (Help !in o.flags && Version !in o.flags && HelloList !in o.flags && o.urls == []);
            Scan([], o, accepts) == if refused then None else Some(o)
  {
  }

  /** URLs are read in order, a lone hyphen and the empty argument among them; behind `--` everything is one. */
  lemma {:induction false} URLsAreRead(urls: seq<string>, o: Options, accepts: Accepts)
    requires forall k :: 0 <= k < |urls| ==> urls[k] == "-" || urls[k] == "" || urls[k][0] != '-'
    ensures Scan(urls, o, accepts) == Scan([], o.(urls := o.urls + urls), accepts)
  {
    hide Scan;
    if urls == [] {
      assert o.urls + [] == o.urls;
    } else {
      assert IsPositional(urls[0]);
      assert urls == [urls[0]] + urls[1..];
      ScanURL(urls[0], urls[1..], o, accepts);
      URLsAreRead(urls[1..], o.(urls := o.urls + [urls[0]]), accepts);
      assert o.urls + [urls[0]] + urls[1..] == o.urls + urls;
    }
  }

  lemma AllBehindDashesAreURLs(args: seq<string>, o: Options, accepts: Accepts)
    ensures Scan(["--"] + args, o, accepts) == Scan([], o.(urls := o.urls + args), accepts)
  {
    ResumeAtDashes(args, o, accepts);
    ResumeIsScan(["--"] + args, o, accepts);
    hide Finish, Consistent;
  }

  /** No accepted list, however long, leaves options that contradict each other, or nothing to do. */
  lemma {:induction false} AcceptedOptionsAgree(args: seq<string>, o: Options, accepts: Accepts)
    requires Scan(args, o, accepts).Some?
    ensures var r := Scan(args, o, accepts).value;
            && (ALPNNone in r.flags ==> r.alpn == None)
            && (ExtNone in r.flags ==> ALPNNone !in r.flags && r.alpn == None && r.versions == [] && r.extensions == [])
            && (r.versions != [] || r.extensions != [] ==> r.hello != None)
            && (r.urls != [] || Help in r.flags || Version in r.flags || HelloList in r.flags)
    decreases |args|
  {
    hide ReadLong, ReadCluster;
    if args == [] || args[0] == "--" {
      hide Scan;
      if args != [] {
        assert args == ["--"] + args[1..];
        AllBehindDashesAreURLs(args[1..], o, accepts);
        ListEnds(o.(urls := o.urls + args[1..]), accepts);
      } else {
        ListEnds(o, accepts);
      }
    } else if IsPositional(args[0]) {
      AcceptedOptionsAgree(args[1..], o.(urls := o.urls + [args[0]]), accepts);
    } else {
      var next := if IsLong(args[0]) then ReadLong(args[0], args[1..], o, accepts)
                  else ReadCluster(args[0][1..], args[1..], o, accepts);
      AcceptedOptionsAgree(next.value.rest, next.value.options, accepts);
    }
  }

  // ----- Whole lists -----

  /** From nothing set at first, a timeout and the URLs set exactly that timeout and those URLs. */
  lemma TimeoutsGoTheirWay(v: string, urls: seq<string>, accepts: Accepts)
    requires urls != [] && forall k :: 0 <= k < |urls| ==> urls[k] == "-" || urls[k] == "" || urls[k][0] != '-'
    ensures accepts(ConnectTimeout, v) ==>
              Scan(["--" + "connect-timeout", v] + urls, NO_OPTIONS, accepts)
              == Some(NO_OPTIONS.(connectTimeout := Some(v), urls := urls))
    ensures accepts(MaxTime, v) ==>
              Scan(["--" + "max-time", v] + urls, NO_OPTIONS, accepts) == Some(NO_OPTIONS.(maxTime := Some(v), urls := urls))
    ensures NO_OPTIONS == Options({}, "", [], [], None, None, None, [], [], [], None, None, [])
  {
    hide Scan;
    LongValuesSet(v, urls, NO_OPTIONS, accepts);
    assert [] + urls == urls;
    var c, m := NO_OPTIONS.(connectTimeout := Some(v)), NO_OPTIONS.(maxTime := Some(v));
    URLsAreRead(urls, c, accepts);
    URLsAreRead(urls, m, accepts);
    ListEnds(c.(urls := urls), accepts);
    ListEnds(m.(urls := urls), accepts);
  }

  /** Of several values for a single-valued option the last one counts. */
  ghost predicate LastWins(name: string, ok: bool, a: string, b: string, tail: seq<string>, o: Options, accepts: Accepts) {
    ok ==> Scan(["--" + name, a] + (["--" + name, b] + tail), o, accepts) == Scan(["--" + name, b] + tail, o, accepts)
  }

  lemma LastValueWins(a: string, b: string, tail: seq<string>, o: Options, accepts: Accepts)
    ensures LastWins("connect-timeout", accepts(ConnectTimeout, a), a, b, tail, o, accepts)
    ensures LastWins("max-time", accepts(MaxTime, a), a, b, tail, o, accepts)
    ensures LastWins("ja4t", accepts(JA4T, a), a, b, tail, o, accepts)
  {
    hide Scan;
    LongValuesSet(a, ["--" + "connect-timeout", b] + tail, o, accepts);
    LongValuesSet(a, ["--" + "max-time", b] + tail, o, accepts);
    LongValuesSet(a, ["--" + "ja4t", b] + tail, o, accepts);
    LongValuesSet(b, tail, o, accepts);
    LongValuesSet(b, tail, o.(connectTimeout := Some(a)), accepts);
    LongValuesSet(b, tail, o.(maxTime := Some(a)), accepts);
    LongValuesSet(b, tail, o.(ja4t := Some(a)), accepts);
  }

  lemma LastUTLSValueWins(a: string, b: string, tail: seq<string>, o: Options, accepts: Accepts)
    ensures LastWins("utls-hello", accepts(Hello, a), a, b, tail, o, accepts)
    ensures LastWins("utls-alpn-hex", accepts(ALPNHex, a), a, b, tail, o, accepts)
  {
    hide Scan;
    UTLSValuesSet(a, ["--" + "utls-hello", b] + tail, o, accepts);
    UTLSValuesSet(a, ["--" + "utls-alpn-hex", b] + tail, o, accepts);
    UTLSValuesSet(b, tail, o, accepts);
    UTLSValuesSet(b, tail, o.(hello := Some(a)), accepts);
    UTLSValuesSet(b, tail, o.(alpn := Some(a)), accepts);
  }

  /** The same option once for every value. */
  function Repeated(name: string, vs: seq<string>): seq<string> {
    if vs == [] then [] else ["--" + name, vs[0]] + Repeated(name, vs[1..])
  }

  /** Repeatable options keep all their values, in order. */
  lemma {:induction false} HeadersKeepTheirOrder(vs: seq<string>, tail: seq<string>, o: Options, accepts: Accepts)
    ensures Scan(Repeated("header", vs) + tail, o, accepts) == Scan(tail, o.(headers := o.headers + vs), accepts)
  {
    hide Scan;
    if vs == [] {
      assert [] + tail == tail && o.headers + [] == o.headers;
    } else {
      var more := Repeated("header", vs[1..]) + tail;
      assert Repeated("header", vs) + tail == ["--" + "header", vs[0]] + more;
      LongValuesSet(vs[0], more, o, accepts);
      HeadersKeepTheirOrder(vs[1..], tail, o.(headers := o.headers + [vs[0]]), accepts);
      assert o.headers + [vs[0]] + vs[1..] == o.headers + vs;
    }
  }

  lemma {:induction false} ResolvesKeepTheirOrder(vs: seq<string>, tail: seq<string>, o: Options, accepts: Accepts)
    requires forall k :: 0 <= k < |vs| ==> accepts(Resolve, vs[k])
    ensures Scan(Repeated("resolve", vs) + tail, o, accepts) == Scan(tail, o.(resolve := o.resolve + vs), accepts)
  {
    hide Scan;
    if vs == [] {
      assert [] + tail == tail && o.resolve + [] == o.resolve;
    } else {
      var more := Repeated("resolve", vs[1..]) + tail;
      assert Repeated("resolve", vs) + tail == ["--" + "resolve", vs[0]] + more;
      LongValuesSet(vs[0], more, o, accepts);
      ResolvesKeepTheirOrder(vs[1..], tail, o.(resolve := o.resolve + [vs[0]]), accepts);
      assert o.resolve + [vs[0]] + vs[1..] == o.resolve + vs;
    }
  }
}
