/** JA4T fingerprints on the wire: the option bytes of the SYN and reading the fingerprint back. */
module Ja4tWire {
  import opened Wrappers
  import opened Word32
  import opened Tcp
  import opened Ja4t

  function BigEndianBytes16(x: uint16): (b: Bytes)
    ensures |b| == 2 && BigEndian16(b) == x
  {
    [x / 256, x % 256]
  }

  function BigEndianBytes32(x: uint32): (b: Bytes)
    ensures |b| == 4
  {
    [x / 0x100_0000, x / 0x1_0000 % 256, x / 256 % 256, x % 256]
  }

  /** Kind, length and data; end-of-list and no-op are a kind alone. */
  function EncodeOption(o: TcpOption): Bytes {
    if o.kind == KIND_END || o.kind == KIND_NOP then [o.kind]
    else [o.kind, (2 + |o.data|) % 256] + o.data
  }

  /** tcpOption: the option for one supported kind. */
  function OptionFor(kind: uint8, fp: Fingerprint, tsVal: uint32): (o: TcpOption)
    ensures o.kind == kind
    ensures Supported(kind) ==> |EncodeOption(o)| == OptionSize(kind)
    ensures |o.data| <= 8 && (kind == KIND_END || kind == KIND_NOP ==> o.data == [])
  {
    if kind == Ja4t.KIND_MSS then TcpOption(kind, BigEndianBytes16(fp.mss))
    else if kind == KIND_SCALE then TcpOption(kind, [fp.scale])
    else if kind == Ja4t.KIND_TIMESTAMPS then TcpOption(kind, BigEndianBytes32(tsVal) + [0, 0, 0, 0])
    else TcpOption(kind, [])
  }

  function OptionsFor(kinds: seq<uint8>, fp: Fingerprint, tsVal: uint32): (options: seq<TcpOption>)
    ensures |options| == |kinds|
    ensures forall i :: 0 <= i < |kinds| ==> options[i] == OptionFor(kinds[i], fp, tsVal)
  {
    if kinds == [] then [] else [OptionFor(kinds[0], fp, tsVal)] + OptionsFor(kinds[1..], fp, tsVal)
  }

  function Encode(options: seq<TcpOption>): Bytes {
    if options == [] then [] else EncodeOption(options[0]) + Encode(options[1..])
  }

  /** tcpOptionBytes. */
  method CountOptionBytes(options: seq<TcpOption>) returns (n: nat)
    ensures n == |Encode(options)|
  {
    n := 0;
    for i := 0 to |options|
      invariant |Encode(options)| == n + |Encode(options[i..])|
    {
      if options[i].kind == KIND_END || options[i].kind == KIND_NOP {
        n := n + 1;
      } else {
        n := n + 2 + |options[i].data|;
      }
    }
  }

  lemma {:induction false} EncodedSize(kinds: seq<uint8>, fp: Fingerprint, tsVal: uint32)
    requires AllSupported(kinds)
    ensures |Encode(OptionsFor(kinds, fp, tsVal))| == TotalSize(kinds)
  {
    if kinds != [] {
      EncodedSize(kinds[1..], fp, tsVal);
      assert OptionsFor(kinds, fp, tsVal)[1..] == OptionsFor(kinds[1..], fp, tsVal);
    }
  }

  /** fp.tcpOptions: the options in the order of the kinds, unless a kind is unknown or the options do
      not fill whole 32-bit words. */
  method BuildOptions(fp: Fingerprint, tsVal: uint32) returns (r: Result<seq<TcpOption>, Ja4tError>)
    ensures r.Success? <==> AllSupported(fp.kinds) && TotalSize(fp.kinds) % 4 == 0
    ensures r.Success? ==> r.value == OptionsFor(fp.kinds, fp, tsVal)
    ensures r.Failure? ==> r.error == if AllSupported(fp.kinds) then BadLength(TotalSize(fp.kinds))
                                      else UnsupportedKind(fp.kinds[FirstUnsupported(fp.kinds)])
  {
    hide OptionFor, OptionSize, Encode, Supported, TotalSize, OptionsFor, FirstUnsupported;
    var options: seq<TcpOption> := [];
    ghost var all := OptionsFor(fp.kinds, fp, tsVal);
    for i := 0 to |fp.kinds|
      invariant options == all[..i]
      invariant forall j :: 0 <= j < i ==> Supported(fp.kinds[j])
    {
      if !Supported(fp.kinds[i]) {
        return Failure(UnsupportedKind(fp.kinds[i]));
      }
      options := options + [OptionFor(fp.kinds[i], fp, tsVal)];
    }
    assert options == all;
    var n := CountOptionBytes(options);
    EncodedSize(fp.kinds, fp, tsVal);
    if n % 4 != 0 {
      return Failure(BadLength(n));
    }
    return Success(options);
  }

  // ----- The option area of the header -----

  function ZeroBytes(n: nat): (z: Bytes)
    ensures |z| == n && forall i :: 0 <= i < n ==> z[i] == 0
  {
    if n == 0 then [] else [0] + ZeroBytes(n - 1)
  }

  function Padding(n: nat): nat {
    if n % 4 == 0 then 0 else 4 - n % 4
  }

  /** The option area that a receiver finds: the header length field holds the low four bits of the
      number of words (section 3.1 of RFC 9293), and the fixed header takes five. */
  function ReceivedOptions(bytes: Bytes): (area: Bytes)
    ensures area <= bytes + ZeroBytes(Padding(|bytes|))
  {
    var padded := bytes + ZeroBytes(Padding(|bytes|));
    var words := (5 + |padded| / 4) % 16;
    if words < 5 then [] else padded[..(words - 5) * 4]
  }

  // ----- Reading back -----

  /** The walk over an option area: every kind met, with the data of those that carry a length. A
      length that does not fit ends the walk. */
  function Walk(data: Bytes): (options: seq<TcpOption>)
    decreases |data|
  {
    if data == [] then []
    else if data[0] == KIND_END || data[0] == KIND_NOP then [TcpOption(data[0], [])] + Walk(data[1..])
    else if |data| < 2 then [TcpOption(data[0], [])]
    else
      var n := data[1] as int;
      if n < 2 || n > |data| then [TcpOption(data[0], [])]
      else [TcpOption(data[0], data[2..n])] + Walk(data[n..])
  }

  function Kinds(options: seq<TcpOption>): (kinds: seq<uint8>)
    ensures |kinds| == |options|
    ensures forall i :: 0 <= i < |kinds| ==> kinds[i] == options[i].kind
  {
    if options == [] then [] else [options[0].kind] + Kinds(options[1..])
  }

  function FirstEnd(options: seq<TcpOption>): (i: nat)
    ensures i <= |options| && (i < |options| ==> options[i].kind == KIND_END)
    ensures forall j :: 0 <= j < i ==> options[j].kind != KIND_END
  {
    if options == [] || options[0].kind == KIND_END then 0 else 1 + FirstEnd(options[1..])
  }

  /** The options with data that the packet library lists: it stops at the first end-of-list
      (section 3.1 of RFC 9293), unlike the walk. */
  function Listed(options: seq<TcpOption>): seq<TcpOption> {
    options[..FirstEnd(options)]
  }

  /** The last MSS, and below the last scale, with enough data. */
  function ReadMSS(options: seq<TcpOption>): uint16 {
    if options == [] then 0
    else
      var last := options[|options| - 1];
      if last.kind == Ja4t.KIND_MSS && |last.data| >= 2 then BigEndian16(last.data)
      else ReadMSS(options[..|options| - 1])
  }

  function ReadScale(options: seq<TcpOption>): uint8 {
    if options == [] then 0
    else
      var last := options[|options| - 1];
      if last.kind == KIND_SCALE && |last.data| >= 1 then last.data[0]
      else ReadScale(options[..|options| - 1])
  }

  /** fingerprintFromSYN: all kinds that the walk meets, but MSS and scale from the library's list. */
  function ReadFingerprint(window: uint16, area: Bytes): Fingerprint {
    var options := Walk(area);
    Fingerprint(window, Kinds(options), ReadMSS(Listed(options)), ReadScale(Listed(options)))
  }

  /** The fingerprint that a listener reads from the SYN of `fp`. */
  function Observed(fp: Fingerprint, tsVal: uint32): Fingerprint {
    ReadFingerprint(fp.window, ReceivedOptions(Encode(OptionsFor(fp.kinds, fp, tsVal))))
  }

  lemma WalkBare(kind: uint8, rest: Bytes)
    requires kind == KIND_END || kind == KIND_NOP
    ensures Walk([kind] + rest) == [TcpOption(kind, [])] + Walk(rest)
  {
    assert ([kind] + rest)[1..] == rest;
  }

  lemma WalkWithData(kind: uint8, data: Bytes, rest: Bytes)
    requires |data| <= 8 && kind != KIND_END && kind != KIND_NOP
    ensures Walk([kind, 2 + |data|] + data + rest) == [TcpOption(kind, data)] + Walk(rest)
  {
    var all := [kind, 2 + |data|] + data + rest;
    assert all[2..2 + |data|] == data && all[2 + |data|..] == rest && all[0] == kind && all[1] == 2 + |data|;
  }

  lemma WalkOne(o: TcpOption, rest: Bytes)
    requires |o.data| <= 8
    requires o.kind == KIND_END || o.kind == KIND_NOP ==> o.data == []
    ensures Walk(EncodeOption(o) + rest) == [o] + Walk(rest)
  {
    hide Walk;
    if o.kind == KIND_END || o.kind == KIND_NOP {
      WalkBare(o.kind, rest);
    } else {
      WalkWithData(o.kind, o.data, rest);
    }
  }

  lemma {:induction false} WalkOfEncode(kinds: seq<uint8>, fp: Fingerprint, tsVal: uint32, rest: Bytes)
    requires AllSupported(kinds)
    ensures Walk(Encode(OptionsFor(kinds, fp, tsVal)) + rest) == OptionsFor(kinds, fp, tsVal) + Walk(rest)
  {
    hide Walk, EncodeOption, OptionFor;
    var options := OptionsFor(kinds, fp, tsVal);
    if kinds == [] {
      assert Encode(options) + rest == rest;
    } else {
      var tail := Encode(OptionsFor(kinds[1..], fp, tsVal));
      assert options[1..] == OptionsFor(kinds[1..], fp, tsVal);
      assert Encode(options) + rest == EncodeOption(options[0]) + (tail + rest);
      WalkOne(options[0], tail + rest);
      WalkOfEncode(kinds[1..], fp, tsVal, rest);
      assert [options[0]] + (options[1..] + Walk(rest)) == options + Walk(rest);
    }
  }

  lemma {:induction false} WalkOfZeros(n: nat)
    ensures |Walk(ZeroBytes(n))| == n
  {
    if n > 0 {
      WalkOfZeros(n - 1);
      assert ZeroBytes(n)[1..] == ZeroBytes(n - 1);
    }
  }

  lemma KindsOfOptions(kinds: seq<uint8>, fp: Fingerprint, tsVal: uint32)
    ensures Kinds(OptionsFor(kinds, fp, tsVal)) == kinds
  {
  }

  lemma {:induction false} MSSOfOptions(kinds: seq<uint8>, fp: Fingerprint, tsVal: uint32)
    ensures ReadMSS(OptionsFor(kinds, fp, tsVal)) == if Ja4t.KIND_MSS in kinds then fp.mss else 0
    decreases |kinds|
  {
    if kinds != [] {
      var n := |kinds| - 1;
      assert kinds == kinds[..n] + [kinds[n]];
      assert OptionsFor(kinds, fp, tsVal)[..n] == OptionsFor(kinds[..n], fp, tsVal);
      MSSOfOptions(kinds[..n], fp, tsVal);
    }
  }

  lemma {:induction false} ScaleOfOptions(kinds: seq<uint8>, fp: Fingerprint, tsVal: uint32)
    ensures ReadScale(OptionsFor(kinds, fp, tsVal)) == if KIND_SCALE in kinds then fp.scale else 0
    decreases |kinds|
  {
    if kinds != [] {
      var n := |kinds| - 1;
      assert kinds == kinds[..n] + [kinds[n]];
      assert OptionsFor(kinds, fp, tsVal)[..n] == OptionsFor(kinds[..n], fp, tsVal);
      ScaleOfOptions(kinds[..n], fp, tsVal);
    }
  }

  /** An option that is cut off shows its kind at most. */
  lemma WalkOfCutOption(o: TcpOption, area: Bytes, rest: Bytes)
    requires |o.data| <= 8 && area <= EncodeOption(o) + rest && |area| < |EncodeOption(o)|
    ensures |Walk(area)| == if area == [] then 0 else 1
  {
  }

  /** The first option of a cut area is whole, or it is the only one. */
  lemma CutAfterFirst(o: TcpOption, tail: Bytes, m: nat)
    requires |o.data| <= 8 && (o.kind == KIND_END || o.kind == KIND_NOP ==> o.data == [])
    requires |EncodeOption(o)| <= m <= |EncodeOption(o) + tail|
    ensures |Walk((EncodeOption(o) + tail)[..m])| == 1 + |Walk(tail[..m - |EncodeOption(o)|])|
  {
    hide Walk, EncodeOption;
    var first := EncodeOption(o);
    assert (first + tail)[..m] == first + tail[..m - |first|];
    WalkOne(o, tail[..m - |first|]);
  }

  lemma EncodeCons(o: TcpOption, others: seq<TcpOption>)
    ensures Encode([o] + others) == EncodeOption(o) + Encode(others)
  {
    hide EncodeOption;
    assert ([o] + others)[1..] == others;
  }

  lemma Regroup(a: Bytes, b: Bytes, c: Bytes)
    ensures (a + b) + c == a + (b + c)
  {
  }

  lemma EncodeUnfolds(kinds: seq<uint8>, fp: Fingerprint, tsVal: uint32, rest: Bytes)
    requires kinds != []
    ensures Encode(OptionsFor(kinds, fp, tsVal)) + rest
            == EncodeOption(OptionFor(kinds[0], fp, tsVal)) + (Encode(OptionsFor(kinds[1..], fp, tsVal)) + rest)
  {
    hide OptionFor, EncodeOption, Encode;
    var o, others := OptionFor(kinds[0], fp, tsVal), OptionsFor(kinds[1..], fp, tsVal);
    EncodeCons(o, others);
    Regroup(EncodeOption(o), Encode(others), rest);
  }

  lemma SizesUnfold(kinds: seq<uint8>)
    requires AllSupported(kinds) && kinds != []
    ensures TotalSize(kinds) == OptionSize(kinds[0]) + TotalSize(kinds[1..])
    ensures Supported(kinds[0]) && AllSupported(kinds[1..])
  {
    hide Supported, OptionSize;
  }

  lemma NoOptions()
    ensures TotalSize([]) == 0
  {
  }

  /** An option area cut off before the last option shows fewer options. */
  lemma {:induction false} CutWalkIsShort(kinds: seq<uint8>, fp: Fingerprint, tsVal: uint32, rest: Bytes, m: nat)
    requires AllSupported(kinds) && kinds != [] && m + OptionSize(kinds[|kinds| - 1]) <= TotalSize(kinds)
    ensures m <= |Encode(OptionsFor(kinds, fp, tsVal)) + rest|
    ensures |Walk((Encode(OptionsFor(kinds, fp, tsVal)) + rest)[..m])| < |kinds|
  {
    hide OptionFor, OptionsFor, Encode, Walk, EncodeOption, Supported, AllSupported, OptionSize, TotalSize;
    EncodeUnfolds(kinds, fp, tsVal, rest);
    SizesUnfold(kinds);
    EncodedSize(kinds, fp, tsVal);
    var o, others := OptionFor(kinds[0], fp, tsVal), kinds[1..];
    var first, tail := EncodeOption(o), Encode(OptionsFor(others, fp, tsVal)) + rest;
    if others == [] || |first| > m {
      assert others == [] ==> TotalSize(others) == 0 by {
        NoOptions();
      }
      WalkOfCutOption(o, (first + tail)[..m], tail);
    } else {
      assert others[|kinds| - 2] == kinds[|kinds| - 1];
      CutWalkIsShort(others, fp, tsVal, rest, m - |first|);
      CutAfterFirst(o, tail, m);
    }
  }

  /** The last option takes at most what all of them take. */
  lemma {:induction false} LastOptionFits(kinds: seq<uint8>)
    requires TotalSize(kinds) > 0
    ensures kinds != [] && OptionSize(kinds[|kinds| - 1]) <= TotalSize(kinds)
  {
    if |kinds| > 1 {
      LastOptionFits(kinds[1..]);
    }
  }

  lemma WordsReceived(n: nat)
    requires n % 4 == 0
    ensures n <= 40 ==> (5 + n / 4) % 16 == 5 + n / 4
    ensures n > 40 && (5 + n / 4) % 16 >= 5 ==> ((5 + n / 4) % 16 - 5) * 4 <= n - 64
  {
  }

  /** Options that fit the header show up completely, and each byte of padding as one more kind. */
  lemma ShortOptionsShow(fp: Fingerprint, tsVal: uint32)
    requires AllSupported(fp.kinds) && TotalSize(fp.kinds) <= 40
    ensures |Observed(fp, tsVal).kinds| == |fp.kinds| + Padding(TotalSize(fp.kinds))
    ensures Padding(TotalSize(fp.kinds)) == 0 ==> Observed(fp, tsVal).kinds == fp.kinds
  {
    hide OptionFor, Encode, Walk, TotalSize, OptionsFor;
    var bytes := Encode(OptionsFor(fp.kinds, fp, tsVal));
    var pad := ZeroBytes(Padding(|bytes|));
    EncodedSize(fp.kinds, fp, tsVal);
    WordsReceived(|bytes + pad|);
    assert ReceivedOptions(bytes) == bytes + pad;
    WalkOfEncode(fp.kinds, fp, tsVal, pad);
    WalkOfZeros(|pad|);
    if pad == [] {
      WalkOfZeros(0);
      assert OptionsFor(fp.kinds, fp, tsVal) + [] == OptionsFor(fp.kinds, fp, tsVal);
    }
    KindsOfOptions(fp.kinds, fp, tsVal);
  }

  /** Longer options lose at least the last one. */
  lemma LongOptionsAreLost(fp: Fingerprint, tsVal: uint32)
    requires AllSupported(fp.kinds) && TotalSize(fp.kinds) > 40
    ensures |Observed(fp, tsVal).kinds| < |fp.kinds|
  {
    hide OptionFor, Encode, Walk, TotalSize, OptionsFor, OptionSize;
    var bytes := Encode(OptionsFor(fp.kinds, fp, tsVal));
    var pad := ZeroBytes(Padding(|bytes|));
    EncodedSize(fp.kinds, fp, tsVal);
    WordsReceived(|bytes + pad|);
    LastOptionFits(fp.kinds);
    var m := |ReceivedOptions(bytes)|;
    CutWalkIsShort(fp.kinds, fp, tsVal, pad, m);
    assert ReceivedOptions(bytes) == (bytes + pad)[..m];
  }

  /** The SYN shows exactly the kinds of the fingerprint if and only if its options fill whole words, so
      that no zero padding shows up as extra kinds, and take at most 40 bytes, the room that the header
      length field leaves. */
  lemma KindsSurviveExactlyWhen(fp: Fingerprint, tsVal: uint32)
    requires AllSupported(fp.kinds)
    ensures Observed(fp, tsVal).kinds == fp.kinds <==> TotalSize(fp.kinds) % 4 == 0 && TotalSize(fp.kinds) <= 40
  {
    hide Observed, TotalSize;
    if TotalSize(fp.kinds) <= 40 {
      ShortOptionsShow(fp, tsVal);
    } else {
      LongOptionsAreLost(fp, tsVal);
    }
  }

  /** The kinds in front of the first end-of-list. */
  function KindsListed(kinds: seq<uint8>): (listed: seq<uint8>)
    ensures listed <= kinds && KIND_END !in listed
    ensures |listed| < |kinds| ==> kinds[|listed|] == KIND_END
  {
    if kinds == [] || kinds[0] == KIND_END then [] else [kinds[0]] + KindsListed(kinds[1..])
  }

  lemma ListedOptions(kinds: seq<uint8>, fp: Fingerprint, tsVal: uint32)
    ensures Listed(OptionsFor(kinds, fp, tsVal)) == OptionsFor(KindsListed(kinds), fp, tsVal)
  {
    hide OptionFor;
    var options, listed := OptionsFor(kinds, fp, tsVal), KindsListed(kinds);
    assert FirstEnd(options) == |listed|;
    assert options[..|listed|] == OptionsFor(listed, fp, tsVal);
  }

  /** What a listener reads from options that fit: everything but an MSS or a scale behind the end-of-list. */
  lemma ShortOptionsAreRead(fp: Fingerprint, tsVal: uint32)
    requires AllSupported(fp.kinds) && TotalSize(fp.kinds) % 4 == 0 && TotalSize(fp.kinds) <= 40
    ensures var listed := KindsListed(fp.kinds);
            Observed(fp, tsVal) == Fingerprint(fp.window, fp.kinds,
                                               if Ja4t.KIND_MSS in listed then fp.mss else 0,
                                               if KIND_SCALE in listed then fp.scale else 0)
  {
    hide OptionFor, OptionSize, Encode, Walk, TotalSize, OptionsFor, ReadMSS, ReadScale, Listed, KindsListed;
    var options := OptionsFor(fp.kinds, fp, tsVal);
    EncodedSize(fp.kinds, fp, tsVal);
    WordsReceived(|Encode(options)|);
    assert ReceivedOptions(Encode(options)) == Encode(options) + [];
    WalkOfEncode(fp.kinds, fp, tsVal, []);
    WalkOfZeros(0);
    assert options + Walk([]) == options;
    KindsOfOptions(fp.kinds, fp, tsVal);
    ListedOptions(fp.kinds, fp, tsVal);
    MSSOfOptions(KindsListed(fp.kinds), fp, tsVal);
    ScaleOfOptions(KindsListed(fp.kinds), fp, tsVal);
  }

  /** A listener reads back the very fingerprint that was asked for, and prints the same text, if and only
      if the options take at most 40 bytes and no MSS and no scale of interest stands only behind an
      end-of-list. */
  lemma FingerprintSurvivesExactlyWhen(fp: Fingerprint, tsVal: uint32)
    requires ValidFingerprint(fp)
    ensures var listed := KindsListed(fp.kinds);
            Observed(fp, tsVal) == fp
            <==> && TotalSize(fp.kinds) <= 40
                 && (Ja4t.KIND_MSS in fp.kinds ==> Ja4t.KIND_MSS in listed)
                 && (fp.scale != 0 ==> KIND_SCALE in listed)
    ensures Print(Observed(fp, tsVal)) == Print(fp) <==> Observed(fp, tsVal) == fp
  {
    hide Observed, TotalSize, KindsListed, Print, Parse;
    if TotalSize(fp.kinds) <= 40 {
      ShortOptionsAreRead(fp, tsVal);
    } else {
      LongOptionsAreLost(fp, tsVal);
    }
    ParseOfPrint(fp);
    ParseOfPrint(Observed(fp, tsVal));
  }

  lemma SizeOfFive(kinds: seq<uint8>)
    requires kinds == [0, 1, 1, 1, 2]
    ensures TotalSize(kinds) == 8 && AllSupported(kinds)
  {
    assert kinds[1..] == [1, 1, 1, 2] && [1, 1, 1, 2][1..] == [1, 1, 2] && [1, 1, 2][1..] == [1, 2] && [1, 2][1..] == [2];
    assert [2][1..] == [];
  }

  /** `1_0-1-1-1-2_1460_00` is valid and takes 8 bytes: its MSS is not read back. */
  lemma MSSBehindTheEndIsLost(tsVal: uint32)
    ensures var fp := Fingerprint(1, [0, 1, 1, 1, 2], 1460, 0);
            ValidFingerprint(fp) && Observed(fp, tsVal) == fp.(mss := 0)
  {
    hide Observed;
    var fp := Fingerprint(1, [0, 1, 1, 1, 2], 1460, 0);
    SizeOfFive(fp.kinds);
    ShortOptionsAreRead(fp, tsVal);
  }

  lemma SixtyBytesAreLost(bytes: Bytes)
    requires |bytes| == 60
    ensures ReceivedOptions(bytes) == []
  {
  }

  lemma {:induction false} SizeOfTimestamps(kinds: seq<uint8>)
    requires forall i :: 0 <= i < |kinds| ==> kinds[i] == 8
    ensures TotalSize(kinds) == 10 * |kinds|
  {
    if kinds != [] {
      SizeOfTimestamps(kinds[1..]);
    }
  }

  /** `1_8-8-8-8-8-8_00_00` is valid and takes 60 bytes: the listener sees no options at all. */
  lemma SixTimestampsAreLost(tsVal: uint32)
    ensures var fp := Fingerprint(1, [8, 8, 8, 8, 8, 8], 0, 0);
            ValidFingerprint(fp) && Observed(fp, tsVal).kinds == []
  {
    hide OptionsFor, Encode, ReceivedOptions;
    var fp := Fingerprint(1, [8, 8, 8, 8, 8, 8], 0, 0);
    SizeOfTimestamps(fp.kinds);
    EncodedSize(fp.kinds, fp, tsVal);
    SixtyBytesAreLost(Encode(OptionsFor(fp.kinds, fp, tsVal)));
  }

  lemma TwoParts(y: nat)
    ensures y / 256 * 256 + y % 256 == y
  {
  }

  lemma FourthByte(x: nat)
    ensures x / 0x100_0000 == x / 0x1_0000 / 256
  {
  }

  lemma ThirdByte(x: nat)
    ensures x / 0x1_0000 == x / 256 / 256
  {
  }

  lemma WordFromBytes(x: uint32)
    ensures BigEndian32(BigEndianBytes32(x)) == x
  {
    FourthByte(x);
    ThirdByte(x);
    TwoParts(x / 0x1_0000);
    TwoParts(x / 256);
    TwoParts(x);
  }

  /** The bytes of every option on the wire, and that the timestamp's number is the one given. */
  lemma OptionBytesAre(fp: Fingerprint, tsVal: uint32)
    ensures EncodeOption(OptionFor(0, fp, tsVal)) == [0]
    ensures EncodeOption(OptionFor(1, fp, tsVal)) == [1]
    ensures EncodeOption(OptionFor(2, fp, tsVal)) == [2, 4, fp.mss / 256, fp.mss % 256]
    ensures EncodeOption(OptionFor(3, fp, tsVal)) == [3, 3, fp.scale]
    ensures EncodeOption(OptionFor(4, fp, tsVal)) == [4, 2]
    ensures EncodeOption(OptionFor(8, fp, tsVal)) == [8, 10] + BigEndianBytes32(tsVal) + [0, 0, 0, 0]
    ensures BigEndian32(BigEndianBytes32(tsVal)) == tsVal
  {
    WordFromBytes(tsVal);
    hide BigEndianBytes32, BigEndian32;
  }
}
