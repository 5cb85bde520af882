/** JA4T fingerprints as text: `window_kinds_mss_scale` (internal/curlu/ja4t.go). */
module Ja4t {
  import opened Wrappers
  import opened Word32
  import opened Text
  import opened Decimal

  const KIND_END: uint8 := 0
  const KIND_NOP: uint8 := 1
  const KIND_MSS: uint8 := 2
  const KIND_SCALE: uint8 := 3
  const KIND_SACK: uint8 := 4
  const KIND_TIMESTAMPS: uint8 := 8

  datatype Fingerprint = Fingerprint(window: uint16, kinds: seq<uint8>, mss: uint16, scale: uint8)

  datatype Ja4tError =
    | WrongShape
    | BadWindow(text: string)
    | BadKind(text: string)
    | BadMSS(text: string)
    | BadScale(text: string)
    | UnsupportedKind(kind: uint8)
    | MSSMissing
    | MSSWithoutOption
    | ScaleWithoutOption
    | BadLength(bytes: nat)

  // ----- Validity -----

  predicate Supported(kind: uint8) {
    kind == KIND_END || kind == KIND_NOP || kind == KIND_MSS || kind == KIND_SCALE || kind == KIND_SACK || kind == KIND_TIMESTAMPS
  }

  /** The bytes that an option of that kind takes on the wire. */
  function OptionSize(kind: uint8): (n: nat)
    ensures 1 <= n <= 10
  {
    if kind == KIND_MSS then 4
    else if kind == KIND_SCALE then 3
    else if kind == KIND_SACK then 2
    else if kind == KIND_TIMESTAMPS then 10
    else 1
  }

  function TotalSize(kinds: seq<uint8>): nat {
    if kinds == [] then 0 else OptionSize(kinds[0]) + TotalSize(kinds[1..])
  }

  predicate AllSupported(kinds: seq<uint8>) {
    forall i :: 0 <= i < |kinds| ==> Supported(kinds[i])
  }

  /** What a fingerprint must satisfy: known kinds, an MSS exactly when option 2 is present, a scale only
      with option 3, and options that fill whole 32-bit words. */
  predicate ValidFingerprint(fp: Fingerprint) {
    && AllSupported(fp.kinds)
    && (KIND_MSS in fp.kinds <==> fp.mss != 0)
    && (fp.scale != 0 ==> KIND_SCALE in fp.kinds)
    && TotalSize(fp.kinds) % 4 == 0
  }

  function FirstUnsupported(kinds: seq<uint8>): (i: nat)
    ensures i <= |kinds|
    ensures i < |kinds| ==> !Supported(kinds[i])
    ensures forall j :: 0 <= j < i ==> Supported(kinds[j])
  {
    if kinds == [] || !Supported(kinds[0]) then 0 else 1 + FirstUnsupported(kinds[1..])
  }

  /** The complaint about a fingerprint, in the order in which the conditions are examined. */
  function Complaint(fp: Fingerprint): (complaint: Option<Ja4tError>)
    ensures complaint.None? <==> ValidFingerprint(fp)
  {
    var i := FirstUnsupported(fp.kinds);
    if i < |fp.kinds| then Some(UnsupportedKind(fp.kinds[i]))
    else if KIND_MSS in fp.kinds && fp.mss == 0 then Some(MSSMissing)
    else if KIND_MSS !in fp.kinds && fp.mss != 0 then Some(MSSWithoutOption)
    else if KIND_SCALE !in fp.kinds && fp.scale != 0 then Some(ScaleWithoutOption)
    else if TotalSize(fp.kinds) % 4 != 0 then Some(BadLength(TotalSize(fp.kinds)))
    else None
  }

  // ----- Text -----

  function KindTexts(kinds: seq<uint8>): (texts: seq<string>)
    ensures |texts| == |kinds|
    ensures forall i :: 0 <= i < |kinds| ==> texts[i] == Format(kinds[i])
  {
    if kinds == [] then [] else [Format(kinds[0])] + KindTexts(kinds[1..])
  }

  function PrintKinds(kinds: seq<uint8>): string {
    if kinds == [] then "00" else Join(KindTexts(kinds), '-')
  }

  /** The canonical text of a fingerprint. */
  function Print(fp: Fingerprint): string {
    Format(fp.window) + "_" + PrintKinds(fp.kinds)
    + "_" + (if fp.mss != 0 then Pad(fp.mss, 2) else "00")
    + "_" + (if fp.scale != 0 then Format(fp.scale) else "00")
  }

  function ParseKindTexts(fields: seq<string>): (r: Result<seq<uint8>, Ja4tError>)
    ensures r.Success? ==> |r.value| == |fields|
  {
    if fields == [] then Success([])
    else
      var n := ParseUint(fields[0], 255);
      if n.None? then Failure(BadKind(fields[0]))
      else
        var rest :- ParseKindTexts(fields[1..]);
        Success([n.value] + rest)
  }

  function ParseKinds(value: string): Result<seq<uint8>, Ja4tError> {
    if value == "00" || value == "" then Success([]) else ParseKindTexts(Split(value, '-'))
  }

  function ParseSection(value: string, max: nat): (n: Option<nat>)
    ensures n.Some? ==> n.value <= max
  {
    if value == "00" then Some(0) else ParseUint(value, max)
  }

  function Parse(value: string): (r: Result<Fingerprint, Ja4tError>)
    ensures r.Success? ==> ValidFingerprint(r.value)
  {
    var parts := Split(value, '_');
    if |parts| != 4 then Failure(WrongShape)
    else
      var window := ParseUint(parts[0], 65535);
      if window.None? then Failure(BadWindow(parts[0]))
      else
        var kinds :- ParseKinds(parts[1]);
        var mss := ParseSection(parts[2], 65535);
        if mss.None? then Failure(BadMSS(parts[2]))
        else
          var scale := ParseSection(parts[3], 255);
          if scale.None? then Failure(BadScale(parts[3]))
          else
            var fp := Fingerprint(window.value, kinds, mss.value, scale.value);
            var complaint := Complaint(fp);
            if complaint.Some? then Failure(complaint.value) else Success(fp)
  }

  // ----- The loops -----

  method ParseKindsLoop(value: string) returns (r: Result<seq<uint8>, Ja4tError>)
    ensures r == ParseKinds(value)
  {
    if value == "00" || value == "" {
      return Success([]);
    }
    var fields := Split(value, '-');
    var kinds: seq<uint8> := [];
    assert fields[0..] == fields;
    if ParseKindTexts(fields).Success? {
      assert kinds + ParseKindTexts(fields).value == ParseKindTexts(fields).value;
    }
    for i := 0 to |fields|
      invariant ParseKindTexts(fields) ==
                  (if ParseKindTexts(fields[i..]).Success? then Success(kinds + ParseKindTexts(fields[i..]).value)
                   else ParseKindTexts(fields[i..]))
    {
      assert fields[i..][1..] == fields[i + 1..];
      var n := ParseUint(fields[i], 255);
      if n.None? {
        return Failure(BadKind(fields[i]));
      }
      if ParseKindTexts(fields[i + 1..]).Success? {
        assert kinds + ([n.value] + ParseKindTexts(fields[i + 1..]).value) == kinds + [n.value] + ParseKindTexts(fields[i + 1..]).value;
      }
      kinds := kinds + [n.value];
    }
    assert kinds + [] == kinds;
    return Success(kinds);
  }

  /** validate: no complaint exactly for a valid fingerprint. */
  method Validate(fp: Fingerprint) returns (complaint: Option<Ja4tError>)
    ensures complaint == Complaint(fp)
  {
    var hasMSS, hasScale := false, false;
    for i := 0 to |fp.kinds|
      invariant forall j :: 0 <= j < i ==> Supported(fp.kinds[j])
      invariant hasMSS <==> KIND_MSS in fp.kinds[..i]
      invariant hasScale <==> KIND_SCALE in fp.kinds[..i]
    {
      var kind := fp.kinds[i];
      assert fp.kinds[..i + 1] == fp.kinds[..i] + [kind];
      if kind == KIND_MSS {
        hasMSS := true;
      } else if kind == KIND_SCALE {
        hasScale := true;
      } else if !(kind == KIND_END || kind == KIND_NOP || kind == KIND_SACK || kind == KIND_TIMESTAMPS) {
        return Some(UnsupportedKind(kind));
      }
    }
    assert fp.kinds[..|fp.kinds|] == fp.kinds;
    if hasMSS && fp.mss == 0 {
      return Some(MSSMissing);
    }
    if !hasMSS && fp.mss != 0 {
      return Some(MSSWithoutOption);
    }
    if !hasScale && fp.scale != 0 {
      return Some(ScaleWithoutOption);
    }
    var n := TotalSize(fp.kinds);
    if n % 4 != 0 {
      return Some(BadLength(n));
    }
    return None;
  }

  method ToText(fp: Fingerprint) returns (s: string)
    ensures s == Print(fp)
  {
    hide Format, Pad, Join, KindTexts;
    var opts := "00";
    if |fp.kinds| > 0 {
      var parts: seq<string> := [];
      for i := 0 to |fp.kinds|
        invariant parts == KindTexts(fp.kinds)[..i]
      {
        parts := parts + [Format(fp.kinds[i])];
      }
      assert parts == KindTexts(fp.kinds);
      opts := Join(parts, '-');
    }
    var mss := "00";
    if fp.mss != 0 {
      mss := Pad(fp.mss, 2);
    }
    var scale := "00";
    if fp.scale != 0 {
      scale := Format(fp.scale);
    }
    s := Format(fp.window) + "_" + opts + "_" + mss + "_" + scale;
  }

  // ----- Round trips -----

  lemma {:induction false} ParseOfKindTexts(kinds: seq<uint8>)
    ensures ParseKindTexts(KindTexts(kinds)) == Success(kinds)
  {
    if kinds != [] {
      ParseOfKindTexts(kinds[1..]);
      ParseOfFormat(kinds[0], 255);
      assert KindTexts(kinds)[1..] == KindTexts(kinds[1..]);
      assert [kinds[0]] + kinds[1..] == kinds;
    }
  }

  lemma DigitsHaveNo(s: string, c: char)
    requires AllDigits(s) && !IsDigit(c)
    ensures c !in s
  {
  }

  lemma {:induction false} JoinHasNo(parts: seq<string>, sep: char, c: char)
    requires sep != c && forall i :: 0 <= i < |parts| ==> c !in parts[i]
    ensures c !in Join(parts, sep)
  {
    if |parts| > 1 {
      JoinHasNo(parts[1..], sep, c);
    }
  }

  lemma ParseOfPrintedKinds(kinds: seq<uint8>)
    ensures ParseKinds(PrintKinds(kinds)) == Success(kinds)
    ensures '_' !in PrintKinds(kinds)
  {
    if kinds != [] {
      var texts := KindTexts(kinds);
      forall i | 0 <= i < |texts| ensures '-' !in texts[i] && '_' !in texts[i] {
        DigitsHaveNo(texts[i], '-');
        DigitsHaveNo(texts[i], '_');
      }
      SplitOfJoin(texts, '-');
      JoinHasNo(texts, '-', '_');
      ParseOfKindTexts(kinds);
      var s := PrintKinds(kinds);
      if |kinds| > 1 {
        assert s[|texts[0]|] == '-';
        assert '-' in s;
      } else {
        assert s == Format(kinds[0]);
      }
      assert s != "00" && s != "";
    }
  }

  lemma JoinOfFour(parts: seq<string>)
    requires |parts| == 4
    ensures Join(parts, '_') == parts[0] + "_" + parts[1] + "_" + parts[2] + "_" + parts[3]
  {
    assert Join(parts[3..], '_') == parts[3];
    assert parts[1..][1..] == parts[2..] && parts[2..][1..] == parts[3..];
    assert Join(parts[2..], '_') == parts[2] + "_" + parts[3];
    assert Join(parts[1..], '_') == parts[1] + "_" + (parts[2] + "_" + parts[3]);
  }

  lemma SectionsRoundTrip(fp: Fingerprint)
    ensures ParseUint(Format(fp.window), 65535) == Some(fp.window)
    ensures ParseSection(if fp.mss != 0 then Pad(fp.mss, 2) else "00", 65535) == Some(fp.mss)
    ensures ParseSection(if fp.scale != 0 then Format(fp.scale) else "00", 255) == Some(fp.scale)
  {
    ParseOfFormat(fp.window, 65535);
    ValueOfPad(fp.mss, 2);
    ParseOfFormat(fp.scale, 255);
  }

  /** Printing a fingerprint and reading the text back gives that fingerprint if it is valid, and the
      complaint about it if it is not. */
  lemma ParseOfPrint(fp: Fingerprint)
    ensures Parse(Print(fp)) == if ValidFingerprint(fp) then Success(fp) else Failure(Complaint(fp).value)
  {
    hide ParseKinds, PrintKinds, ParseUint, Format, Pad, Complaint, ValidFingerprint, Split;
    var parts := [Format(fp.window), PrintKinds(fp.kinds),
                  if fp.mss != 0 then Pad(fp.mss, 2) else "00",
                  if fp.scale != 0 then Format(fp.scale) else "00"];
    ParseOfPrintedKinds(fp.kinds);
    SectionsRoundTrip(fp);
    JoinOfFour(parts);
    DigitsHaveNo(parts[0], '_');
    DigitsHaveNo(parts[2], '_');
    DigitsHaveNo(parts[3], '_');
    SplitOfJoin(parts, '_');
    assert Print(fp) == Join(parts, '_');
  }

  /** Reading and printing normalises a text, and normalising twice changes nothing more. */
  lemma NormalisingIsIdempotent(text: string)
    requires Parse(text).Success?
    ensures Parse(Print(Parse(text).value)) == Parse(text)
  {
    ParseOfPrint(Parse(text).value);
  }

  // ----- Kinds and sections, written out -----

  /** The kinds that can be crafted, and the bytes that each takes. */
  lemma KindsAre(kind: uint8)
    ensures Supported(kind) <==> kind in {0, 1, 2, 3, 4, 8}
    ensures OptionSize(0) == 1 && OptionSize(1) == 1 && OptionSize(2) == 4
    ensures OptionSize(3) == 3 && OptionSize(4) == 2 && OptionSize(8) == 10
  {
  }

  lemma ValidMeans(fp: Fingerprint)
    ensures ValidFingerprint(fp) <==>
              && (forall i :: 0 <= i < |fp.kinds| ==> fp.kinds[i] in {0, 1, 2, 3, 4, 8})
              && (2 in fp.kinds <==> fp.mss != 0) && (fp.scale != 0 ==> 3 in fp.kinds) && TotalSize(fp.kinds) % 4 == 0
  {
    hide TotalSize;
  }

  /** Of several faults the first in this order is reported: the first unknown kind, the MSS, the scale, the
      length. */
  lemma FirstFaultIsReported(fp: Fingerprint, i: nat)
    requires i <= |fp.kinds| && forall j :: 0 <= j < i ==> fp.kinds[j] in {0, 1, 2, 3, 4, 8}
    requires i < |fp.kinds| ==> fp.kinds[i] !in {0, 1, 2, 3, 4, 8}
    ensures Complaint(fp)
            == if i < |fp.kinds| then Some(UnsupportedKind(fp.kinds[i]))
               else if 2 in fp.kinds && fp.mss == 0 then Some(MSSMissing)
               else if 2 !in fp.kinds && fp.mss != 0 then Some(MSSWithoutOption)
               else if 3 !in fp.kinds && fp.scale != 0 then Some(ScaleWithoutOption)
               else if TotalSize(fp.kinds) % 4 != 0 then Some(BadLength(TotalSize(fp.kinds)))
               else None
  {
    assert FirstUnsupported(fp.kinds) == i;
    hide TotalSize, FirstUnsupported;
  }

  predicate IsNumber(s: string, max: nat) {
    s != "" && AllDigits(s) && ValueOf(s) <= max
  }

  function Values(texts: seq<string>): seq<uint8>
    requires forall k :: 0 <= k < |texts| ==> IsNumber(texts[k], 255)
  {
    if texts == [] then []
    else
      assert IsNumber(texts[0], 255);
      [ValueOf(texts[0])] + Values(texts[1..])
  }

  lemma {:induction false} KindTextsAreRead(texts: seq<string>)
    requires forall k :: 0 <= k < |texts| ==> IsNumber(texts[k], 255)
    ensures ParseKindTexts(texts) == Success(Values(texts))
  {
    hide ValueOf;
    if texts != [] {
      KindTextsAreRead(texts[1..]);
    }
  }

  lemma NoValues()
    ensures Values([]) == []
  {
  }

  lemma SeveralTextsAreNoZeros(texts: seq<string>)
    requires texts != [] && texts != ["00"] && texts[0] != ""
    ensures Join(texts, '-') != "00" && Join(texts, '-') != ""
  {
    if |texts| == 1 {
      assert texts == [texts[0]];
    } else {
      var s := Join(texts, '-');
      assert s[|texts[0]|] == '-';
      assert '-' in s;
    }
  }

  /** The kinds section: kinds between hyphens; empty, or `00`, for none. */
  lemma KindsAreRead(texts: seq<string>)
    requires forall k :: 0 <= k < |texts| ==> IsNumber(texts[k], 255)
    requires texts != ["00"]
    ensures ParseKinds(Join(texts, '-')) == Success(Values(texts))
    ensures ParseKinds("00") == Success([]) && ParseKinds("") == Success([])
    ensures '_' !in Join(texts, '-')
  {
    hide ValueOf, ParseKindTexts, Values;
    forall k | 0 <= k < |texts| ensures '-' !in texts[k] && '_' !in texts[k] {
      DigitsHaveNo(texts[k], '-');
      DigitsHaveNo(texts[k], '_');
    }
    JoinHasNo(texts, '-', '_');
    if texts == [] {
      assert Values(texts) == [] by {
        NoValues();
      }
    } else {
      SplitOfJoin(texts, '-');
      KindTextsAreRead(texts);
      SeveralTextsAreNoZeros(texts);
    }
  }

  lemma ZeroIsZero(s: string)
    ensures s == "00" ==> AllDigits(s) && ValueOf(s) == 0
  {
    if s == "00" {
      assert s[..1] == "0" && "0"[..0] == "";
      assert ValueOf("0") == 0;
    }
  }

  /** A text is read section by section, numbers with leading zeros included, and then judged as a whole. */
  lemma SectionsAreRead(window: string, kinds: seq<string>, none: bool, mss: string, scale: string)
    requires IsNumber(window, 65535) && IsNumber(mss, 65535) && IsNumber(scale, 255)
    requires (forall k :: 0 <= k < |kinds| ==> IsNumber(kinds[k], 255)) && kinds != ["00"] && (none ==> kinds == [])
    ensures var fp := Fingerprint(ValueOf(window), Values(kinds), ValueOf(mss), ValueOf(scale));
            Parse(window + "_" + (if none then "00" else Join(kinds, '-')) + "_" + mss + "_" + scale)
            == if ValidFingerprint(fp) then Success(fp) else Failure(Complaint(fp).value)
  {
    hide ValueOf, Values, ParseKinds, Complaint, ValidFingerprint, Split, Join;
    var parts := [window, if none then "00" else Join(kinds, '-'), mss, scale];
    KindsAreRead(kinds);
    NoValues();
    JoinOfFour(parts);
    DigitsHaveNo(window, '_');
    DigitsHaveNo(mss, '_');
    DigitsHaveNo(scale, '_');
    SplitOfJoin(parts, '_');
    ZeroIsZero(mss);
    ZeroIsZero(scale);
  }

  /** Anything but four sections is refused. */
  lemma FourSectionsOnly(parts: seq<string>)
    requires parts != [] && |parts| != 4 && forall k :: 0 <= k < |parts| ==> '_' !in parts[k]
    ensures Parse(Join(parts, '_')) == Failure(WrongShape)
  {
    SplitOfJoin(parts, '_');
  }

  lemma PaddedToTwo(n: nat)
    ensures Pad(n, 2) == if n < 10 then "0" + Format(n) else Format(n)
  {
    if n < 10 {
      assert Zeros(1) == "0" + Zeros(0) == "0";
    } else {
      assert |Format(n)| == |Format(n / 10)| + 1 >= 2;
      assert Zeros(0) + Format(n) == Format(n);
    }
  }

  /** What is printed: no kinds, no MSS and no scale as `00`, and a small MSS with a zero in front. */
  lemma PrintedSections(fp: Fingerprint)
    ensures Print(fp) == Format(fp.window) + "_" + (if fp.kinds == [] then "00" else Join(KindTexts(fp.kinds), '-')) + "_"
                         + (if fp.mss == 0 then "00" else if fp.mss < 10 then "0" + Format(fp.mss) else Format(fp.mss)) + "_"
                         + (if fp.scale == 0 then "00" else Format(fp.scale))
  {
    PaddedToTwo(fp.mss);
    hide Pad, Format, Join, KindTexts;
  }
}
