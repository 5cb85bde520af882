/** The edits that internal/curlu/utls.go makes to the extensions of a parrot's ClientHello. */
module ClientHello {
  import opened Word32

  datatype Extension =
    | ALPN(protocols: seq<string>)
    | SupportedVersions(versions: seq<uint16>)
    | Padding
    | PreSharedKey
    | Generic(id: uint16)
    | Other(tag: int)

  /** mustStayLast: padding and pre_shared_key end the ClientHello (section 4.2.11 of RFC 8446). */
  predicate MustStayLast(e: Extension) {
    e.Padding? || e.PreSharedKey?
  }

  /** The options at work; `alpn` is the protocol given in hex, or empty. */
  datatype Edits = Edits(alpnNone: bool, alpn: string, versions: seq<uint16>, ids: seq<uint16>)

  // ----- Meaning -----

  function WithoutALPN(exts: seq<Extension>): seq<Extension> {
    if exts == [] then []
    else (if exts[0].ALPN? then [] else [exts[0]]) + WithoutALPN(exts[1..])
  }

  function FirstALPN(exts: seq<Extension>): (i: nat)
    ensures i <= |exts| && (i < |exts| ==> exts[i].ALPN?)
    ensures forall j :: 0 <= j < i ==> !exts[j].ALPN?
  {
    if exts == [] || exts[0].ALPN? then 0 else 1 + FirstALPN(exts[1..])
  }

  function FirstVersions(exts: seq<Extension>): (i: nat)
    ensures i <= |exts| && (i < |exts| ==> exts[i].SupportedVersions?)
    ensures forall j :: 0 <= j < i ==> !exts[j].SupportedVersions?
  {
    if exts == [] || exts[0].SupportedVersions? then 0 else 1 + FirstVersions(exts[1..])
  }

  function FirstLast(exts: seq<Extension>): (i: nat)
    ensures i <= |exts| && (i < |exts| ==> MustStayLast(exts[i]))
    ensures forall j :: 0 <= j < i ==> !MustStayLast(exts[j])
  {
    if exts == [] || MustStayLast(exts[0]) then 0 else 1 + FirstLast(exts[1..])
  }

  function ReplaceFirst(protocols: seq<string>, first: string): seq<string> {
    if |protocols| > 1 then [first] + protocols[1..] else [first]
  }

  function EditALPN(exts: seq<Extension>, edits: Edits): seq<Extension> {
    if edits.alpnNone then WithoutALPN(exts)
    else if edits.alpn == "" then exts
    else
      var i := FirstALPN(exts);
      if i < |exts| then exts[i := ALPN(ReplaceFirst(exts[i].protocols, edits.alpn))]
      else exts + [ALPN([edits.alpn])]
  }

  function EditVersions(exts: seq<Extension>, versions: seq<uint16>): seq<Extension> {
    var i := FirstVersions(exts);
    if versions == [] || i == |exts| then exts
    else exts[i := SupportedVersions(exts[i].versions + versions)]
  }

  function Generics(ids: seq<uint16>): (exts: seq<Extension>)
    ensures |exts| == |ids| && forall i :: 0 <= i < |ids| ==> exts[i] == Generic(ids[i])
  {
    if ids == [] then [] else [Generic(ids[0])] + Generics(ids[1..])
  }

  function InsertGenerics(exts: seq<Extension>, ids: seq<uint16>): seq<Extension> {
    exts[..FirstLast(exts)] + Generics(ids) + exts[FirstLast(exts)..]
  }

  /** All edits, in the order in which the handshake makes them. */
  function Edited(exts: seq<Extension>, edits: Edits): seq<Extension> {
    InsertGenerics(EditVersions(EditALPN(exts, edits), edits.versions), edits.ids)
  }

  lemma NothingToKeep(exts: seq<Extension>)
    ensures WithoutALPN(exts) == [] + WithoutALPN(exts[0..]) && WithoutALPN(exts[|exts|..]) == []
  {
    assert exts[0..] == exts;
  }

  lemma KeepOrDrop(keep: seq<Extension>, exts: seq<Extension>, i: nat)
    requires i < |exts|
    ensures keep + WithoutALPN(exts[i..])
            == (if exts[i].ALPN? then keep else keep + [exts[i]]) + WithoutALPN(exts[i + 1..])
  {
    var rest := WithoutALPN(exts[i + 1..]);
    assert exts[i..][1..] == exts[i + 1..];
    assert [] + rest == rest;
    assert keep + ([exts[i]] + rest) == (keep + [exts[i]]) + rest;
  }

  // ----- The edits in place -----

  class Hello {
    var extensions: seq<Extension>
    var alpnProtocols: seq<string>
    var supportedVersions: seq<uint16>

    method ApplyParrotALPN(edits: Edits)
      modifies this`extensions, this`alpnProtocols
      ensures extensions == EditALPN(old(extensions), edits)
      ensures alpnProtocols ==
                if edits.alpnNone then []
                else if edits.alpn == "" then old(alpnProtocols)
                else extensions[FirstALPN(old(extensions))].protocols
    {
      hide WithoutALPN, ReplaceFirst;
      if !edits.alpnNone && edits.alpn == "" {
        return;
      }
      if edits.alpnNone {
        NothingToKeep(extensions);
        var keep: seq<Extension> := [];
        for i := 0 to |extensions|
          invariant extensions == old(extensions)
          invariant WithoutALPN(extensions) == keep + WithoutALPN(extensions[i..])
        {
          KeepOrDrop(keep, extensions, i);
          if extensions[i].ALPN? {
            continue;
          }
          keep := keep + [extensions[i]];
        }
        assert keep + [] == keep;
        extensions := keep;
        alpnProtocols := [];
        return;
      }
      for i := 0 to |extensions|
        invariant extensions == old(extensions) && alpnProtocols == old(alpnProtocols)
        invariant forall j :: 0 <= j < i ==> !extensions[j].ALPN?
      {
        if !extensions[i].ALPN? {
          continue;
        }
        assert i == FirstALPN(extensions);
        extensions := extensions[i := ALPN(ReplaceFirst(extensions[i].protocols, edits.alpn))];
        alpnProtocols := extensions[i].protocols;
        return;
      }
      assert FirstALPN(extensions) == |extensions|;
      extensions := extensions + [ALPN([edits.alpn])];
      alpnProtocols := [edits.alpn];
    }

    method AppendParrotVersions(versions: seq<uint16>)
      modifies this`extensions, this`supportedVersions
      ensures extensions == EditVersions(old(extensions), versions)
      ensures supportedVersions ==
                if versions != [] && FirstVersions(old(extensions)) < |old(extensions)|
                then extensions[FirstVersions(old(extensions))].versions
                else old(supportedVersions)
    {
      if |versions| == 0 {
        return;
      }
      for i := 0 to |extensions|
        invariant extensions == old(extensions) && supportedVersions == old(supportedVersions)
        invariant forall j :: 0 <= j < i ==> !extensions[j].SupportedVersions?
      {
        if !extensions[i].SupportedVersions? {
          continue;
        }
        assert i == FirstVersions(extensions);
        extensions := extensions[i := SupportedVersions(extensions[i].versions + versions)];
        supportedVersions := extensions[i].versions;
        return;
      }
    }

    method AppendParrotExtensions(ids: seq<uint16>)
      modifies this`extensions
      ensures extensions == InsertGenerics(old(extensions), ids)
    {
      if |ids| == 0 {
        assert extensions == extensions[..FirstLast(extensions)] + [] + extensions[FirstLast(extensions)..];
        return;
      }
      var at := |extensions|;
      for i := 0 to |extensions|
        invariant at == |extensions| && forall j :: 0 <= j < i ==> !MustStayLast(extensions[j])
      {
        if MustStayLast(extensions[i]) {
          at := i;
          break;
        }
      }
      assert at == FirstLast(extensions);
      var added: seq<Extension> := [];
      for i := 0 to |ids|
        invariant added == Generics(ids)[..i] && extensions == old(extensions)
      {
        added := added + [Generic(ids[i])];
      }
      assert added == Generics(ids);
      extensions := extensions[..at] + (added + extensions[at..]);
    }

    /** The edits of handshakeUTLS, in its order. */
    method Edit(edits: Edits)
      modifies this
      ensures extensions == Edited(old(extensions), edits)
    {
      ApplyParrotALPN(edits);
      AppendParrotVersions(edits.versions);
      AppendParrotExtensions(edits.ids);
    }
  }

  // ----- What must stay last stays last -----

  ghost predicate AllStay(exts: seq<Extension>) {
    forall i :: 0 <= i < |exts| ==> MustStayLast(exts[i])
  }

  ghost predicate NoneStays(exts: seq<Extension>) {
    forall i :: 0 <= i < |exts| ==> !MustStayLast(exts[i])
  }

  /** The extensions that must stay last are the last ones. */
  ghost predicate LastAtEnd(exts: seq<Extension>) {
    AllStay(exts[FirstLast(exts)..])
  }

  /** The ALPN edit on the extensions in front. */
  function EditFront(front: seq<Extension>, edits: Edits): seq<Extension> {
    EditVersions(EditALPN(front, edits), edits.versions)
  }

  /** An ALPN protocol is given, and there is no ALPN extension to put it in. */
  predicate AddsALPN(exts: seq<Extension>, edits: Edits) {
    !edits.alpnNone && edits.alpn != "" && FirstALPN(exts) == |exts|
  }

  lemma Regroup(a: seq<Extension>, b: seq<Extension>, c: seq<Extension>)
    ensures a + (b + c) == (a + b) + c
  {
  }

  lemma {:induction false} WithoutALPNOfAppend(a: seq<Extension>, b: seq<Extension>)
    ensures WithoutALPN(a + b) == WithoutALPN(a) + WithoutALPN(b)
  {
    if a == [] {
      assert a + b == b;
    } else {
      WithoutALPNOfAppend(a[1..], b);
      assert (a + b)[1..] == a[1..] + b;
      Regroup(if a[0].ALPN? then [] else [a[0]], WithoutALPN(a[1..]), WithoutALPN(b));
    }
  }

  lemma {:induction false} WithoutALPNOfStay(tail: seq<Extension>)
    requires AllStay(tail)
    ensures WithoutALPN(tail) == tail
  {
    if tail != [] {
      WithoutALPNOfStay(tail[1..]);
    }
  }

  lemma FirstsInFront(front: seq<Extension>, tail: seq<Extension>)
    requires AllStay(tail)
    ensures FirstALPN(front + tail) == if FirstALPN(front) < |front| then FirstALPN(front) else |front + tail|
    ensures FirstVersions(front + tail) == if FirstVersions(front) < |front| then FirstVersions(front) else |front + tail|
  {
    var all := front + tail;
    assert forall i :: 0 <= i < |all| ==> all[i] == if i < |front| then front[i] else tail[i - |front|];
  }

  lemma EndBegins(front: seq<Extension>, tail: seq<Extension>)
    requires NoneStays(front) && AllStay(tail)
    ensures FirstLast(front + tail) == |front|
    ensures (front + tail)[..|front|] == front && (front + tail)[|front|..] == tail
    ensures LastAtEnd(front + tail)
  {
    var all := front + tail;
    if tail != [] {
      assert all[|front|] == tail[0];
    }
    assert all[|front|..] == tail;
  }

  lemma EditALPNInFront(front: seq<Extension>, tail: seq<Extension>, edits: Edits)
    requires AllStay(tail) && (tail != [] ==> !AddsALPN(front, edits))
    ensures EditALPN(front + tail, edits) == EditALPN(front, edits) + tail
  {
    hide WithoutALPN, FirstALPN, FirstVersions, AllStay, ReplaceFirst;
    if tail == [] {
      assert front + tail == front && EditALPN(front, edits) + tail == EditALPN(front, edits);
    } else if edits.alpnNone {
      WithoutALPNOfAppend(front, tail);
      WithoutALPNOfStay(tail);
    } else if edits.alpn != "" {
      FirstsInFront(front, tail);
      var i := FirstALPN(front);
      var edited := ALPN(ReplaceFirst(front[i].protocols, edits.alpn));
      assert (front + tail)[i := edited] == front[i := edited] + tail;
    }
  }

  lemma EditVersionsInFront(front: seq<Extension>, tail: seq<Extension>, versions: seq<uint16>)
    requires AllStay(tail)
    ensures EditVersions(front + tail, versions) == EditVersions(front, versions) + tail
    ensures NoneStays(front) ==> NoneStays(EditVersions(front, versions))
  {
    FirstsInFront(front, tail);
  }

  lemma {:induction false} WithoutALPNStaysNot(exts: seq<Extension>)
    requires NoneStays(exts)
    ensures NoneStays(WithoutALPN(exts))
  {
    if exts != [] {
      WithoutALPNStaysNot(exts[1..]);
    }
  }

  lemma EditALPNStaysNot(front: seq<Extension>, edits: Edits)
    requires NoneStays(front)
    ensures NoneStays(EditALPN(front, edits))
  {
    WithoutALPNStaysNot(front);
  }

  /** The edits work on the extensions in front, put the new ones behind those, and leave the padding
      and pre_shared_key extensions at the end as they are. */
  lemma EditsKeepTheEnd(front: seq<Extension>, tail: seq<Extension>, edits: Edits)
    requires NoneStays(front) && AllStay(tail) && (tail != [] ==> !AddsALPN(front, edits))
    ensures Edited(front + tail, edits) == EditFront(front, edits) + Generics(edits.ids) + tail
    ensures NoneStays(EditFront(front, edits))
  {
    hide EditALPN, EditVersions, FirstLast;
    EditALPNInFront(front, tail, edits);
    EditALPNStaysNot(front, edits);
    EditVersionsInFront(EditALPN(front, edits), tail, edits.versions);
    EndBegins(EditFront(front, edits), tail);
  }

  lemma NotAtEnd(exts: seq<Extension>, i: nat)
    requires i < |exts| - 1 && MustStayLast(exts[i]) && !MustStayLast(exts[|exts| - 1])
    ensures !LastAtEnd(exts)
  {
    var k := FirstLast(exts);
    assert k <= i;
    assert exts[k..][|exts| - 1 - k] == exts[|exts| - 1];
  }

  lemma InsertKeepsEnds(exts: seq<Extension>, ids: seq<uint16>, i: nat)
    requires i < |exts| - 1 && MustStayLast(exts[i]) && !MustStayLast(exts[|exts| - 1])
    ensures !LastAtEnd(InsertGenerics(exts, ids))
  {
    hide LastAtEnd, Generics;
    var k, done := FirstLast(exts), InsertGenerics(exts, ids);
    assert k <= i && |done| == |exts| + |ids|;
    assert done[|ids| + k] == exts[k] && done[|done| - 1] == exts[|exts| - 1];
    NotAtEnd(done, |ids| + k);
  }

  /** The version edit replaces a supported_versions extension, if anything. */
  lemma EditVersionsStays(exts: seq<Extension>, versions: seq<uint16>, i: nat)
    requires i < |exts|
    ensures |EditVersions(exts, versions)| == |exts|
    ensures MustStayLast(EditVersions(exts, versions)[i]) <==> MustStayLast(exts[i])
  {
  }

  /** An ALPN extension added behind padding or pre_shared_key ends up behind them. */
  lemma AddedALPNComesLast(front: seq<Extension>, tail: seq<Extension>, edits: Edits)
    requires NoneStays(front) && AllStay(tail) && tail != [] && AddsALPN(front, edits)
    ensures !LastAtEnd(Edited(front + tail, edits))
  {
    hide FirstALPN, LastAtEnd, EditVersions, InsertGenerics, WithoutALPN;
    FirstsInFront(front, tail);
    var exts := EditALPN(front + tail, edits);
    assert exts == front + tail + [ALPN([edits.alpn])];
    assert exts[|front|] == tail[0] && exts[|exts| - 1].ALPN?;
    EditVersionsStays(exts, edits.versions, |front|);
    EditVersionsStays(exts, edits.versions, |exts| - 1);
    InsertKeepsEnds(EditVersions(exts, edits.versions), edits.ids, |front|);
  }

  lemma AddsInFront(front: seq<Extension>, tail: seq<Extension>, edits: Edits)
    requires AllStay(tail)
    ensures AddsALPN(front + tail, edits) <==> AddsALPN(front, edits)
  {
    FirstsInFront(front, tail);
  }

  /** A list whose last part must stay last, cut there. */
  lemma CutAtEnd(exts: seq<Extension>)
    requires LastAtEnd(exts)
    ensures var k := FirstLast(exts);
            exts == exts[..k] + exts[k..] && NoneStays(exts[..k]) && AllStay(exts[k..])
  {
    hide FirstLast, MustStayLast;
    var k := FirstLast(exts);
    var front := exts[..k];
    forall i | 0 <= i < |front| ensures !MustStayLast(front[i]) {
      assert front[i] == exts[i];
    }
  }

  lemma EndIsThere(exts: seq<Extension>)
    ensures FirstLast(exts) < |exts| <==> exists i :: 0 <= i < |exts| && MustStayLast(exts[i])
  {
    hide FirstLast, MustStayLast;
    var k := FirstLast(exts);
    if k < |exts| {
      assert MustStayLast(exts[k]);
    }
  }

  lemma GenericsStayNot(front: seq<Extension>, ids: seq<uint16>)
    requires NoneStays(front)
    ensures NoneStays(front + Generics(ids))
  {
    hide Generics;
  }

  /** If padding and pre_shared_key end the parrot's ClientHello, they still end it after all edits if and
      only if no ALPN extension had to be added to a ClientHello that has one of them. */
  lemma EndIsKeptExactlyWhen(exts: seq<Extension>, edits: Edits)
    requires LastAtEnd(exts)
    ensures LastAtEnd(Edited(exts, edits)) <==> !(AddsALPN(exts, edits) && exists i :: 0 <= i < |exts| && MustStayLast(exts[i]))
    ensures LastAtEnd(Edited(exts, edits)) ==>
              var done := Edited(exts, edits);
              done[FirstLast(done)..] == exts[FirstLast(exts)..]
  {
    hide Edited, EditFront, AddsALPN, NoneStays, AllStay, FirstLast, LastAtEnd, Generics;
    CutAtEnd(exts);
    EndIsThere(exts);
    var k := FirstLast(exts);
    var front, tail := exts[..k], exts[k..];
    AddsInFront(front, tail, edits);
    if tail != [] && AddsALPN(front, edits) {
      AddedALPNComesLast(front, tail, edits);
    } else {
      EditsKeepTheEnd(front, tail, edits);
      GenericsStayNot(EditFront(front, edits), edits.ids);
      EndBegins(EditFront(front, edits) + Generics(edits.ids), tail);
    }
  }

  /** The extensions that no option touches. */
  function Untouched(exts: seq<Extension>): seq<Extension> {
    if exts == [] then []
    else (if exts[0].ALPN? || exts[0].SupportedVersions? then [] else [exts[0]]) + Untouched(exts[1..])
  }

  lemma {:induction false} UntouchedOfAppend(a: seq<Extension>, b: seq<Extension>)
    ensures Untouched(a + b) == Untouched(a) + Untouched(b)
  {
    if a == [] {
      assert a + b == b;
    } else {
      UntouchedOfAppend(a[1..], b);
      assert (a + b)[1..] == a[1..] + b;
      Regroup(if a[0].ALPN? || a[0].SupportedVersions? then [] else [a[0]], Untouched(a[1..]), Untouched(b));
    }
  }

  lemma UntouchedOfUpdate(exts: seq<Extension>, i: nat, e: Extension)
    requires i < |exts| && (exts[i].ALPN? || exts[i].SupportedVersions?) && (e.ALPN? || e.SupportedVersions?)
    ensures Untouched(exts[i := e]) == Untouched(exts)
  {
    assert exts == exts[..i] + ([exts[i]] + exts[i + 1..]);
    assert exts[i := e] == exts[..i] + ([e] + exts[i + 1..]);
    UntouchedOfAppend(exts[..i], [exts[i]] + exts[i + 1..]);
    UntouchedOfAppend(exts[..i], [e] + exts[i + 1..]);
  }

  lemma {:induction false} UntouchedWithoutALPN(exts: seq<Extension>)
    ensures Untouched(WithoutALPN(exts)) == Untouched(exts)
  {
    if exts != [] {
      UntouchedWithoutALPN(exts[1..]);
      UntouchedOfAppend(if exts[0].ALPN? then [] else [exts[0]], WithoutALPN(exts[1..]));
    }
  }

  /** All other extensions survive the edits of ALPN and versions, in their order. */
  lemma SurvivorsKeepTheirOrder(exts: seq<Extension>, edits: Edits)
    ensures Untouched(EditFront(exts, edits)) == Untouched(exts)
  {
    UntouchedWithoutALPN(exts);
    var i := FirstALPN(exts);
    if i < |exts| {
      UntouchedOfUpdate(exts, i, ALPN(ReplaceFirst(exts[i].protocols, edits.alpn)));
    }
    UntouchedOfAppend(exts, [ALPN([edits.alpn])]);
    var after := EditALPN(exts, edits);
    assert Untouched(after) == Untouched(exts);
    var j := FirstVersions(after);
    if j < |after| {
      UntouchedOfUpdate(after, j, SupportedVersions(after[j].versions + edits.versions));
    }
  }

  // ----- What the edited extensions hold -----

  /** The protocol lists of all ALPN extensions. */
  function ALPNs(exts: seq<Extension>): seq<seq<string>> {
    if exts == [] then [] else (if exts[0].ALPN? then [exts[0].protocols] else []) + ALPNs(exts[1..])
  }

  /** The version lists of all supported_versions extensions. */
  function VersionLists(exts: seq<Extension>): seq<seq<uint16>> {
    if exts == [] then [] else (if exts[0].SupportedVersions? then [exts[0].versions] else []) + VersionLists(exts[1..])
  }

  lemma {:induction false} ALPNsOfAppend(a: seq<Extension>, b: seq<Extension>)
    ensures ALPNs(a + b) == ALPNs(a) + ALPNs(b)
  {
    if a == [] {
      assert a + b == b && [] + ALPNs(b) == ALPNs(b);
    } else {
      ALPNsOfAppend(a[1..], b);
      assert (a + b)[1..] == a[1..] + b;
      var first := if a[0].ALPN? then [a[0].protocols] else [];
      assert first + (ALPNs(a[1..]) + ALPNs(b)) == (first + ALPNs(a[1..])) + ALPNs(b);
    }
  }

  lemma {:induction false} VersionListsOfAppend(a: seq<Extension>, b: seq<Extension>)
    ensures VersionLists(a + b) == VersionLists(a) + VersionLists(b)
  {
    if a == [] {
      assert a + b == b && [] + VersionLists(b) == VersionLists(b);
    } else {
      VersionListsOfAppend(a[1..], b);
      assert (a + b)[1..] == a[1..] + b;
      var first := if a[0].SupportedVersions? then [a[0].versions] else [];
      assert first + (VersionLists(a[1..]) + VersionLists(b)) == (first + VersionLists(a[1..])) + VersionLists(b);
    }
  }

  lemma {:induction false} NoALPNs(exts: seq<Extension>)
    requires forall i :: 0 <= i < |exts| ==> !exts[i].ALPN?
    ensures ALPNs(exts) == []
  {
    if exts != [] {
      NoALPNs(exts[1..]);
    }
  }

  lemma {:induction false} NoVersionLists(exts: seq<Extension>)
    requires forall i :: 0 <= i < |exts| ==> !exts[i].SupportedVersions?
    ensures VersionLists(exts) == []
  {
    if exts != [] {
      NoVersionLists(exts[1..]);
    }
  }

  lemma OneExtension(e: Extension)
    ensures ALPNs([e]) == if e.ALPN? then [e.protocols] else []
    ensures VersionLists([e]) == if e.SupportedVersions? then [e.versions] else []
  {
    assert [e][1..] == [];
  }

  lemma {:induction false} WithoutALPNHolds(exts: seq<Extension>)
    ensures ALPNs(WithoutALPN(exts)) == [] && VersionLists(WithoutALPN(exts)) == VersionLists(exts)
  {
    if exts != [] {
      WithoutALPNHolds(exts[1..]);
      var first := if exts[0].ALPN? then [] else [exts[0]];
      ALPNsOfAppend(first, WithoutALPN(exts[1..]));
      VersionListsOfAppend(first, WithoutALPN(exts[1..]));
      OneExtension(exts[0]);
      assert [] + VersionLists(exts[1..]) == VersionLists(exts[1..]);
    }
  }

  /** Replacing extension `i`. */
  lemma UpdateHolds(exts: seq<Extension>, i: nat, e: Extension)
    requires i < |exts|
    ensures ALPNs(exts) == ALPNs(exts[..i]) + ALPNs([exts[i]]) + ALPNs(exts[i + 1..])
    ensures ALPNs(exts[i := e]) == ALPNs(exts[..i]) + ALPNs([e]) + ALPNs(exts[i + 1..])
    ensures VersionLists(exts) == VersionLists(exts[..i]) + VersionLists([exts[i]]) + VersionLists(exts[i + 1..])
    ensures VersionLists(exts[i := e]) == VersionLists(exts[..i]) + VersionLists([e]) + VersionLists(exts[i + 1..])
  {
    hide ALPNs, VersionLists;
    var a, b := exts[..i], exts[i + 1..];
    assert exts == a + [exts[i]] + b && exts[i := e] == a + [e] + b;
    ALPNsOfAppend(a, [exts[i]]);
    ALPNsOfAppend(a + [exts[i]], b);
    ALPNsOfAppend(a, [e]);
    ALPNsOfAppend(a + [e], b);
    VersionListsOfAppend(a, [exts[i]]);
    VersionListsOfAppend(a + [exts[i]], b);
    VersionListsOfAppend(a, [e]);
    VersionListsOfAppend(a + [e], b);
  }

  /** The ALPN lists after the edit: none; or the given protocol in place of the first one of the first list,
      or in a list of its own. */
  function ALPNsAfter(alpns: seq<seq<string>>, edits: Edits): seq<seq<string>> {
    if edits.alpnNone then []
    else if edits.alpn == "" then alpns
    else if alpns == [] then [[edits.alpn]]
    else [[edits.alpn] + (if |alpns[0]| > 1 then alpns[0][1..] else [])] + alpns[1..]
  }

  lemma EditALPNHolds(exts: seq<Extension>, edits: Edits)
    ensures ALPNs(EditALPN(exts, edits)) == ALPNsAfter(ALPNs(exts), edits)
    ensures VersionLists(EditALPN(exts, edits)) == VersionLists(exts)
  {
    hide ALPNs, VersionLists, WithoutALPN, FirstALPN;
    WithoutALPNHolds(exts);
    if !edits.alpnNone && edits.alpn != "" {
      var i := FirstALPN(exts);
      if i < |exts| {
        var e := ALPN(ReplaceFirst(exts[i].protocols, edits.alpn));
        UpdateHolds(exts, i, e);
        NoALPNs(exts[..i]);
        OneExtension(exts[i]);
        OneExtension(e);
        var p, rest := exts[i].protocols, ALPNs(exts[i + 1..]);
        assert ALPNs(exts) == [] + [p] + rest == [p] + rest && ([p] + rest)[1..] == rest;
        assert ALPNs(exts[i := e]) == [] + [e.protocols] + rest == [e.protocols] + rest;
        assert e.protocols == [edits.alpn] + (if |p| > 1 then p[1..] else []);
      } else {
        NoALPNs(exts);
        ALPNsOfAppend(exts, [ALPN([edits.alpn])]);
        VersionListsOfAppend(exts, [ALPN([edits.alpn])]);
        OneExtension(ALPN([edits.alpn]));
      }
    }
  }

  lemma EditVersionsHolds(exts: seq<Extension>, versions: seq<uint16>)
    ensures ALPNs(EditVersions(exts, versions)) == ALPNs(exts)
    ensures var lists := VersionLists(exts);
            VersionLists(EditVersions(exts, versions))
            == if versions == [] || lists == [] then lists else [lists[0] + versions] + lists[1..]
  {
    hide ALPNs, VersionLists, FirstVersions;
    var i := FirstVersions(exts);
    if i < |exts| {
      var e := SupportedVersions(exts[i].versions + versions);
      UpdateHolds(exts, i, e);
      NoVersionLists(exts[..i]);
      OneExtension(exts[i]);
      OneExtension(e);
      assert [] + [exts[i].versions] + VersionLists(exts[i + 1..]) == [exts[i].versions] + VersionLists(exts[i + 1..]);
    } else {
      NoVersionLists(exts);
    }
  }

  lemma {:induction false} GenericsHold(ids: seq<uint16>)
    ensures ALPNs(Generics(ids)) == [] && VersionLists(Generics(ids)) == [] && Untouched(Generics(ids)) == Generics(ids)
  {
    if ids != [] {
      GenericsHold(ids[1..]);
    }
  }

  lemma {:induction false} UntouchedIsPart(exts: seq<Extension>)
    requires forall i :: 0 <= i < |exts| ==> !MustStayLast(exts[i])
    ensures forall i :: 0 <= i < |Untouched(exts)| ==> !MustStayLast(Untouched(exts)[i])
  {
    if exts != [] {
      UntouchedIsPart(exts[1..]);
    }
  }

  lemma FirstLastOfUntouched(a: seq<Extension>, b: seq<Extension>)
    requires (forall i :: 0 <= i < |a| ==> !MustStayLast(a[i])) && (b != [] ==> MustStayLast(b[0]))
    ensures var others := Untouched(a) + Untouched(b);
            && FirstLast(others) == |Untouched(a)|
            && others[..FirstLast(others)] == Untouched(a) && others[FirstLast(others)..] == Untouched(b)
  {
    UntouchedIsPart(a);
    var front, others := Untouched(a), Untouched(a) + Untouched(b);
    assert b != [] ==> Untouched(b) == [b[0]] + Untouched(b[1..]);
    assert b != [] ==> others[|front|] == b[0];
    assert forall i :: 0 <= i < |front| ==> others[i] == front[i];
    hide Untouched, FirstLast;
  }

  /** New extensions go in front of the first that must stay last, among those that are neither ALPN nor
      supported_versions as among all. */
  lemma InsertGenericsHolds(exts: seq<Extension>, ids: seq<uint16>)
    ensures ALPNs(InsertGenerics(exts, ids)) == ALPNs(exts)
    ensures VersionLists(InsertGenerics(exts, ids)) == VersionLists(exts)
    ensures var others := Untouched(exts);
            Untouched(InsertGenerics(exts, ids)) == others[..FirstLast(others)] + Generics(ids) + others[FirstLast(others)..]
  {
    hide ALPNs, VersionLists, Generics, FirstLast;
    var k := FirstLast(exts);
    var a, g, b := exts[..k], Generics(ids), exts[k..];
    assert exts == a + b;
    GenericsHold(ids);
    ALPNsOfAppend(a, g);
    ALPNsOfAppend(a + g, b);
    ALPNsOfAppend(a, b);
    VersionListsOfAppend(a, g);
    VersionListsOfAppend(a + g, b);
    VersionListsOfAppend(a, b);
    UntouchedOfAppend(a, g);
    UntouchedOfAppend(a + g, b);
    UntouchedOfAppend(a, b);
    assert ALPNs(a) + [] == ALPNs(a) && VersionLists(a) + [] == VersionLists(a);
    FirstLastOfUntouched(a, b);
    hide Untouched;
  }

  /** Everything that a ClientHello's extensions hold after all edits: the ALPN lists, the version lists, the
      first of which grows at its end, and all others in their order with one empty extension per ID among
      them. */
  lemma EditedHolds(exts: seq<Extension>, edits: Edits)
    ensures var done, lists, others := Edited(exts, edits), VersionLists(exts), Untouched(exts);
            && ALPNs(done) == ALPNsAfter(ALPNs(exts), edits)
            && VersionLists(done) == (if edits.versions == [] || lists == [] then lists
                                      else [lists[0] + edits.versions] + lists[1..])
            && Untouched(done) == others[..FirstLast(others)] + Generics(edits.ids) + others[FirstLast(others)..]
  {
    hide ALPNs, VersionLists, Untouched, Generics, FirstLast, EditALPN, EditVersions, InsertGenerics, ALPNsAfter;
    EditALPNHolds(exts, edits);
    EditVersionsHolds(EditALPN(exts, edits), edits.versions);
    InsertGenericsHolds(EditFront(exts, edits), edits.ids);
    SurvivorsKeepTheirOrder(exts, edits);
  }

  /** Where nothing is added or removed, ALPN and version edits leave every extension in its place, and all
      but ALPN and supported_versions as they are. */
  lemma EditsStayInPlace(exts: seq<Extension>, edits: Edits, i: nat)
    requires !edits.alpnNone && !AddsALPN(exts, edits) && i < |exts|
    ensures var done := EditFront(exts, edits);
            && |done| == |exts|
            && (done[i].ALPN? <==> exts[i].ALPN?) && (done[i].SupportedVersions? <==> exts[i].SupportedVersions?)
            && (!exts[i].ALPN? && !exts[i].SupportedVersions? ==> done[i] == exts[i])
  {
    hide FirstALPN, FirstVersions, ReplaceFirst;
  }
}
