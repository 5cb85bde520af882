/** Patterns as they are written in a URL, and what they expand to. */
module GlobPatterns {
  import opened Wrappers
  import opened Text
  import opened Decimal
  import opened Glob
  import opened GlobExpand

  // ----- Where globbing begins -----

  predicate HasSchemeEnd(s: string) {
    exists k :: 0 <= k < |s| - 2 && s[k] == ':' && s[k + 1] == '/' && s[k + 2] == '/'
  }

  lemma NoSchemeEndBehind(s: string)
    requires s != "" && !HasSchemeEnd(s)
    ensures !HasSchemeEnd(s[1..])
  {
    forall k | 0 <= k < |s[1..]| - 2 ensures !(s[1..][k] == ':' && s[1..][k + 1] == '/' && s[1..][k + 2] == '/') {
      assert s[k + 1] == s[1..][k] && s[k + 1 + 1] == s[1..][k + 1] && s[k + 1 + 2] == s[1..][k + 2];
    }
  }

  lemma NotHere(scheme: string, tail: string)
    requires scheme != "" && !HasSchemeEnd(scheme)
    ensures var s := scheme + "://" + tail; s[0] != ':' || s[1] != '/' || s[2] != '/'
  {
    var s := scheme + "://" + tail;
    assert s[|scheme|] == ':' && s[|scheme| + 1] == '/';
    assert |scheme| >= 3 ==> s[0] == scheme[0] && s[1] == scheme[1] && s[2] == scheme[2];
  }

  lemma {:induction false} SchemeEndIsFirst(scheme: string, tail: string)
    requires !HasSchemeEnd(scheme)
    ensures AfterScheme(scheme + "://" + tail) == Some(|scheme| + 3)
  {
    var s := scheme + "://" + tail;
    assert s[|scheme|] == ':' && s[|scheme| + 1] == '/' && s[|scheme| + 2] == '/';
    if scheme != "" {
      NotHere(scheme, tail);
      assert s[1..] == scheme[1..] + "://" + tail;
      NoSchemeEndBehind(scheme);
      SchemeEndIsFirst(scheme[1..], tail);
    }
  }

  lemma {:induction false} NoSchemeEnd(raw: string)
    requires !HasSchemeEnd(raw)
    ensures AfterScheme(raw) == None
  {
    if |raw| >= 3 {
      NoSchemeEndBehind(raw);
      NoSchemeEnd(raw[1..]);
    }
  }

  predicate IsAuthority(s: string) {
    '/' !in s && '?' !in s
  }

  predicate IsPath(s: string) {
    s == "" || s[0] == '/' || s[0] == '?'
  }

  lemma AuthorityEnds(authority: string, path: string)
    requires IsAuthority(authority) && IsPath(path)
    ensures SlashOrQuery(authority + path) == |authority|
  {
    var s := authority + path;
    assert forall j :: 0 <= j < |authority| ==> s[j] == authority[j];
    if path != "" {
      assert s[|authority|] == path[0];
    }
  }

  lemma Apart(scheme: string, authority: string, path: string)
    ensures var pre := scheme + "://" + authority;
            && pre + path == scheme + "://" + (authority + path)
            && (pre + path)[|scheme| + 3..] == authority + path
            && (pre + path)[..|pre|] == pre && (pre + path)[|pre|..] == path
  {
  }

  lemma PathBegins(scheme: string, authority: string, path: string)
    requires !HasSchemeEnd(scheme) && IsAuthority(authority) && IsPath(path)
    ensures var pre := scheme + "://" + authority;
            PathStart(pre + path) == |pre| && (pre + path)[..|pre|] == pre && (pre + path)[|pre|..] == path
  {
    hide AfterScheme, SlashOrQuery, HasSchemeEnd, IsAuthority, IsPath;
    Apart(scheme, authority, path);
    SchemeEndIsFirst(scheme, authority + path);
    AuthorityEnds(authority, path);
  }

  /** A URL expands to its scheme and authority in front of everything that its path and query stand for. */
  lemma URLExpands(scheme: string, authority: string, path: string, pieces: seq<Piece>)
    requires !HasSchemeEnd(scheme) && IsAuthority(authority) && IsPath(path) && Parse(path) == Success(pieces)
    ensures Expansion(scheme + "://" + authority + path)
            == if Total(pieces) > 1000 then Failure(TooMany)
               else Success(PrefixEach(scheme + "://" + authority, Product(pieces)))
  {
    hide PathStart, Parse, PiecesBefore, Product, Total, PrefixEach;
    PathBegins(scheme, authority, path);
  }

  /** Without a scheme nothing is globbed. */
  lemma NoSchemeNoGlob(raw: string)
    requires !HasSchemeEnd(raw)
    ensures Expansion(raw) == Success([raw])
  {
    NoSchemeEnd(raw);
    assert raw[..|raw|] == raw && raw[|raw|..] == "";
    assert raw + "" == raw;
    assert PrefixEach(raw, [""]) == [raw];
    hide AfterScheme;
  }

  // ----- Writing patterns -----

  /** A literal as it is, or behind a backslash; a set with its items between commas; a range with its first
      number padded to the width. */
  function Write(p: Piece): string {
    match p
    case Literal(c) => if c in "{}[]," then ['\\', c] else [c]
    case Choice(items) => "{" + Join(items, ',') + "}"
    case Range(first, last, width) => "[" + Pad(first, width) + "-" + Format(last) + "]"
  }

  /** Items hold no comma and no closing brace; a range ascends within 32 bits, and it is padded only where
      its first number shows that. */
  predicate Writable(p: Piece) {
    match p
    case Literal(_) => true
    case Choice(items) => items != [] && forall k :: 0 <= k < |items| ==> ',' !in items[k] && '}' !in items[k]
    case Range(first, last, width) =>
      first <= last <= 0xFFFF_FFFF && (width == 0 || width > |Format(first)|)
  }

  function WriteAll(pieces: seq<Piece>): string {
    if pieces == [] then "" else Write(pieces[0]) + WriteAll(pieces[1..])
  }

  /** All pieces can be written, and no backslash stands in front of a set or a range: it would be read as
      an escape. */
  predicate AllWritable(pieces: seq<Piece>) {
    && (forall k :: 0 <= k < |pieces| ==> Writable(pieces[k]))
    && forall k :: 0 < k < |pieces| ==> pieces[k - 1] != Literal('\\') || pieces[k].Literal?
  }

  lemma JoinHasNo(items: seq<string>, sep: char, c: char)
    requires c != sep && forall k :: 0 <= k < |items| ==> c !in items[k]
    ensures c !in Join(items, sep)
  {
  }

  /** What stands between a bracket and its first closing one. */
  lemma Bracketed(open: char, body: string, close: char, tail: string)
    requires close !in body && open != close
    ensures var s := [open] + body + [close] + tail;
            s[0] == open && IndexOf(s, close) == |body| + 1 && s[1..|body| + 1] == body
  {
    var s := [open] + body + [close] + tail;
    assert s[|body| + 1] == close;
    assert s[..|body| + 1] == [open] + body;
    IndexOfFirst(s, close, |body| + 1);
  }

  lemma ReadChoice(items: seq<string>, tail: string)
    requires Writable(Choice(items))
    ensures var s := Write(Choice(items)); ParsePiece(s + tail) == Success((Choice(items), |s|))
  {
    hide IndexOf, Split, Join;
    var body := Join(items, ',');
    JoinHasNo(items, ',', '}');
    Bracketed('{', body, '}', tail);
    SplitOfJoin(items, ',');
  }

  lemma PaddedNumber(n: nat, width: nat)
    requires n <= MAX_UINT32 && (width == 0 || width > |Format(n)|)
    ensures ParseUint(Pad(n, width), MAX_UINT32) == Some(n)
    ensures (if |Pad(n, width)| > 1 && Pad(n, width)[0] == '0' then |Pad(n, width)| else 0) == width
  {
    ValueOfPad(n, width);
    if width == 0 {
      assert Zeros(0) + Format(n) == Format(n);
    }
    hide ValueOf;
  }

  lemma ReadSpec(lo: string, hi: string)
    requires AllDigits(lo)
    ensures var spec := lo + "-" + hi; IndexOf(spec, '-') == |lo| && spec[..|lo|] == lo && spec[|lo| + 1..] == hi
  {
    var spec := lo + "-" + hi;
    assert spec[|lo|] == '-' && spec[..|lo|] == lo;
    IndexOfFirst(spec, '-', |lo|);
  }

  lemma SpecIsRead(first: nat, last: nat, width: nat)
    requires Writable(Range(first, last, width))
    ensures var spec := Pad(first, width) + "-" + Format(last);
            ParseRange(spec) == Success(Range(first, last, width)) && ']' !in spec
  {
    hide ParseUint, Pad, Format, IndexOf;
    var lo, hi := Pad(first, width), Format(last);
    ReadSpec(lo, hi);
    PaddedNumber(first, width);
    ParseOfFormat(last, MAX_UINT32);
  }

  lemma ReadRange(first: nat, last: nat, width: nat, tail: string)
    requires Writable(Range(first, last, width))
    ensures var s := Write(Range(first, last, width));
            ParsePiece(s + tail) == Success((Range(first, last, width), |s|))
  {
    hide ParsePiece, ParseRange, Pad, Format, IndexOf, Writable, Split;
    var spec := Pad(first, width) + "-" + Format(last);
    var s := "[" + spec + "]";
    assert Write(Range(first, last, width)) == s;
    SpecIsRead(first, last, width);
    Bracketed('[', spec, ']', tail);
    assert s + tail == ['['] + spec + [']'] + tail && |s| == |spec| + 2;
    PieceShape(s + tail);
  }

  lemma ReadLiteral(c: char, tail: string)
    requires c == '\\' ==> tail == "" || tail[0] !in "{}[],"
    ensures var s := Write(Literal(c)); ParsePiece(s + tail) == Success((Literal(c), |s|))
  {
    var s := Write(Literal(c));
    assert (s + tail)[0] == s[0];
    if |s| == 2 {
      assert (s + tail)[1] == c;
    } else if tail != "" {
      assert (s + tail)[1] == tail[0];
    }
  }

  lemma WriteStarts(pieces: seq<Piece>)
    requires AllWritable(pieces)
    ensures pieces != [] && pieces[0].Literal? ==> WriteAll(pieces)[0] !in "{}[],"
    ensures pieces == [] ==> WriteAll(pieces) == ""
  {
  }

  lemma FirstIsRead(pieces: seq<Piece>)
    requires AllWritable(pieces) && pieces != []
    ensures var s := Write(pieces[0]);
            s != "" && ParsePiece(s + WriteAll(pieces[1..])) == Success((pieces[0], |s|))
  {
    hide ParsePiece, WriteAll;
    var tail := WriteAll(pieces[1..]);
    match pieces[0] {
      case Literal(c) =>
        WriteStarts(pieces[1..]);
        assert |pieces| > 1 ==> pieces[1] == pieces[1..][0];
        ReadLiteral(c, tail);
      case Choice(items) => ReadChoice(items, tail);
      case Range(first, last, width) => ReadRange(first, last, width, tail);
    }
  }

  /** A pattern that is written is read as it was meant. */
  lemma {:induction false} ParseOfWrite(pieces: seq<Piece>)
    requires AllWritable(pieces)
    ensures Parse(WriteAll(pieces)) == Success(pieces)
  {
    hide ParsePiece, Write, Writable;
    if pieces != [] {
      var tail := WriteAll(pieces[1..]);
      assert AllWritable(pieces[1..]);
      ParseOfWrite(pieces[1..]);
      FirstIsRead(pieces);
      var s := Write(pieces[0]);
      assert (s + tail)[|s|..] == tail;
      assert [pieces[0]] + pieces[1..] == pieces;
    }
  }

  /** What a written piece stands for: its character, its items in order, its numbers in order and padded. */
  lemma ItemsOfPiece(p: Piece, k: nat)
    requires Writable(p) && k < |Items(p)|
    ensures match p
            case Literal(c) => Items(p) == [[c]]
            case Choice(items) => Items(p) == items
            case Range(first, last, width) => |Items(p)| == last - first + 1 && Items(p)[k] == Pad(first + k, width)
  {
    hide Pad;
  }

  /** Two patterns: the left one varies slowly, the right one fast, with text in front, between and behind. */
  lemma TwoPatternsInOrder(a: Piece, b: Piece, i: nat, j: nat)
    requires i < |Items(a)| && j < |Items(b)|
    ensures |Product([a, b])| == |Items(a)| * |Items(b)| && i * |Items(b)| + j < |Product([a, b])|
    ensures Product([a, b])[i * |Items(b)| + j] == Items(a)[i] + Items(b)[j]
  {
    hide Items;
    assert [a, b][1..] == [b] && [b][1..] == [];
    CrossWithEmptyString(Items(b));
    assert Product([b]) == Items(b);
    CrossAt(Items(a), Items(b), i, j);
  }

  lemma WriteBegins(pieces: seq<Piece>)
    requires pieces == [] || pieces[0] == Literal('/') || pieces[0] == Literal('?')
    ensures IsPath(WriteAll(pieces))
  {
  }

  /** Any URL written from pieces: it is refused if and only if the item counts multiply to more than 1000;
      else there is one result for every choice of items, at the place of that choice. */
  lemma WrittenURLExpands(scheme: string, authority: string, pieces: seq<Piece>, digits: seq<nat>)
    requires !HasSchemeEnd(scheme) && IsAuthority(authority) && AllWritable(pieces)
    requires pieces == [] || pieces[0] == Literal('/') || pieces[0] == Literal('?')
    requires AllValid(pieces) && IsChoice(pieces, digits)
    ensures var pre := scheme + "://" + authority;
            var r := Expansion(pre + WriteAll(pieces));
            if Total(pieces) > 1000 then r == Failure(TooMany)
            else r.Success? && |r.value| == Total(pieces) && Rank(pieces, digits) < |r.value|
                 && r.value[Rank(pieces, digits)] == pre + Spell(pieces, digits)
  {
    hide Parse, Product, Total, PrefixEach, Rank, Spell, IsChoice, Expansion;
    ParseOfWrite(pieces);
    assert IsPath(WriteAll(pieces)) by {
      WriteBegins(pieces);
    }
    URLExpands(scheme, authority, WriteAll(pieces), pieces);
    OutputAtRank(pieces, digits);
    PrefixEachAt(scheme + "://" + authority, Product(pieces), Rank(pieces, digits));
  }

  // ----- Errors -----

  /** A bracket that is not closed, or that closes nothing, is refused: behind any text. */
  lemma {:induction false} UnmatchedIsRefused(text: string, c: char, tail: string)
    requires text == "" || text[|text| - 1] != '\\'
    requires (c == '{' && '}' !in tail) || (c == '[' && ']' !in tail) || c == '}' || c == ']'
    ensures Parse(Escape(text) + [c] + tail) == Failure(Unmatched(c))
    decreases |text|
  {
    var s := Escape(text) + [c] + tail;
    if text == "" {
      assert s == [c] + tail && s[0] == c;
      if c == '{' || c == '[' {
        var close := if c == '{' then '}' else ']';
        assert close !in s;
        IndexOfFirst(s, close, |s|);
      }
    } else {
      var rest := Escape(text[1..]) + [c] + tail;
      UnmatchedIsRefused(text[1..], c, tail);
      var first := if Escapable(text[0]) then ['\\', text[0]] else [text[0]];
      assert s == first + rest && s[|first|..] == rest;
      if |first| == 1 && |text| > 1 {
        EscapeStart(text[1..]);
        assert rest[0] == Escape(text[1..])[0];
      }
      assert ParsePiece(s) == Success((Literal(text[0]), |first|)) by {
        assert s[0] == first[0];
        if |first| == 2 {
          assert s[1] == first[1];
        } else if |text| > 1 {
          assert s[1] == rest[0];
        }
      }
    }
  }

  predicate IsNumber(s: string) {
    s != "" && AllDigits(s) && ValueOf(s) <= 0xFFFF_FFFF
  }

  lemma NumberExactly(s: string)
    ensures ParseUint(s, MAX_UINT32).Some? <==> IsNumber(s)
    ensures IsNumber(s) ==> ParseUint(s, MAX_UINT32) == Some(ValueOf(s))
  {
  }

  /** A range is read if and only if it is two numbers within 32 bits around its first hyphen, in ascending
      order. */
  lemma RangeExactly(lo: string, hi: string)
    requires '-' !in lo
    ensures ParseRange(lo + "-" + hi).Success? <==> IsNumber(lo) && IsNumber(hi) && ValueOf(lo) <= ValueOf(hi)
    ensures ParseRange(lo).Failure?
  {
    hide ParseUint, IsNumber, IndexOf;
    var spec := lo + "-" + hi;
    assert spec[|lo|] == '-' && spec[..|lo|] == lo && spec[|lo| + 1..] == hi;
    IndexOfFirst(spec, '-', |lo|);
    IndexOfFirst(lo, '-', |lo|);
    NumberExactly(lo);
    NumberExactly(hi);
  }

  lemma WriteAllIsLonger(pieces: seq<Piece>)
    requires pieces != []
    ensures WriteAll(pieces) != ""
  {
  }

  lemma FirstIsReadBefore(pieces: seq<Piece>, tail: string)
    requires AllWritable(pieces) && pieces != [] && pieces[|pieces| - 1] != Literal('\\')
    ensures var s := Write(pieces[0]);
            s != "" && ParsePiece(s + (WriteAll(pieces[1..]) + tail)) == Success((pieces[0], |s|))
  {
    hide ParsePiece, WriteAll;
    var rest := WriteAll(pieces[1..]) + tail;
    match pieces[0] {
      case Literal(c) =>
        WriteStarts(pieces[1..]);
        if c == '\\' {
          assert |pieces| > 1 && pieces[1] == pieces[1..][0] && pieces[1].Literal?;
          assert WriteAll(pieces[1..]) != "" by {
            WriteAllIsLonger(pieces[1..]);
          }
          assert rest[0] == WriteAll(pieces[1..])[0];
        }
        ReadLiteral(c, rest);
      case Choice(items) => ReadChoice(items, rest);
      case Range(first, last, width) => ReadRange(first, last, width, rest);
    }
  }

  /** A piece that is read in front of `rest`. */
  lemma PieceThenRest(p: Piece, s: string, rest: string)
    requires s != "" && ParsePiece(s + rest) == Success((p, |s|))
    ensures Parse(s + rest) == if Parse(rest).Success? then Success([p] + Parse(rest).value) else Failure(Parse(rest).error)
    ensures PiecesBefore(s + rest) == [p] + PiecesBefore(rest)
  {
    hide ParsePiece;
    assert (s + rest)[|s|..] == rest;
  }

  lemma OthersAreWritable(pieces: seq<Piece>)
    requires AllWritable(pieces) && pieces != []
    ensures AllWritable(pieces[1..])
    ensures |pieces| > 1 ==> pieces[1..][|pieces| - 2] == pieces[|pieces| - 1]
  {
    hide Writable;
    var rest := pieces[1..];
    assert forall k :: 0 <= k < |rest| ==> rest[k] == pieces[k + 1];
    forall k | 0 < k < |rest| ensures rest[k - 1] != Literal('\\') || rest[k].Literal? {
      assert rest[k - 1] == pieces[k] && rest[k] == pieces[k + 1];
      assert pieces[k + 1 - 1] != Literal('\\') || pieces[k + 1].Literal?;
    }
  }

  lemma BrokenAtOnce(tail: string)
    requires tail != "" && ParsePiece(tail).Failure?
    ensures Parse(tail) == Failure(ParsePiece(tail).error) && PiecesBefore(tail) == []
  {
    hide ParsePiece;
  }

  lemma {:induction false} BrokenBehindPieces(pieces: seq<Piece>, tail: string)
    requires AllWritable(pieces) && (pieces == [] || pieces[|pieces| - 1] != Literal('\\'))
    requires tail != "" && ParsePiece(tail).Failure?
    ensures Parse(WriteAll(pieces) + tail) == Failure(ParsePiece(tail).error)
    ensures PiecesBefore(WriteAll(pieces) + tail) == pieces
    decreases |pieces|
  {
    hide ParsePiece, Write, Writable, Parse, PiecesBefore, AllWritable;
    if pieces == [] {
      BrokenAtOnce(tail);
      assert WriteAll(pieces) + tail == tail;
    } else {
      var s, rest := Write(pieces[0]), WriteAll(pieces[1..]) + tail;
      OthersAreWritable(pieces);
      BrokenBehindPieces(pieces[1..], tail);
      FirstIsReadBefore(pieces, tail);
      PieceThenRest(pieces[0], s, rest);
      assert WriteAll(pieces) + tail == s + rest;
      assert [pieces[0]] + pieces[1..] == pieces;
    }
  }

  /** A URL whose pattern breaks off behind some pieces: too many strings already are reported before the
      broken pattern, as the loop meets them first. */
  lemma BrokenURLIsRefused(scheme: string, authority: string, pieces: seq<Piece>, tail: string)
    requires !HasSchemeEnd(scheme) && IsAuthority(authority) && AllWritable(pieces)
    requires pieces != [] && (pieces[0] == Literal('/') || pieces[0] == Literal('?'))
    requires pieces[|pieces| - 1] != Literal('\\') && tail != "" && ParsePiece(tail).Failure?
    ensures Expansion(scheme + "://" + authority + (WriteAll(pieces) + tail))
            == Failure(if Total(pieces) > 1000 then TooMany else ParsePiece(tail).error)
  {
    hide PathStart, Parse, PiecesBefore, Product, Total, PrefixEach, ParsePiece;
    WriteBegins(pieces);
    WriteAllIsLonger(pieces);
    PathBegins(scheme, authority, WriteAll(pieces) + tail);
    BrokenBehindPieces(pieces, tail);
  }

  /** The patterns that cannot be read: an opening bracket without its closing one, a closing one alone, and a
      range that is none. */
  lemma BrokenPieces(c: char, tail: string)
    ensures c == '{' && '}' !in tail ==> ParsePiece([c] + tail) == Failure(Unmatched('{'))
    ensures c == '[' && ']' !in tail ==> ParsePiece([c] + tail) == Failure(Unmatched('['))
    ensures c == '}' || c == ']' ==> ParsePiece([c] + tail) == Failure(Unmatched(c))
  {
    var s := [c] + tail;
    if c == '{' && '}' !in tail {
      IndexOfFirst(s, '}', |s|);
    } else if c == '[' && ']' !in tail {
      IndexOfFirst(s, ']', |s|);
    }
  }

  lemma BrokenRange(spec: string, tail: string)
    requires ']' !in spec && ParseRange(spec).Failure?
    ensures ParsePiece("[" + spec + "]" + tail) == Failure(BadRange(spec))
  {
    hide ParseRange, IndexOf;
    Bracketed('[', spec, ']', tail);
    assert "[" + spec + "]" + tail == ['['] + spec + [']'] + tail;
  }
}
