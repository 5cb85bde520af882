/** expandGlob and expandRange as loops, proved to compute the meaning given in module Glob. */
module GlobExpand {
  import opened Wrappers
  import opened Text
  import opened Decimal
  import opened Glob

  /** The pieces already read, in front of what is still to be read. */
  ghost function Rejoin(done: seq<Piece>, rest: Result<seq<Piece>, GlobError>): Result<seq<Piece>, GlobError> {
    if rest.Success? then Success(done + rest.value) else rest
  }

  /** The pattern `path` has been read up to `rest`, as the pieces `done`. */
  ghost predicate ReadTo(path: string, done: seq<Piece>, rest: string) {
    && Parse(path) == Rejoin(done, Parse(rest))
    && PiecesBefore(path) == done + PiecesBefore(rest)
    && AllValid(done)
  }

  lemma Shift(done: seq<Piece>, p: Piece, tail: seq<Piece>)
    ensures done + ([p] + tail) == done + [p] + tail
  {
  }

  lemma ValidSnoc(done: seq<Piece>, p: Piece)
    requires AllValid(done) && p.Valid()
    ensures AllValid(done + [p])
  {
  }

  lemma NextPiece(path: string, done: seq<Piece>, rest: string)
    requires ReadTo(path, done, rest) && rest != ""
    ensures ParsePiece(rest).Failure? ==> Parse(path) == Failure(ParsePiece(rest).error) && PiecesBefore(path) == done
    ensures ParsePiece(rest).Success? ==>
              var (p, n) := ParsePiece(rest).value;
              ReadTo(path, done + [p], rest[n..])
  {
    hide ParsePiece, AllValid;
    if ParsePiece(rest).Success? {
      var (p, n) := ParsePiece(rest).value;
      if Parse(rest[n..]).Success? {
        Shift(done, p, Parse(rest[n..]).value);
      }
      Shift(done, p, PiecesBefore(rest[n..]));
      ValidSnoc(done, p);
    } else {
      assert done + [] == done;
    }
  }

  /** `out` with `literal` pending stands for what the pieces read so far stand for. */
  ghost predicate Represents(pre: string, done: seq<Piece>, out: seq<string>, literal: string) {
    Cross(out, [literal]) == Cross([pre], Product(done))
  }

  lemma RepresentsSize(pre: string, done: seq<Piece>, out: seq<string>, literal: string)
    requires Represents(pre, done, out, literal)
    ensures |out| == Total(done)
  {
    ProductSize(done);
    CrossSize(out, [literal]);
    CrossSize([pre], Product(done));
  }

  lemma AddPiece(pre: string, done: seq<Piece>, out: seq<string>, literal: string, p: Piece)
    requires Represents(pre, done, out, literal)
    ensures Cross(Cross(out, [literal]), Items(p)) == Cross([pre], Product(done + [p]))
  {
    ProductSnoc(done, p);
    CrossIsAssociative([pre], Product(done), Items(p));
  }

  lemma CrossOfSingletons(x: string, y: string)
    ensures Cross([x], [y]) == [x + y]
  {
    PrefixEachAt(x, [y], 0);
    assert Cross([x], [y]) == PrefixEach(x, [y]) + Cross([x][1..], [y]);
  }

  lemma AddLiteral(pre: string, done: seq<Piece>, out: seq<string>, literal: string, c: char)
    requires Represents(pre, done, out, literal)
    ensures Represents(pre, done + [Literal(c)], out, literal + [c])
  {
    AddPiece(pre, done, out, literal, Literal(c));
    CrossIsAssociative(out, [literal], [[c]]);
    assert Items(Literal(c)) == [[c]];
    CrossOfSingletons(literal, [c]);
  }

  lemma AddAlternatives(pre: string, done: seq<Piece>, out: seq<string>, literal: string, p: Piece)
    requires Represents(pre, done, out, literal)
    ensures Represents(pre, done + [p], Cross(Cross(out, [literal]), Items(p)), "")
  {
    AddPiece(pre, done, out, literal, p);
    CrossWithEmptyString(Cross(Cross(out, [literal]), Items(p)));
  }

  lemma CrossOfOne(pre: string, items: seq<string>)
    ensures Cross([pre], items) == PrefixEach(pre, items)
  {
    assert Cross([pre], items) == PrefixEach(pre, items) + Cross([pre][1..], items);
  }

  lemma AtLeastTimes(a: nat, b: nat)
    requires b >= 1
    ensures a * b >= a
  {
  }

  /** A prefix of a pattern that already stands for too many strings settles the matter. */
  lemma TooManyAlready(path: string, done: seq<Piece>, rest: string)
    requires ReadTo(path, done, rest) && Total(done) > MAX_GLOB_URLS
    ensures Total(PiecesBefore(path)) > MAX_GLOB_URLS
  {
    hide Parse, PiecesBefore, Total, AllValid;
    var tail := PiecesBefore(rest);
    TotalIsPositive(tail);
    TotalOfConcat(done, tail);
    AtLeastTimes(Total(done), Total(tail));
  }

  /** expandRange: the padded numerals of the range, unless there are more than 1000. */
  method ExpandRange(spec: string) returns (r: Result<seq<string>, GlobError>)
    ensures match ParseRange(spec)
            case Failure(e) => r == Failure(e)
            case Success(p) => r == if p.Count() > 1000 then Failure(TooMany) else Success(Items(p))
  {
    hide ParseUint, IndexOf, Pad, Items;
    var dash := IndexOf(spec, '-');
    if dash == |spec| {
      return Failure(BadRange(spec));
    }
    var lo, hi := spec[..dash], spec[dash + 1..];
    var first, last := ParseUint(lo, MAX_UINT32), ParseUint(hi, MAX_UINT32);
    if first.None? || last.None? || first.value > last.value {
      return Failure(BadRange(spec));
    }
    if last.value - first.value >= MAX_GLOB_URLS {
      return Failure(TooMany);
    }
    var width := 0;
    if |lo| > 1 && lo[0] == '0' {
      width := |lo|;
    }
    ghost var p := Range(first.value, last.value, width);
    var items := [];
    var n := first.value;
    while n <= last.value
      invariant first.value <= n <= last.value + 1
      invariant items == Items(p)[..n - first.value]
    {
      assert Items(p)[n - first.value] == Pad(n, width);
      items := items + [Pad(n, width)];
      n := n + 1;
    }
    assert items == Items(p);
    return Success(items);
  }

  /** flush: the pending literal goes behind every string so far. */
  method Flush(strings: seq<string>, literal: string) returns (out: seq<string>)
    ensures out == Cross(strings, [literal])
  {
    out := strings;
    CrossSize(strings, [literal]);
    for i := 0 to |out|
      invariant |out| == |strings| == |Cross(strings, [literal])|
      invariant out[..i] == Cross(strings, [literal])[..i] && out[i..] == strings[i..]
    {
      CrossAt(strings, [literal], i, 0);
      assert out[i] == out[i..][0] == strings[i];
      out := out[i := out[i] + literal];
    }
  }

  lemma NoCross(items: seq<string>)
    ensures Cross([], items) == []
  {
  }

  lemma CrossOfNext(out: seq<string>, i: nat, items: seq<string>)
    requires i < |out|
    ensures Cross(out[..i + 1], items) == Cross(out[..i], items) + PrefixEach(out[i], items)
  {
    CrossOfAppend(out[..i], [out[i]], items);
    CrossOfOne(out[i], items);
    assert out[..i + 1] == out[..i] + [out[i]];
  }

  /** Every string so far, followed by every item. */
  method Multiply(out: seq<string>, items: seq<string>) returns (next: seq<string>)
    ensures next == Cross(out, items)
  {
    hide Cross, PrefixEach;
    next := [];
    NoCross(items);
    for i := 0 to |out|
      invariant next == Cross(out[..i], items)
    {
      ghost var before := next;
      for j := 0 to |items|
        invariant next == before + PrefixEach(out[i], items)[..j]
      {
        PrefixEachAt(out[i], items, j);
        next := next + [out[i] + items[j]];
      }
      CrossOfNext(out, i, items);
    }
    assert out[..|out|] == out;
  }

  /** What a URL expands to: too many strings in front of the first syntax error, that error, or the
      product, in order, behind scheme and authority. */
  ghost function Expansion(raw: string): Result<seq<string>, GlobError> {
    var pre, path := raw[..PathStart(raw)], raw[PathStart(raw)..];
    if Total(PiecesBefore(path)) > MAX_GLOB_URLS then Failure(TooMany)
    else
      var pieces :- Parse(path);
      Success(PrefixEach(pre, Product(pieces)))
  }

  lemma StartOfExpansion(pre: string, path: string)
    ensures ReadTo(path, [], path)
    ensures Represents(pre, [], [pre], "")
  {
    CrossWithEmptyString([pre]);
    assert Product([]) == [""];
    if Parse(path).Success? {
      assert [] + Parse(path).value == Parse(path).value;
    }
    assert [] + PiecesBefore(path) == PiecesBefore(path);
  }

  lemma EndOfExpansion(pre: string, path: string, done: seq<Piece>, rest: string, out: seq<string>, literal: string)
    requires ReadTo(path, done, rest) && rest == ""
    requires Represents(pre, done, out, literal)
    ensures Parse(path) == Success(done) && PiecesBefore(path) == done && |out| == Total(done)
    ensures Cross(out, [literal]) == PrefixEach(pre, Product(done))
  {
    RepresentsSize(pre, done, out, literal);
    CrossOfOne(pre, Product(done));
    assert done + [] == done;
  }

  /** What the grammar says about each first character. */
  lemma PieceShape(rest: string)
    requires rest != ""
    ensures var c := rest[0];
            if c == '\\' && |rest| > 1 && Escapable(rest[1]) then ParsePiece(rest) == Success((Literal(rest[1]), 2))
            else if c == '{' || c == '[' then
              var end := IndexOf(rest, if c == '[' then ']' else '}');
              if end == |rest| then ParsePiece(rest) == Failure(Unmatched(c))
              else if c == '{' then
                ParsePiece(rest) == Success((Choice(Split(rest[1..end], ',')), end + 1))
                && Items(Choice(Split(rest[1..end], ','))) == Split(rest[1..end], ',')
              else if ParseRange(rest[1..end]).Failure? then ParsePiece(rest) == Failure(ParseRange(rest[1..end]).error)
              else ParsePiece(rest) == Success((ParseRange(rest[1..end]).value, end + 1))
            else if c == '}' || c == ']' then ParsePiece(rest) == Failure(Unmatched(c))
            else ParsePiece(rest) == Success((Literal(c), 1))
  {
    hide Split, ParseRange;
  }

  lemma RangeTooLong(path: string, done: seq<Piece>, rest: string)
    requires ReadTo(path, done, rest) && rest != ""
    requires ParsePiece(rest).Success? && ParsePiece(rest).value.0.Count() > MAX_GLOB_URLS
    ensures Total(PiecesBefore(path)) > MAX_GLOB_URLS
  {
    var (p, n) := ParsePiece(rest).value;
    NextPiece(path, done, rest);
    ProductSnoc(done, p);
    TotalIsPositive(done);
    TimesMonotone(1, Total(done), p.Count());
    TooManyAlready(path, done + [p], rest[n..]);
  }

  method ExpandGlob(raw: string) returns (r: Result<seq<string>, GlobError>)
    ensures r == Expansion(raw)
  {
    hide ParsePiece, Parse, PiecesBefore, ReadTo, ParseRange, Rejoin, Represents, Product, Total, Cross, PrefixEach, Items, Split, PathStart;
    var pathStart := PathStart(raw);
    ghost var pre, path := raw[..pathStart], raw[pathStart..];
    var out := [raw[..pathStart]];
    var rest := raw[pathStart..];
    var literal := "";
    ghost var done: seq<Piece> := [];
    StartOfExpansion(pre, path);
    while |rest| > 0
      invariant ReadTo(path, done, rest)
      invariant Represents(pre, done, out, literal)
      invariant |out| <= MAX_GLOB_URLS
      decreases |rest|
    {
      var c := rest[0];
      NextPiece(path, done, rest);
      PieceShape(rest);
      RepresentsSize(pre, done, out, literal);
      assert ParsePiece(rest).Failure? ==> Total(PiecesBefore(path)) <= MAX_GLOB_URLS;
      if c == '\\' && |rest| > 1 && Escapable(rest[1]) {
        AddLiteral(pre, done, out, literal, rest[1]);
        done := done + [Literal(rest[1])];
        literal := literal + [rest[1]];
        rest := rest[2..];
      } else if c == '{' || c == '[' {
        var closer := if c == '[' then ']' else '}';
        var end := IndexOf(rest, closer);
        if end == |rest| {
          return Failure(Unmatched(c));
        }
        var items: seq<string>;
        if c == '{' {
          items := Split(rest[1..end], ',');
        } else {
          var expanded := ExpandRange(rest[1..end]);
          if expanded.Failure? {
            if expanded.error == TooMany {
              RangeTooLong(path, done, rest);
            }
            return Failure(expanded.error);
          }
          items := expanded.value;
        }
        ghost var p := ParsePiece(rest).value.0;
        assert items == Items(p);
        ProductSnoc(done, p);
        if |out| * |items| > MAX_GLOB_URLS {
          TooManyAlready(path, done + [p], rest[end + 1..]);
          return Failure(TooMany);
        }
        AddAlternatives(pre, done, out, literal, p);
        out := Flush(out, literal);
        literal := "";
        out := Multiply(out, items);
        rest := rest[end + 1..];
        done := done + [p];
        RepresentsSize(pre, done, out, literal);
      } else if c == '}' || c == ']' {
        return Failure(Unmatched(c));
      } else {
        AddLiteral(pre, done, out, literal, c);
        done := done + [Literal(c)];
        literal := literal + [c];
        rest := rest[1..];
      }
    }
    EndOfExpansion(pre, path, done, rest, out, literal);
    out := Flush(out, literal);
    return Success(out);
  }

  /** On a well-formed URL expansion fails exactly when the product of all item counts exceeds 1000.
      Whatever expands, expands to at least one URL and at most 1000, all with the scheme and authority
      of the pattern. */
  lemma ExpansionIsBounded(raw: string)
    ensures var parsed := Parse(raw[PathStart(raw)..]);
            parsed.Success? ==> (Expansion(raw).Failure? <==> Total(parsed.value) > 1000)
    ensures Expansion(raw).Success? ==>
              && 1 <= |Expansion(raw).value| <= 1000
              && forall k :: 0 <= k < |Expansion(raw).value| ==> raw[..PathStart(raw)] <= Expansion(raw).value[k]
  {
    hide Parse, PiecesBefore, PathStart, Product, PrefixEach;
    if Expansion(raw).Success? {
      var pre, pieces := raw[..PathStart(raw)], Parse(raw[PathStart(raw)..]).value;
      ProductSize(pieces);
      TotalIsPositive(pieces);
      forall k | 0 <= k < |Expansion(raw).value| ensures pre <= Expansion(raw).value[k] {
        PrefixEachAt(pre, Product(pieces), k);
      }
    }
  }

  /** Result number `i` of an expansion is the scheme and authority followed by the items that the
      mixed-radix digits of `i` choose, the rightmost pattern varying fastest. */
  lemma ExpansionSpellsDigits(raw: string, i: nat)
    requires Expansion(raw).Success? && i < |Expansion(raw).value|
    ensures var parsed := Parse(raw[PathStart(raw)..]);
            && parsed.Success? && i < Total(parsed.value)
            && Expansion(raw).value[i] == raw[..PathStart(raw)] + Spell(parsed.value, Digits(parsed.value, i))
  {
    hide Parse, PiecesBefore, PathStart, Product, Total, PrefixEach, Spell, Digits;
    var pre, pieces := raw[..PathStart(raw)], Parse(raw[PathStart(raw)..]).value;
    ProductSize(pieces);
    PrefixEachAt(pre, Product(pieces), i);
    OutputSpellsDigits(pieces, i);
  }

  /** Any path text can be written in a URL: escaped, it expands to itself alone. */
  lemma EscapedPathExpandsToItself(authority: string, text: string)
    requires PathStart(authority + Escape(text)) == |authority|
    ensures Expansion(authority + Escape(text)) == Success([authority + text])
  {
    hide Parse, PiecesBefore, PathStart, Product, Total, Escape;
    EscapedTextIsLiteral(text);
    var raw := authority + Escape(text);
    assert raw[|authority|..] == Escape(text) && raw[..|authority|] == authority;
    ProductSize(Literals(text));
    assert PrefixEach(authority, [text]) == [authority + text];
  }
}
