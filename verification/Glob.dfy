/** What a URL pattern means: its grammar, the list of strings it stands for, and their order
    (internal/curlu/glob.go). */
module Glob {
  import opened Wrappers
  import opened Text
  import opened Decimal

  const MAX_GLOB_URLS := 1000
  const MAX_UINT32: nat := 0xFFFF_FFFF

  datatype GlobError = Unmatched(c: char) | BadRange(spec: string) | TooMany

  /** A literal character, a `{a,b}` set or an `[N-M]` range with the width its items are padded to. */
  datatype Piece = Literal(c: char) | Choice(items: seq<string>) | Range(first: nat, last: nat, width: nat) {
    ghost predicate Valid() {
      (Choice? ==> items != []) && (Range? ==> first <= last)
    }

    /** How many strings the piece stands for. */
    function Count(): nat {
      match this
      case Literal(_) => 1
      case Choice(items) => |items|
      case Range(first, last, _) => if first <= last then last - first + 1 else 0
    }

    function Item(k: nat): string
      requires k < Count()
    {
      match this
      case Literal(c) => [c]
      case Choice(items) => items[k]
      case Range(first, _, width) => Pad(first + k, width)
    }
  }

  ghost predicate AllValid(pieces: seq<Piece>) {
    forall k :: 0 <= k < |pieces| ==> pieces[k].Valid()
  }

  // ----- Grammar -----

  predicate Escapable(c: char) {
    c == '{' || c == '}' || c == '[' || c == ']' || c == ','
  }

  function ParseRange(spec: string): (r: Result<Piece, GlobError>)
    ensures r.Success? ==> r.value.Range? && r.value.Valid()
    ensures r.Failure? ==> r.error == BadRange(spec)
  {
    var dash := IndexOf(spec, '-');
    if dash == |spec| then Failure(BadRange(spec))
    else
      var lo, hi := spec[..dash], spec[dash + 1..];
      var first, last := ParseUint(lo, MAX_UINT32), ParseUint(hi, MAX_UINT32);
      if first.None? || last.None? || first.value > last.value then Failure(BadRange(spec))
      else Success(Range(first.value, last.value, if |lo| > 1 && lo[0] == '0' then |lo| else 0))
  }

  /** The piece that starts a nonempty pattern, and how many characters it takes. */
  function ParsePiece(rest: string): (r: Result<(Piece, nat), GlobError>)
    requires rest != ""
    ensures r.Success? ==> r.value.0.Valid() && 0 < r.value.1 <= |rest|
  {
    var c := rest[0];
    if c == '\\' && |rest| > 1 && Escapable(rest[1]) then Success((Literal(rest[1]), 2))
    else if c == '{' || c == '[' then
      var end := IndexOf(rest, if c == '{' then '}' else ']');
      if end == |rest| then Failure(Unmatched(c))
      else if c == '{' then Success((Choice(Split(rest[1..end], ',')), end + 1))
      else
        var range :- ParseRange(rest[1..end]);
        Success((range, end + 1))
    else if c == '}' || c == ']' then Failure(Unmatched(c))
    else Success((Literal(c), 1))
  }

  function Parse(rest: string): (r: Result<seq<Piece>, GlobError>)
    ensures r.Success? ==> AllValid(r.value)
    decreases |rest|
  {
    if rest == "" then Success([])
    else
      var head :- ParsePiece(rest);
      var tail :- Parse(rest[head.1..]);
      Success([head.0] + tail)
  }

  /** The pieces in front of the first syntax error: all of them when there is none. */
  function PiecesBefore(rest: string): (pieces: seq<Piece>)
    ensures AllValid(pieces)
    ensures Parse(rest).Success? ==> pieces == Parse(rest).value
    decreases |rest|
  {
    if rest == "" || ParsePiece(rest).Failure? then []
    else
      var (p, n) := ParsePiece(rest).value;
      [p] + PiecesBefore(rest[n..])
  }

  /** The position behind the first "://". */
  function AfterScheme(raw: string): (n: Option<nat>)
    ensures n.Some? ==> 3 <= n.value <= |raw|
    ensures n.Some? ==> raw[n.value - 3] == ':' && raw[n.value - 2] == '/' && raw[n.value - 1] == '/'
  {
    if |raw| < 3 then None
    else if raw[0] == ':' && raw[1] == '/' && raw[2] == '/' then Some(3)
    else
      var n := AfterScheme(raw[1..]);
      if n.None? then None else Some(n.value + 1)
  }

  function SlashOrQuery(s: string): (i: nat)
    ensures i <= |s|
    ensures i < |s| ==> s[i] == '/' || s[i] == '?'
    ensures forall j :: 0 <= j < i ==> s[j] != '/' && s[j] != '?'
  {
    if s == "" || s[0] == '/' || s[0] == '?' then 0 else 1 + SlashOrQuery(s[1..])
  }

  /** Where the part of a URL that is globbed begins: at the first `/` or `?` behind the authority. */
  function PathStart(raw: string): (n: nat)
    ensures n <= |raw|
  {
    var authority := AfterScheme(raw);
    if authority.None? then |raw|
    else authority.value + SlashOrQuery(raw[authority.value..])
  }

  // ----- Meaning -----

  function PrefixEach(prefix: string, items: seq<string>): (r: seq<string>)
    ensures |r| == |items|
  {
    if items == [] then [] else [prefix + items[0]] + PrefixEach(prefix, items[1..])
  }

  lemma {:induction false} PrefixEachAt(prefix: string, items: seq<string>, k: nat)
    requires k < |items|
    ensures PrefixEach(prefix, items)[k] == prefix + items[k]
  {
    if k > 0 {
      PrefixEachAt(prefix, items[1..], k - 1);
    }
  }

  /** Every string of `left` followed by every string of `right`; `right` varies faster. */
  function Cross(left: seq<string>, right: seq<string>): seq<string> {
    if left == [] then [] else PrefixEach(left[0], right) + Cross(left[1..], right)
  }

  function ItemsFrom(p: Piece, k: nat): (items: seq<string>)
    requires k <= p.Count()
    ensures |items| == p.Count() - k
    ensures forall j :: 0 <= j < |items| ==> items[j] == p.Item(k + j)
    decreases p.Count() - k
  {
    if k == p.Count() then [] else [p.Item(k)] + ItemsFrom(p, k + 1)
  }

  function Items(p: Piece): (items: seq<string>)
    ensures |items| == p.Count()
    ensures forall j :: 0 <= j < |items| ==> items[j] == p.Item(j)
  {
    ItemsFrom(p, 0)
  }

  /** The strings that a pattern stands for. */
  function Product(pieces: seq<Piece>): seq<string> {
    if pieces == [] then [""] else Cross(Items(pieces[0]), Product(pieces[1..]))
  }

  /** The product of all item counts. */
  function Total(pieces: seq<Piece>): nat {
    if pieces == [] then 1 else pieces[0].Count() * Total(pieces[1..])
  }

  lemma TotalIsPositive(pieces: seq<Piece>)
    requires AllValid(pieces)
    ensures Total(pieces) >= 1
  {
  }

  lemma {:induction false} CrossSize(left: seq<string>, right: seq<string>)
    ensures |Cross(left, right)| == |left| * |right|
  {
    if left != [] {
      CrossSize(left[1..], right);
      assert |left| * |right| == |right| + |left[1..]| * |right|;
    }
  }

  lemma TimesMonotone(a: nat, b: nat, t: nat)
    requires a <= b
    ensures a * t <= b * t
  {
  }

  lemma {:induction false} CrossAt(left: seq<string>, right: seq<string>, i: nat, j: nat)
    requires i < |left| && j < |right|
    ensures |Cross(left, right)| == |left| * |right|
    ensures i * |right| + j < |left| * |right|
    ensures Cross(left, right)[i * |right| + j] == left[i] + right[j]
  {
    CrossSize(left, right);
    CrossSize(left[1..], right);
    TimesMonotone(i + 1, |left|, |right|);
    var rest := Cross(left[1..], right);
    if i > 0 {
      CrossAt(left[1..], right, i - 1, j);
      assert i * |right| + j == |right| + ((i - 1) * |right| + j);
      assert Cross(left, right)[|right| + ((i - 1) * |right| + j)] == rest[(i - 1) * |right| + j];
    } else {
      assert Cross(left, right)[j] == PrefixEach(left[0], right)[j];
      PrefixEachAt(left[0], right, j);
    }
  }

  lemma {:induction false} ProductSize(pieces: seq<Piece>)
    ensures |Product(pieces)| == Total(pieces)
  {
    if pieces != [] {
      ProductSize(pieces[1..]);
      CrossSize(Items(pieces[0]), Product(pieces[1..]));
    }
  }

  // ----- Growing a product at its right end -----

  lemma {:induction false} CrossOfAppend(a: seq<string>, b: seq<string>, c: seq<string>)
    ensures Cross(a + b, c) == Cross(a, c) + Cross(b, c)
  {
    if a == [] {
      assert a + b == b;
    } else {
      CrossOfAppend(a[1..], b, c);
      assert (a + b)[1..] == a[1..] + b && (a + b)[0] == a[0];
      assert PrefixEach(a[0], c) + (Cross(a[1..], c) + Cross(b, c)) == PrefixEach(a[0], c) + Cross(a[1..], c) + Cross(b, c);
    }
    hide PrefixEach;
  }

  lemma {:induction false} PrefixTwice(x: string, y: string, c: seq<string>)
    ensures PrefixEach(x + y, c) == PrefixEach(x, PrefixEach(y, c))
  {
    if c != [] {
      PrefixTwice(x, y, c[1..]);
      assert (x + y) + c[0] == x + (y + c[0]);
      assert PrefixEach(y, c)[1..] == PrefixEach(y, c[1..]);
    }
  }

  lemma {:induction false} PrefixOfAppend(x: string, a: seq<string>, b: seq<string>)
    ensures PrefixEach(x, a + b) == PrefixEach(x, a) + PrefixEach(x, b)
  {
    if a == [] {
      assert a + b == b;
    } else {
      PrefixOfAppend(x, a[1..], b);
      assert (a + b)[1..] == a[1..] + b;
      var rest, tail := PrefixEach(x, a[1..]), PrefixEach(x, b);
      assert [x + a[0]] + (rest + tail) == ([x + a[0]] + rest) + tail;
    }
  }

  lemma {:induction false} CrossOfPrefix(x: string, b: seq<string>, c: seq<string>)
    ensures Cross(PrefixEach(x, b), c) == PrefixEach(x, Cross(b, c))
  {
    if b != [] {
      CrossOfPrefix(x, b[1..], c);
      PrefixTwice(x, b[0], c);
      PrefixOfAppend(x, PrefixEach(b[0], c), Cross(b[1..], c));
      assert PrefixEach(x, b)[0] == x + b[0] && PrefixEach(x, b)[1..] == PrefixEach(x, b[1..]);
    }
  }

  lemma {:induction false} CrossIsAssociative(a: seq<string>, b: seq<string>, c: seq<string>)
    ensures Cross(Cross(a, b), c) == Cross(a, Cross(b, c))
  {
    if a != [] {
      CrossOfAppend(PrefixEach(a[0], b), Cross(a[1..], b), c);
      CrossOfPrefix(a[0], b, c);
      CrossIsAssociative(a[1..], b, c);
    }
  }

  lemma {:induction false} CrossWithEmptyString(a: seq<string>)
    ensures Cross(a, [""]) == a && Cross([""], a) == a
  {
    if a != [] {
      CrossWithEmptyString(a[1..]);
      assert a[0] + "" == a[0] && PrefixEach(a[0], [""]) == [a[0]];
    }
    forall k | 0 <= k < |a| ensures PrefixEach("", a)[k] == a[k] {
      PrefixEachAt("", a, k);
      assert "" + a[k] == a[k];
    }
    assert Cross([""], a) == PrefixEach("", a) + Cross([""][1..], a);
  }

  lemma TimesAssociative(a: nat, b: nat, c: nat)
    ensures a * (b * c) == (a * b) * c
  {
  }

  lemma {:induction false} ProductSnoc(pieces: seq<Piece>, p: Piece)
    ensures Product(pieces + [p]) == Cross(Product(pieces), Items(p))
    ensures Total(pieces + [p]) == Total(pieces) * p.Count()
  {
    if pieces == [] {
      CrossWithEmptyString(Items(p));
      assert ([] + [p])[1..] == [];
      assert Total([p]) == p.Count() * Total([]);
    } else {
      ProductSnoc(pieces[1..], p);
      assert (pieces + [p])[1..] == pieces[1..] + [p] && (pieces + [p])[0] == pieces[0];
      CrossIsAssociative(Items(pieces[0]), Product(pieces[1..]), Items(p));
      TimesAssociative(pieces[0].Count(), Total(pieces[1..]), p.Count());
    }
    hide Cross, Items;
  }

  lemma {:induction false} TotalOfConcat(a: seq<Piece>, b: seq<Piece>)
    ensures Total(a + b) == Total(a) * Total(b)
  {
    if a == [] {
      assert a + b == b;
    } else {
      TotalOfConcat(a[1..], b);
      assert (a + b)[1..] == a[1..] + b;
      TimesAssociative(a[0].Count(), Total(a[1..]), Total(b));
    }
  }

  // ----- Order: output number i spells the digits of i -----

  /** One item chosen from each piece. */
  ghost predicate IsChoice(pieces: seq<Piece>, digits: seq<nat>) {
    |digits| == |pieces| && forall k :: 0 <= k < |pieces| ==> digits[k] < pieces[k].Count()
  }

  ghost function Spell(pieces: seq<Piece>, digits: seq<nat>): string
    requires IsChoice(pieces, digits)
  {
    if pieces == [] then "" else pieces[0].Item(digits[0]) + Spell(pieces[1..], digits[1..])
  }

  /** The number whose mixed-radix digits are `digits`, the last one being least significant. */
  ghost function Rank(pieces: seq<Piece>, digits: seq<nat>): nat
    requires IsChoice(pieces, digits)
  {
    if pieces == [] then 0 else digits[0] * Total(pieces[1..]) + Rank(pieces[1..], digits[1..])
  }

  lemma DigitInRange(i: nat, n: nat, t: nat)
    requires t > 0 && i < n * t
    ensures i / t < n && i % t < t && i == (i / t) * t + i % t
  {
    if n <= i / t {
      TimesMonotone(n, i / t, t);
    }
  }

  /** The mixed-radix digits of `i`. */
  ghost function Digits(pieces: seq<Piece>, i: nat): (digits: seq<nat>)
    requires AllValid(pieces) && i < Total(pieces)
    ensures IsChoice(pieces, digits)
  {
    if pieces == [] then []
    else
      TotalIsPositive(pieces[1..]);
      var t := Total(pieces[1..]);
      DigitInRange(i, pieces[0].Count(), t);
      [i / t] + Digits(pieces[1..], i % t)
  }

  /** A choice of one item from each piece is output at the position given by its digits. */
  lemma {:induction false} OutputAtRank(pieces: seq<Piece>, digits: seq<nat>)
    requires IsChoice(pieces, digits)
    ensures Rank(pieces, digits) < |Product(pieces)| == Total(pieces)
    ensures Product(pieces)[Rank(pieces, digits)] == Spell(pieces, digits)
  {
    ProductSize(pieces);
    if pieces != [] {
      OutputAtRank(pieces[1..], digits[1..]);
      CrossAt(Items(pieces[0]), Product(pieces[1..]), digits[0], Rank(pieces[1..], digits[1..]));
    }
  }

  /** Every position is the position of exactly one choice. */
  lemma {:induction false} RankOfDigits(pieces: seq<Piece>, i: nat)
    requires AllValid(pieces) && i < Total(pieces)
    ensures Rank(pieces, Digits(pieces, i)) == i
  {
    if pieces != [] {
      TotalIsPositive(pieces[1..]);
      var t := Total(pieces[1..]);
      DigitInRange(i, pieces[0].Count(), t);
      RankOfDigits(pieces[1..], i % t);
      assert Digits(pieces, i)[1..] == Digits(pieces[1..], i % t);
    }
  }

  lemma QuotientAndRemainder(q: nat, t: nat, r: nat)
    requires r < t
    ensures (q * t + r) / t == q && (q * t + r) % t == r
  {
    var n := q * t + r;
    assert n == (n / t) * t + n % t;
    if n / t < q {
      TimesMonotone(n / t + 1, q, t);
    } else if q < n / t {
      TimesMonotone(q + 1, n / t, t);
    }
  }

  lemma NoDigits()
    ensures Digits([], 0) == []
  {
  }

  lemma DigitsUnfold(pieces: seq<Piece>, q: nat, r: nat)
    requires pieces != [] && AllValid(pieces) && r < Total(pieces[1..])
    requires q * Total(pieces[1..]) + r < Total(pieces)
    ensures Digits(pieces, q * Total(pieces[1..]) + r) == [q] + Digits(pieces[1..], r)
  {
    hide Total, Rank, Spell, Product, Items, IsChoice;
    var t := Total(pieces[1..]);
    var i := q * t + r;
    QuotientAndRemainder(q, t, r);
    assert i / t == q && i % t == r;
  }

  lemma {:induction false} DigitsOfRank(pieces: seq<Piece>, digits: seq<nat>)
    requires AllValid(pieces) && IsChoice(pieces, digits)
    ensures Rank(pieces, digits) < Total(pieces)
    ensures Digits(pieces, Rank(pieces, digits)) == digits
  {
    hide Spell, Product, Digits;
    OutputAtRank(pieces, digits);
    if pieces == [] {
      NoDigits();
    } else {
      var t, r := Total(pieces[1..]), Rank(pieces[1..], digits[1..]);
      DigitsOfRank(pieces[1..], digits[1..]);
      DigitsUnfold(pieces, digits[0], r);
      assert [digits[0]] + digits[1..] == digits;
    }
  }

  /** Output number `i` of a pattern spells the mixed-radix digits of `i`, rightmost varying fastest. */
  lemma OutputSpellsDigits(pieces: seq<Piece>, i: nat)
    requires AllValid(pieces) && i < Total(pieces)
    ensures |Product(pieces)| == Total(pieces)
    ensures Product(pieces)[i] == Spell(pieces, Digits(pieces, i))
  {
    OutputAtRank(pieces, Digits(pieces, i));
    RankOfDigits(pieces, i);
  }

  // ----- Escaping -----

  /** A backslash before each character that a pattern treats specially. */
  function Escape(s: string): string {
    if s == "" then "" else (if Escapable(s[0]) then ['\\', s[0]] else [s[0]]) + Escape(s[1..])
  }

  function Literals(s: string): seq<Piece> {
    if s == "" then [] else [Literal(s[0])] + Literals(s[1..])
  }

  /** An escaped text never begins with a character that a backslash in front of it would swallow. */
  lemma EscapeStart(s: string)
    ensures Escape(s) == "" || !Escapable(Escape(s)[0])
  {
  }

  /** Any text, backslashes included, survives escaping: the escaped form stands for the text alone. */
  lemma {:induction false} EscapedTextIsLiteral(s: string)
    ensures Parse(Escape(s)) == Success(Literals(s))
    ensures Product(Literals(s)) == [s]
  {
    if s != "" {
      EscapedTextIsLiteral(s[1..]);
      var e := Escape(s);
      if Escapable(s[0]) {
        assert e[2..] == Escape(s[1..]);
      } else {
        EscapeStart(s[1..]);
        assert e[1..] == Escape(s[1..]);
      }
      assert ParsePiece(e) == Success((Literal(s[0]), if Escapable(s[0]) then 2 else 1));
      assert Literals(s)[1..] == Literals(s[1..]);
      assert Items(Literal(s[0])) == [[s[0]]];
      assert Cross([[s[0]]], [s[1..]]) == PrefixEach([s[0]], [s[1..]]) + Cross([], [s[1..]]);
      assert [s[0]] + s[1..] == s;
    }
  }
}
