/** readHeaderBlock of internal/curlu/client.go. */
module HeaderBlocks {
  import opened Wrappers
  import opened Readers

  /** Too large, or the stream ended inside the block, of which `block` had been read. */
  datatype HeaderError = TooLarge | Broken(block: string)

  ghost predicate NoBlankLine(s: string, n: nat) {
    forall m: nat :: m <= n ==> !EndsBlankLine(s, m)
  }

  /** What reading the header block of the stream `s` comes to, with `rest` left to read: exactly the
      block when there is one of at most 2^20 bytes; too large only when the first 2^20 bytes hold no
      blank line; broken off only when the whole stream has been read and holds none. */
  ghost predicate Outcome(s: string, r: Result<string, HeaderError>, rest: string) {
    match r
    case Success(block) => IsHeaderBlock(s, |block|) && |block| <= MAX_HEADER_BYTES && block + rest == s
    case Failure(TooLarge) => |s| >= MAX_HEADER_BYTES && NoBlankLine(s, MAX_HEADER_BYTES)
    case Failure(Broken(block)) => block == s && rest == "" && |s| <= MAX_HEADER_BYTES && NoBlankLine(s, |s|)
  }

  /** The start of the last line of `block`, which has no line break yet. */
  ghost predicate LineStartsAt(block: string, lineStart: nat) {
    && lineStart <= |block| && '\n' !in block[lineStart..]
    && (lineStart > 0 ==> block[lineStart - 1] == '\n')
  }

  /** Where a line break is the last byte of a fragment, only the fragment's end can end a blank line. */
  lemma FragmentEndsAtMostOne(s: string, block: string, fragment: string)
    requires block + fragment <= s && NoBlankLine(s, |block|)
    requires '\n' !in fragment || (fragment[|fragment| - 1] == '\n' && '\n' !in fragment[..|fragment| - 1])
    ensures fragment != "" ==> NoBlankLine(s, |block| + |fragment| - 1)
    ensures '\n' !in fragment ==> NoBlankLine(s, |block| + |fragment|)
  {
    var whole := block + fragment;
    forall m: nat | |block| < m <= |whole| && (m < |whole| || '\n' !in fragment) ensures !EndsBlankLine(s, m) {
      assert s[m - 1] == whole[m - 1] == fragment[m - 1 - |block|];
      if m < |whole| && '\n' in fragment {
        assert fragment[m - 1 - |block|] in fragment[..|fragment| - 1];
      }
    }
  }

  /** The test on the last line decides whether the block ends there. */
  lemma LastLineDecides(s: string, block: string, lineStart: nat)
    requires block <= s && block != "" && block[|block| - 1] == '\n'
    requires LineStartsAt(block[..|block| - 1], lineStart)
    ensures EndsBlankLine(s, |block|) <==> block[lineStart..] == "\r\n" || block[lineStart..] == "\n"
  {
    var n := |block|;
    var line := block[lineStart..];
    assert s[n - 1] == block[n - 1];
    assert forall k :: lineStart <= k < n - 1 ==> block[k] in block[..n - 1][lineStart..];
    if |line| == 1 {
      assert line == [block[n - 1]] == "\n";
      assert n >= 2 ==> s[n - 2] == block[n - 2] == '\n';
    } else if |line| == 2 {
      assert line == [block[n - 2], block[n - 1]];
      assert s[n - 2] == block[n - 2];
      assert n >= 3 ==> s[n - 3] == block[n - 3] == '\n';
    } else {
      assert s[n - 2] == block[n - 2] && s[n - 3] == block[n - 3];
    }
  }

  /** `block` has been read from the stream `s`; its last line starts at `lineStart`. */
  ghost predicate Progress(s: string, block: string, lineStart: nat) {
    block <= s && |block| <= MAX_HEADER_BYTES && NoBlankLine(s, |block|) && LineStartsAt(block, lineStart)
  }

  predicate IsBlank(line: string) {
    line == "\r\n" || line == "\n"
  }

  lemma AddPartOfLine(s: string, block: string, lineStart: nat, fragment: string, rest: string)
    requires Progress(s, block, lineStart) && block + (fragment + rest) == s && '\n' !in fragment
    ensures (block + fragment) + rest == s
    ensures |block| + |fragment| <= MAX_HEADER_BYTES ==> Progress(s, block + fragment, lineStart)
    ensures |block| + |fragment| <= MAX_HEADER_BYTES && rest == "" ==> Outcome(s, Failure(Broken(block + fragment)), rest)
    ensures |block| + |fragment| > MAX_HEADER_BYTES ==> Outcome(s, Failure(TooLarge), rest)
  {
    assert block + (fragment + rest) == (block + fragment) + rest;
    assert rest == "" ==> (block + fragment) + rest == block + fragment;
    FragmentEndsAtMostOne(s, block, fragment);
    hide EndsBlankLine;
  }

  lemma AddEndOfLine(s: string, block: string, lineStart: nat, fragment: string, rest: string)
    requires Progress(s, block, lineStart) && block + (fragment + rest) == s
    requires fragment != "" && fragment[|fragment| - 1] == '\n' && '\n' !in fragment[..|fragment| - 1]
    ensures (block + fragment) + rest == s && lineStart <= |block|
    ensures |block| + |fragment| <= MAX_HEADER_BYTES ==>
              var b := block + fragment;
              if IsBlank(b[lineStart..]) then Outcome(s, Success(b), rest) else Progress(s, b, |b|)
    ensures |block| + |fragment| > MAX_HEADER_BYTES ==> Outcome(s, Failure(TooLarge), rest)
  {
    assert block + (fragment + rest) == (block + fragment) + rest;
    FragmentEndsAtMostOne(s, block, fragment);
    var b := block + fragment;
    assert b[..|b| - 1] == block + fragment[..|fragment| - 1];
    LastLineDecides(s, b, lineStart);
    hide EndsBlankLine;
  }

  lemma AtTheLimit(s: string, block: string, lineStart: nat, rest: string)
    requires Progress(s, block, lineStart) && |block| >= MAX_HEADER_BYTES
    ensures Outcome(s, Failure(TooLarge), rest)
  {
  }

  lemma StartOfBlock(s: string)
    ensures Progress(s, "", 0) && "" + s == s
  {
  }

  method ReadHeaderBlock(reader: Reader) returns (r: Result<string, HeaderError>)
    requires reader.Valid()
    modifies reader.repr
    ensures reader.Valid()
    ensures Outcome(old(reader.Remaining()), r, reader.Remaining())
  {
    hide Progress, Outcome;
    var block := "";
    var lineStart: nat := 0;
    ghost var s, rest := reader.Remaining(), reader.Remaining();
    StartOfBlock(s);
    while true
      invariant reader.Valid() && reader.Remaining() == rest && block + rest == s
      invariant Progress(s, block, lineStart)
      decreases |rest|
    {
      if |block| >= MAX_HEADER_BYTES {
        AtTheLimit(s, block, lineStart, rest);
        return Failure(TooLarge);
      }
      var fragment, status := reader.ReadSlice();
      rest := reader.Remaining();
      if status == Line {
        AddEndOfLine(s, block, lineStart, fragment, rest);
      } else {
        AddPartOfLine(s, block, lineStart, fragment, rest);
      }
      if |block| + |fragment| > MAX_HEADER_BYTES {
        return Failure(TooLarge);
      }
      block := block + fragment;
      if status == BufferFull {
        continue;
      }
      if status == Ended {
        return Failure(Broken(block));
      }
      var line := block[lineStart..];
      if line == "\r\n" || line == "\n" {
        return Success(block);
      }
      lineStart := |block|;
    }
  }

  /** A stream that has a header block of at most 2^20 bytes has it read, whatever the fragments; one
      that has none never does. */
  lemma SuccessIsDetermined(s: string, r: Result<string, HeaderError>, rest: string)
    requires Outcome(s, r, rest)
    ensures r.Success? <==> exists n: nat :: n <= 0x10_0000 && IsHeaderBlock(s, n)
    ensures forall n: nat :: n <= 0x10_0000 && IsHeaderBlock(s, n) ==> r == Success(s[..n]) && rest == s[n..]
  {
    forall n: nat | n <= MAX_HEADER_BYTES && IsHeaderBlock(s, n) ensures r == Success(s[..n]) && rest == s[n..] {
      assert EndsBlankLine(s, n);
      match r
      case Success(block) => HeaderBlockIsUnique(s, n, |block|);
      case _ =>
    }
  }

  /** The header block of a stream, if it has one of at most 2^20 bytes. */
  ghost function HeaderBlockOf(s: string): (block: Option<string>)
    ensures block.Some? <==> exists n: nat :: n <= MAX_HEADER_BYTES && IsHeaderBlock(s, n)
    ensures block.Some? ==> block.value <= s && IsHeaderBlock(s, |block.value|) && |block.value| <= MAX_HEADER_BYTES
  {
    if n: nat :| n <= MAX_HEADER_BYTES && IsHeaderBlock(s, n) then Some(s[..n]) else None
  }
}
