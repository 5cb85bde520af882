/** Buffered readers stacked on one another, as internal/curlu/client.go stacks them: each response puts
    a new reader, which first replays the header block, on top of the last one. A string stands for a
    sequence of bytes. */
module Readers {
  import opened Text

  const MAX_HEADER_BYTES: nat := 0x10_0000

  // ----- Header blocks -----

  /** The first `n` bytes of `s` end with a line that holds nothing but its line break. */
  predicate EndsBlankLine(s: string, n: nat) {
    && 1 <= n <= |s| && s[n - 1] == '\n'
    && (n == 1 || s[n - 2] == '\n' || (s[n - 2] == '\r' && (n == 2 || s[n - 3] == '\n')))
  }

  /** The first `n` bytes of `s` are its header block: the shortest prefix ending with a blank line. */
  ghost predicate IsHeaderBlock(s: string, n: nat) {
    EndsBlankLine(s, n) && forall m: nat :: m < n ==> !EndsBlankLine(s, m)
  }

  lemma HeaderBlockIsUnique(s: string, n: nat, m: nat)
    requires IsHeaderBlock(s, n) && IsHeaderBlock(s, m)
    ensures n == m
  {
  }

  /** What follows a header block does not matter. */
  lemma HeaderBlockPrefix(block: string, rest: string)
    ensures IsHeaderBlock(block + rest, |block|) <==> IsHeaderBlock(block, |block|)
  {
    forall m: nat | m <= |block| ensures EndsBlankLine(block + rest, m) <==> EndsBlankLine(block, m) {
    }
  }

  // ----- Readers -----

  /** Why readSlice returned: a whole line, a full buffer, or the end of the stream. */
  datatype SliceStatus = Line | BufferFull | Ended

  class Reader {
    const size: nat       // of the buffer
    const inner: Reader?  // the reader underneath, or null on a connection
    var buf: string       // fetched and not yet read
    var head: string      // what is left of the replayed header block
    var source: string    // what the connection will still deliver
    ghost const repr: set<Reader>

    ghost predicate Valid()
      reads this, repr
      ensures Valid() ==> this in repr && size > 0 && |buf| <= size
      decreases repr
    {
      && this in repr && size > 0 && |buf| <= size
      && (inner != null ==>
            && inner in repr && inner.repr < repr && this !in inner.repr
            && inner.Valid())
    }

    /** Every byte still to come from underneath the buffer. */
    ghost function Below(): string
      requires Valid()
      reads this, repr
      decreases repr, 0
    {
      head + if inner == null then source else inner.Remaining()
    }

    /** Every byte that reading to the end will yield. */
    ghost function Remaining(): string
      requires Valid()
      reads this, repr
      decreases repr, 1
    {
      buf + Below()
    }

    /** bufio.NewReader on a connection. */
    constructor OnConnection(size: nat, source: string)
      requires size > 0
      ensures Valid() && fresh(repr) && Remaining() == source
    {
      this.size, inner, buf, head, this.source := size, null, "", "", source;
      repr := {this};
      new;
      assert "" + "" + source == source;
    }

    /** bufio.NewReader over a replayed header block and then another reader. */
    constructor OnTop(size: nat, block: string, inner: Reader)
      requires size > 0 && inner.Valid()
      ensures Valid() && repr == inner.repr + {this} && Remaining() == block + inner.Remaining()
    {
      this.size, this.inner, buf, head, source := size, inner, "", block, "";
      repr := inner.repr + {this};
      new;
      assert "" + block == block;
    }

    /** The connection delivers some of what it has, at least one byte. */
    method Deliver(max: nat) returns (chunk: string)
      requires max > 0
      modifies this`source
      ensures |chunk| <= max && chunk + source == old(source)
      ensures chunk == "" ==> source == ""
    {
      var n: int := *;
      if n < 1 || n > max {
        n := max;
      }
      n := if n < |source| then n else |source|;
      chunk := source[..n];
      source := source[n..];
    }

    /** One read of at most `max` bytes from underneath, past the buffer: first the header block, then
        the reader below, which may fetch more than it hands on. */
    method Fetch(max: nat) returns (chunk: string)
      requires Valid() && max > 0
      modifies repr
      ensures Valid() && buf == old(buf) && |chunk| <= max
      ensures chunk + Below() == old(Below())
      ensures chunk == "" ==> Below() == ""
      decreases repr, 0
    {
      if head != "" {
        var n := if max < |head| then max else |head|;
        chunk := head[..n];
        head := head[n..];
      } else if inner != null {
        chunk := inner.Read(max);
      } else {
        chunk := Deliver(max);
      }
    }

    /** Hands out the first `n` buffered bytes. */
    method Take(n: nat) returns (bytes: string)
      requires Valid() && n <= |buf|
      modifies this
      ensures Valid() && buf == old(buf[n..]) && Below() == old(Below())
      ensures bytes == old(buf[..n])
    {
      bytes := buf[..n];
      buf := buf[n..];
    }

    method Put(chunk: string)
      requires Valid() && |buf| + |chunk| <= size
      modifies this
      ensures Valid() && buf == old(buf) + chunk && Below() == old(Below())
    {
      buf := buf + chunk;
    }

    /** One fetch of at most `max` bytes into the buffer. */
    method Fill(max: nat) returns (more: bool)
      requires Valid() && 0 < max <= size - |buf|
      modifies repr
      ensures Valid() && Remaining() == old(Remaining())
      ensures old(buf) <= buf && (more ==> |Below()| < old(|Below()|))
      ensures !more ==> buf == old(buf) && Below() == ""
      decreases repr, 1
    {
      var chunk := Fetch(max);
      more := chunk != "";
      Put(chunk);
    }

    /** bufio.Reader.Read: from the buffer if it holds anything, else after one fetch, which large reads
        may do past the buffer. */
    method Read(max: nat) returns (chunk: string)
      requires Valid() && max > 0
      modifies repr
      ensures Valid() && |chunk| <= max
      ensures chunk + Remaining() == old(Remaining())
      ensures chunk == "" ==> Remaining() == ""
      decreases repr, 2
    {
      if buf == "" {
        if max >= size {
          chunk := Fetch(max);
          return;
        }
        var more := Fill(size);
      }
      chunk := Take(if max < |buf| then max else |buf|);
    }

    /** bufio.Reader.ReadSlice('\n'). */
    method ReadSlice() returns (fragment: string, status: SliceStatus)
      requires Valid()
      modifies repr
      ensures Valid() && fragment + Remaining() == old(Remaining())
      ensures status.Line? ==> fragment != "" && fragment[|fragment| - 1] == '\n' && '\n' !in fragment[..|fragment| - 1]
      ensures !status.Line? ==> '\n' !in fragment
      ensures status.BufferFull? ==> fragment != ""
      ensures status.Ended? ==> Remaining() == ""
    {
      hide Valid, Below;
      while true
        invariant Valid() && Remaining() == old(Remaining())
        decreases |Below()|
      {
        var i := IndexOf(buf, '\n');
        if i < |buf| {
          fragment := Take(i + 1);
          status := Line;
          return;
        }
        if |buf| >= size {
          fragment := Take(|buf|);
          status := BufferFull;
          return;
        }
        var more := Fill(size - |buf|);
        if !more {
          fragment := Take(|buf|);
          status := Ended;
          return;
        }
      }
    }
  }
}
