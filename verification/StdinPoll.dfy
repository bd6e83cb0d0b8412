/** The poll of standard input: a fixed buffer, cut in place and moved down. */
module StdinPoll {
  import opened Bytes
  import opened StdinLines

  /** After the first `i` bytes of `b`, `lines` are complete and the line from `start` on is not. */
  ghost predicate Parsed(b: seq<Byte>, i: nat, start: nat, lines: seq<seq<Byte>>) {
    && start <= i <= |b|
    && SplitLines(b[..i]).tail == b[start..i] && NonEmpty(SplitLines(b[..i]).lines) == lines
  }

  lemma ParsedByte(b: seq<Byte>, i: nat, start: nat, lines: seq<seq<Byte>>)
    requires Parsed(b, i, start, lines) && i < |b|
    ensures b[i] != NEWLINE ==> Parsed(b, i + 1, start, lines)
    ensures b[i] == NEWLINE ==> Parsed(b, i + 1, i + 1, WithLine(lines, b[start..i]))
  {
    assert b[..i + 1][..i] == b[..i];
    assert b[start..i] + [b[i]] == b[start..i + 1];
    var s := SplitLines(b[..i]);
    assert (s.lines + [s.tail])[..|s.lines|] == s.lines;
  }

  lemma ParsedToken(b: seq<Byte>, i: nat, start: nat, lines: seq<seq<Byte>>)
    requires Parsed(b, i, start, lines) && start < i < |b| && b[i] == NEWLINE
    ensures Parsed(b, i + 1, i + 1, lines + [b[start..i]])
  {
    ParsedByte(b, i, start, lines);
  }

  class Command {
    const buf: array<Byte>
    var ptr: nat

    /** Everything read so far, and every line handed to parse_sub_msg. */
    ghost var stream: seq<Byte>
    ghost var handed: seq<seq<Byte>>

    ghost predicate Valid()
      reads this, buf
    {
      && buf.Length == STDIN_BUF_SIZE && ptr < STDIN_BUF_SIZE - 1
      && Quiet(buf[..ptr]) && HandedOn(stream) == State(handed, buf[..ptr])
    }

    constructor ()
      ensures Valid() && stream == [] && handed == []
    {
      buf := new Byte[STDIN_BUF_SIZE];
      ptr, stream, handed := 0, [], [];
    }

    /** read_stdin: what the reads return goes behind the pending bytes. */
    method ReadStdin(chunk: seq<Byte>)
      requires ptr + |chunk| <= buf.Length
      modifies buf
      ensures buf[..ptr + |chunk|] == old(buf[..ptr]) + chunk
    {
      for i := 0 to |chunk|
        invariant buf[..ptr + i] == old(buf[..ptr]) + chunk[..i]
      {
        buf[ptr + i] := chunk[i];
      }
    }

    /** strrchr for a newline; -1 for none. */
    method LastNewline() returns (at: int)
      requires ptr < buf.Length && buf[ptr] == NUL
      ensures at < ptr && LastNewlineAt(buf[..ptr], at)
    {
      at := -1;
      var i := 0;
      while buf[i] != NUL
        invariant i <= ptr && -1 <= at < i && forall k :: 0 <= k < i ==> buf[k] != NUL
        invariant at >= 0 ==> buf[at] == NEWLINE
        invariant forall k :: at < k < i ==> buf[k] != NEWLINE
        decreases ptr - i
      {
        if buf[i] == NEWLINE {
          at := i;
        }
        i := i + 1;
      }
      ghost var b := buf[..ptr];
      FirstNul(b, i, at);
    }

    /** From `i` on the buffer still holds `b`, with the newline at `at` cut off. */
    ghost predicate Cut(b: seq<Byte>, i: nat, at: nat)
      reads buf
    {
      && i <= at < |b| <= buf.Length && b[at] == NEWLINE && buf[at] == NUL
      && forall k :: i <= k < |b| && k != at ==> buf[k] == b[k] && (k < at ==> b[k] != NUL)
    }

    /** strtok skips the newlines before a token. */
    method SkipNewlines(from: nat, at: nat, ghost b: seq<Byte>, ghost lines: seq<seq<Byte>>) returns (i: nat)
      requires Cut(b, from, at) && Parsed(b, from, from, lines)
      ensures from <= i <= at && Parsed(b, i, i, lines) && buf[i] != NEWLINE
    {
      i := from;
      while buf[i] == NEWLINE
        invariant from <= i <= at && Parsed(b, i, i, lines)
        decreases at - i
      {
        ParsedByte(b, i, i, lines);
        i := i + 1;
      }
    }

    /** A token ends at a newline or at the NUL. */
    method TokenEnd(start: nat, at: nat, ghost b: seq<Byte>, ghost lines: seq<seq<Byte>>) returns (i: nat)
      requires Cut(b, start, at) && Parsed(b, start, start, lines) && start < at && buf[start] != NEWLINE
      ensures start < i <= at && Parsed(b, i + 1, i + 1, lines + [b[start..i]])
      ensures buf[i] == NUL <==> i == at
    {
      i := start;
      while buf[i] != NEWLINE && buf[i] != NUL
        invariant start <= i <= at && Parsed(b, i, start, lines)
        invariant i == start ==> buf[i] != NEWLINE && buf[i] != NUL
        decreases at - i
      {
        ParsedByte(b, i, start, lines);
        i := i + 1;
      }
      ParsedToken(b, i, start, lines);
    }

    /** parse_msg: the tokens between newlines, up to the NUL at `at`. */
    method ParseMsg(at: nat, ghost b: seq<Byte>) returns (lines: seq<seq<Byte>>)
      requires Cut(b, 0, at)
      modifies buf
      ensures lines == NonEmpty(SplitLines(b[..at + 1]).lines)
      ensures forall k :: at < k < |b| ==> buf[k] == b[k]
    {
      lines := [];
      var i := 0;
      while true
        invariant Cut(b, i, at) && Parsed(b, i, i, lines)
        decreases at - i
      {
        i := SkipNewlines(i, at, b, lines);
        if buf[i] == NUL {
          assert i == at;
          ParsedByte(b, at, at, lines);
          break;
        }
        var start := i;
        i := TokenEnd(start, at, b, lines);
        assert buf[start..i] == b[start..i];
        lines := lines + [buf[start..i]];
        if buf[i] == NUL {
          break;
        }
        buf[i] := NUL;
        i := i + 1;
      }
    }

    /** memmove of what follows the last newline. */
    method MoveDown(from: nat, ghost rest: seq<Byte>)
      requires from <= ptr <= buf.Length && buf[from..ptr] == rest
      modifies buf
      ensures buf[..|rest|] == rest
    {
      for i := 0 to ptr - from
        invariant buf[..i] == rest[..i]
        invariant forall k :: from + i <= k < ptr ==> buf[k] == rest[k - from]
      {
        buf[i] := buf[from + i];
      }
    }

    /** The buffer holds `b`, and a NUL behind it. */
    ghost predicate Filled(b: seq<Byte>)
      reads this`ptr, buf
    {
      buf.Length == STDIN_BUF_SIZE && ptr == |b| < STDIN_BUF_SIZE && buf[..ptr] == b && buf[ptr] == NUL
    }

    /** The reads of a poll, and the search for a newline. */
    method Fill(chunk: seq<Byte>, ghost b: seq<Byte>) returns (at: int)
      requires buf.Length == STDIN_BUF_SIZE && ptr + |chunk| < STDIN_BUF_SIZE && b == buf[..ptr] + chunk
      modifies buf, this`ptr
      ensures Filled(b) && LastNewlineAt(b, at)
    {
      ReadStdin(chunk);
      ptr := ptr + |chunk|;
      buf[ptr] := NUL;
      assert buf[..ptr] == b;
      at := LastNewline();
    }

    /** Without a newline, a full buffer is flushed. */
    method FlushIfFull(ghost b: seq<Byte>)
      requires Filled(b)
      modifies buf, this`ptr
      ensures ptr < STDIN_BUF_SIZE - 1 && buf[..ptr] == if |b| + 1 < STDIN_BUF_SIZE then b else []
    {
      if ptr + 1 >= STDIN_BUF_SIZE {
        ptr := 0;
        buf[0] := NUL;
      }
    }

    /** With a newline, the lines before it are handed on and the rest is moved down. */
    method TakeLines(at: nat, ghost b: seq<Byte>) returns (lines: seq<seq<Byte>>)
      requires Filled(b) && LastNewlineAt(b, at)
      modifies buf, this`ptr
      ensures lines == NonEmpty(SplitLines(b[..at + 1]).lines)
      ensures ptr < STDIN_BUF_SIZE - 1 && buf[..ptr] == b[at + 1..]
    {
      lines := CutAndParse(at, b);
      KeepRest(at + 1, b, b[at + 1..]);
    }

    /** The lines up to the last newline. */
    method CutAndParse(at: nat, ghost b: seq<Byte>) returns (lines: seq<seq<Byte>>)
      requires Filled(b) && LastNewlineAt(b, at)
      modifies buf
      ensures lines == NonEmpty(SplitLines(b[..at + 1]).lines)
      ensures forall k :: at < k < |b| ==> buf[k] == b[k]
    {
      forall k | 0 <= k < at ensures b[k] != NUL {
        assert b[..at][k] != NUL;
      }
      buf[at] := NUL;
      lines := ParseMsg(at, b);
    }

    /** What follows them goes to the start of the buffer. */
    method KeepRest(from: nat, ghost b: seq<Byte>, ghost rest: seq<Byte>)
      requires buf.Length == STDIN_BUF_SIZE && 0 < from <= |b| == ptr < STDIN_BUF_SIZE && rest == b[from..]
      requires forall k :: from <= k < |b| ==> buf[k] == b[k]
      modifies buf, this`ptr
      ensures ptr < STDIN_BUF_SIZE - 1 && buf[..ptr] == rest
    {
      assert buf[from..ptr] == rest;
      MoveDown(from, rest);
      ptr := ptr - from;
    }

    /** stdin_cmd_poll: `chunk` is what the reads of this poll return. Whatever the chunks, the
        lines handed on are those of the whole stream taken byte by byte. */
    method Poll(chunk: seq<Byte>) returns (lines: seq<seq<Byte>>)
      requires Valid() && ptr + |chunk| <= STDIN_BUF_SIZE - 1
      modifies this, buf
      ensures Valid() && stream == old(stream) + chunk && handed == old(handed) + lines
    {
      lines := [];
      if |chunk| == 0 {
        assert stream + chunk == stream;
        return;
      }
      ghost var b := buf[..ptr] + chunk;
      var at := Fill(chunk, b);
      PollSettles(stream, handed, old(buf[..ptr]), chunk, at);
      if at < 0 {
        FlushIfFull(b);
      } else {
        lines := TakeLines(at, b);
      }
      stream, handed := stream + chunk, handed + lines;
    }

    /** Over all polls so far, nothing but the non-empty lines of the stream has been handed on,
        exactly when each of them, newline included, fits the buffer and has no NUL. */
    lemma LinesOfStream()
      requires Valid()
      ensures handed == NonEmpty(SplitLines(stream).lines)
         <==> forall line :: line in SplitLines(stream).lines ==> |line| + 1 <= 4095 && 0 !in line
    {
      HandedOnIsLines(stream);
    }
  }

  /** What a poll has to leave behind, against the stream taken byte by byte. */
  lemma PollSettles(stream: seq<Byte>, handed: seq<seq<Byte>>, pending: seq<Byte>, chunk: seq<Byte>, at: int)
    requires HandedOn(stream) == State(handed, pending) && Quiet(pending) && |pending| < STDIN_BUF_SIZE - 1
    requires |pending + chunk| < STDIN_BUF_SIZE && LastNewlineAt(pending + chunk, at)
    ensures HandedOn(stream + chunk) == Settled(handed, pending + chunk, at)
    ensures Quiet(Settled(handed, pending + chunk, at).pending)
  {
    ChunkIsFed(State(handed, pending), chunk, at);
    FeedTwo(State([], []), stream, chunk);
  }

  /** The scan stops at the first NUL, or at the one that ends the buffer. */
  lemma FirstNul(b: seq<Byte>, i: nat, at: int)
    requires i <= |b| && -1 <= at < i && (i < |b| ==> b[i] == NUL)
    requires forall k :: 0 <= k < i ==> b[k] != NUL
    requires forall k :: at < k < i ==> b[k] != NEWLINE
    requires at >= 0 ==> b[at] == NEWLINE
    ensures LastNewlineAt(b, at)
  {
    var rest := if at < 0 then b else b[at + 1..];
    forall k | 0 <= k < |rest| && rest[k] == NEWLINE
      ensures NUL in rest[..k]
    {
      assert rest[..k][i - (at + 1)] == NUL;
    }
  }
}
