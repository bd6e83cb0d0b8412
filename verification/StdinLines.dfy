/** Commands on standard input: lines put together from whatever chunks the reads return. */
module StdinLines {
  import opened Bytes

  const NEWLINE: Byte := 10
  const NUL: Byte := 0
  const STDIN_BUF_SIZE := 4096

  // ---------------------------------------------------------------- one character at a time

  /** The lines handed on and the bytes still waiting in the buffer. */
  datatype State = State(lines: seq<seq<Byte>>, pending: seq<Byte>)

  function WithLine(lines: seq<seq<Byte>>, line: seq<Byte>): seq<seq<Byte>> {
    if line == [] then lines else lines + [line]
  }

  /** A newline ends a line unless a NUL hides it; a full buffer without a line is dropped. */
  function Feed(s: State, c: Byte): State {
    if c == NEWLINE && NUL !in s.pending then State(WithLine(s.lines, s.pending), [])
    else if |s.pending| + 1 == STDIN_BUF_SIZE - 1 then s.(pending := [])
    else s.(pending := s.pending + [c])
  }

  function FeedAll(s: State, stream: seq<Byte>): State {
    if stream == [] then s else Feed(FeedAll(s, stream[..|stream| - 1]), stream[|stream| - 1])
  }

  lemma {:induction false} FeedTwo(s: State, a: seq<Byte>, b: seq<Byte>)
    ensures FeedAll(s, a + b) == FeedAll(FeedAll(s, a), b)
  {
    if b == [] {
      assert a + b == a;
    } else {
      var b' := b[..|b| - 1];
      FeedTwo(s, a, b');
      assert (a + b)[..|a + b| - 1] == a + b';
    }
  }

  // ---------------------------------------------------------------- lines of a stream

  /** The terminated lines of a stream, empty ones included, and what follows the last of them. */
  datatype Split = Split(lines: seq<seq<Byte>>, tail: seq<Byte>)

  function SplitLines(stream: seq<Byte>): Split {
    if stream == [] then Split([], [])
    else
      var s, c := SplitLines(stream[..|stream| - 1]), stream[|stream| - 1];
      if c == NEWLINE then Split(s.lines + [s.tail], []) else s.(tail := s.tail + [c])
  }

  function NonEmpty(lines: seq<seq<Byte>>): (r: seq<seq<Byte>>) {
    if lines == [] then [] else WithLine(NonEmpty(lines[..|lines| - 1]), lines[|lines| - 1])
  }

  /** The other lines stay, in their order. */
  lemma {:induction false} NonEmptyKeeps(a: seq<seq<Byte>>, line: seq<Byte>, b: seq<seq<Byte>>)
    ensures NonEmpty(a + [line] + b) == NonEmpty(a) + (if line == [] then [] else [line]) + NonEmpty(b)
    decreases |b|
  {
    var all := a + [line] + b;
    if b == [] {
      assert all == a + [line] && (a + [line])[..|a|] == a;
    } else {
      var n := |b| - 1;
      assert all[..|all| - 1] == a + [line] + b[..n];
      NonEmptyKeeps(a, line, b[..n]);
    }
  }

  function Terminated(lines: seq<seq<Byte>>): seq<Byte> {
    if lines == [] then [] else Terminated(lines[..|lines| - 1]) + lines[|lines| - 1] + [NEWLINE]
  }

  /** Splitting loses nothing and splits at every newline. */
  lemma {:induction false} SplitIsSplit(stream: seq<Byte>)
    ensures var s := SplitLines(stream);
      && Terminated(s.lines) + s.tail == stream
      && 10 !in s.tail && forall line :: line in s.lines ==> 10 !in line
  {
    if stream != [] {
      var before := stream[..|stream| - 1];
      SplitIsSplit(before);
      var s := SplitLines(before);
      assert (s.lines + [s.tail])[..|s.lines|] == s.lines;
      assert stream == before + [stream[|stream| - 1]];
    }
  }

  function HandedOn(stream: seq<Byte>): State {
    FeedAll(State([], []), stream)
  }

  // ---------------------------------------------------------------- when nothing is lost

  predicate LineFits(line: seq<Byte>) {
    |line| + 1 <= STDIN_BUF_SIZE - 1 && NUL !in line
  }

  function TotalLength(lines: seq<seq<Byte>>): nat {
    if lines == [] then 0 else TotalLength(lines[..|lines| - 1]) + |lines[|lines| - 1]|
  }

  ghost predicate AllFit(lines: seq<seq<Byte>>) {
    forall line :: line in lines ==> LineFits(line)
  }

  ghost predicate NoNul(lines: seq<seq<Byte>>) {
    forall line :: line in lines ==> NUL !in line
  }

  lemma TotalNext(lines: seq<seq<Byte>>, line: seq<Byte>)
    ensures TotalLength(lines + [line]) == TotalLength(lines) + |line| == TotalLength(WithLine(lines, line))
    ensures NonEmpty(lines + [line]) == WithLine(NonEmpty(lines), line)
    ensures NoNul(lines + [line]) <==> NoNul(lines) && NUL !in line
    ensures AllFit(lines + [line]) <==> AllFit(lines) && LineFits(line)
    ensures NoNul(WithLine(lines, line)) <==> NoNul(lines) && NUL !in line
  {
    assert (lines + [line])[..|lines|] == lines;
    assert line in lines + [line];
    assert forall l :: l in lines ==> l in lines + [line];
  }

  /** A handed-on line never holds a NUL. */
  lemma {:induction false} HandedOnHasNoNul(stream: seq<Byte>)
    ensures NoNul(HandedOn(stream).lines)
  {
    if stream != [] {
      var before := stream[..|stream| - 1];
      HandedOnHasNoNul(before);
      TotalNext(HandedOn(before).lines, HandedOn(before).pending);
    }
  }

  /** As long as no terminated line holds a NUL, what is handed on falls short of the lines by
      exactly what was dropped from lines that are too long. */
  lemma {:induction false} Shortfall(stream: seq<Byte>)
    requires NoNul(SplitLines(stream).lines)
    ensures var s, h := SplitLines(stream), HandedOn(stream);
      && (NUL !in s.tail ==> |h.pending| == |s.tail| % (STDIN_BUF_SIZE - 1) && NUL !in h.pending)
      && (NUL !in s.tail && |s.tail| < STDIN_BUF_SIZE - 1 ==> h.pending == s.tail)
      && TotalLength(h.lines) <= TotalLength(s.lines)
      && (TotalLength(h.lines) == TotalLength(s.lines) <==> AllFit(s.lines))
      && (AllFit(s.lines) ==> h.lines == NonEmpty(s.lines))
  {
    if stream != [] {
      var before, c := stream[..|stream| - 1], stream[|stream| - 1];
      var s, h := SplitLines(before), HandedOn(before);
      if c == NEWLINE {
        TotalNext(s.lines, s.tail);
        TotalNext(h.lines, h.pending);
      }
      Shortfall(before);
    }
  }

  lemma {:induction false} NonEmptyTotal(lines: seq<seq<Byte>>)
    ensures TotalLength(NonEmpty(lines)) == TotalLength(lines)
  {
    if lines != [] {
      var before, line := lines[..|lines| - 1], lines[|lines| - 1];
      NonEmptyTotal(before);
      if line != [] {
        assert (NonEmpty(before) + [line])[..|NonEmpty(before)|] == NonEmpty(before);
      }
    }
  }

  lemma {:induction false} NonEmptyNoNul(lines: seq<seq<Byte>>)
    ensures NoNul(NonEmpty(lines)) <==> NoNul(lines)
  {
    if lines != [] {
      var before, line := lines[..|lines| - 1], lines[|lines| - 1];
      NonEmptyNoNul(before);
      assert lines == before + [line];
      TotalNext(before, line);
      TotalNext(NonEmpty(before), line);
    }
  }

  /** The lines handed on are the non-empty lines of the whole stream exactly when every
      terminated line, its newline included, is at most 4095 bytes long and free of NULs. */
  lemma HandedOnIsLines(stream: seq<Byte>)
    ensures HandedOn(stream).lines == NonEmpty(SplitLines(stream).lines)
       <==> forall line :: line in SplitLines(stream).lines ==> |line| + 1 <= 4095 && 0 !in line
  {
    var s, h := SplitLines(stream), HandedOn(stream);
    NonEmptyTotal(s.lines);
    NonEmptyNoNul(s.lines);
    HandedOnHasNoNul(stream);
    if NoNul(s.lines) {
      Shortfall(stream);
    }
  }

  // ---------------------------------------------------------------- a whole chunk at a time

  /** Every newline comes after a NUL, so none is found. */
  ghost predicate Quiet(b: seq<Byte>) {
    forall i :: 0 <= i < |b| && b[i] == NEWLINE ==> NUL in b[..i]
  }

  /** What one poll makes of the whole buffer `b`, when its last newline is at `at`. */
  ghost function Settled(lines: seq<seq<Byte>>, b: seq<Byte>, at: int): State
    requires -1 <= at < |b|
  {
    if at < 0 then State(lines, if |b| + 1 < STDIN_BUF_SIZE then b else [])
    else State(lines + NonEmpty(SplitLines(b[..at + 1]).lines), b[at + 1..])
  }

  /** The last newline before any NUL is at `at`. */
  ghost predicate LastNewlineAt(b: seq<Byte>, at: int) {
    -1 <= at < |b| && if at < 0 then Quiet(b) else b[at] == NEWLINE && NUL !in b[..at] && Quiet(b[at + 1..])
  }

  lemma {:induction false} FeedQuiet(s: State, t: seq<Byte>)
    requires Quiet(s.pending + t) && |s.pending + t| < STDIN_BUF_SIZE - 1
    ensures FeedAll(s, t) == s.(pending := s.pending + t)
  {
    if t == [] {
      assert s.pending + t == s.pending;
    } else {
      var t', b := t[..|t| - 1], s.pending + t;
      var b' := s.pending + t';
      assert b == b' + [t[|t| - 1]] && b[..|b'|] == b';
      forall i | 0 <= i < |b'| && b'[i] == NEWLINE
        ensures NUL in b'[..i]
      {
        assert b[i] == NEWLINE && b[..i] == b'[..i];
      }
      FeedQuiet(s, t');
    }
  }

  lemma {:induction false} NonEmptyNext(lines: seq<seq<Byte>>, more: seq<seq<Byte>>, line: seq<Byte>)
    ensures lines + NonEmpty(more + [line]) == WithLine(lines + NonEmpty(more), line)
  {
    assert (more + [line])[..|more|] == more;
  }

  lemma {:induction false} FeedLines(s: State, t: seq<Byte>)
    requires NUL !in s.pending + t && NEWLINE !in s.pending
    requires |s.pending + t| < STDIN_BUF_SIZE - 1
    ensures var b := SplitLines(s.pending + t);
      FeedAll(s, t) == State(s.lines + NonEmpty(b.lines), b.tail)
  {
    if t == [] {
      assert s.pending + t == s.pending;
      NoLines(s.pending);
    } else {
      var t', c := t[..|t| - 1], t[|t| - 1];
      var before := s.pending + t';
      assert s.pending + t == before + [c];
      assert forall x :: x in before ==> x in s.pending + t;
      FeedLines(s, t');
      var b := SplitLines(before);
      SplitIsSplit(before);
      assert NUL !in b.tail by {
        assert forall x :: x in b.tail ==> x in Terminated(b.lines) + b.tail;
      }
      assert |b.tail| <= |before|;
      NonEmptyNext(s.lines, b.lines, b.tail);
      assert (before + [c])[..|before|] == before;
    }
  }

  lemma {:induction false} NoLines(b: seq<Byte>)
    requires NEWLINE !in b
    ensures SplitLines(b) == Split([], b)
  {
    if b != [] {
      NoLines(b[..|b| - 1]);
      assert b == b[..|b| - 1] + [b[|b| - 1]];
    }
  }

  /** Treating a chunk at once gives what treating it byte by byte gives. */
  lemma ChunkIsFed(s: State, chunk: seq<Byte>, at: int)
    requires Quiet(s.pending) && |s.pending| < STDIN_BUF_SIZE - 1
    requires |s.pending + chunk| < STDIN_BUF_SIZE && LastNewlineAt(s.pending + chunk, at)
    ensures FeedAll(s, chunk) == Settled(s.lines, s.pending + chunk, at)
  {
    var b := s.pending + chunk;
    if at < 0 {
      QuietChunk(s, chunk);
    } else {
      NewlineIsNew(s.pending, b, at);
      var k := at - |s.pending|;
      var part, rest := chunk[..k], chunk[k + 1..];
      assert chunk == part + [NEWLINE] + rest;
      assert b[..at] == s.pending + part;
      assert b[..at + 1] == s.pending + part + [NEWLINE];
      assert b[at + 1..] == rest;
      LineChunk(s, part, rest);
    }
  }

  lemma QuietChunk(s: State, chunk: seq<Byte>)
    requires Quiet(s.pending + chunk) && |s.pending| < STDIN_BUF_SIZE - 1
    requires |s.pending + chunk| < STDIN_BUF_SIZE
    ensures FeedAll(s, chunk) == Settled(s.lines, s.pending + chunk, -1)
  {
    var b := s.pending + chunk;
    if |b| < STDIN_BUF_SIZE - 1 {
      FeedQuiet(s, chunk);
    } else {
      var start := chunk[..|chunk| - 1];
      QuietPrefix(b, s.pending + start);
      FeedQuiet(s, start);
      assert b[..|b| - 1] == s.pending + start;
    }
  }

  lemma LineChunk(s: State, part: seq<Byte>, rest: seq<Byte>)
    requires NUL !in s.pending + part && NEWLINE !in s.pending && Quiet(rest)
    requires |s.pending + part| + 1 + |rest| < STDIN_BUF_SIZE
    ensures FeedAll(s, part + [NEWLINE] + rest)
         == State(s.lines + NonEmpty(SplitLines(s.pending + part + [NEWLINE]).lines), rest)
  {
    LineIsFed(s, part);
    FeedTwo(s, part + [NEWLINE], rest);
    var after := FeedAll(s, part + [NEWLINE]);
    assert after.pending + rest == rest;
    FeedQuiet(after, rest);
  }

  lemma QuietPrefix(b: seq<Byte>, a: seq<Byte>)
    requires Quiet(b) && a <= b
    ensures Quiet(a)
  {
    forall i | 0 <= i < |a| && a[i] == NEWLINE
      ensures NUL in a[..i]
    {
      assert b[i] == NEWLINE && b[..i] == a[..i];
    }
  }

  /** A buffered byte is never the newline found: with no NUL before it, it would have been
      found before. */
  lemma NewlineIsNew(p: seq<Byte>, b: seq<Byte>, at: nat)
    requires Quiet(p) && p <= b && at < |b| && b[at] == NEWLINE && NUL !in b[..at]
    ensures |p| <= at && NEWLINE !in p
  {
    if at < |p| {
      QuietBefore(p, b, at, at);
    }
    forall i | 0 <= i < |p|
      ensures p[i] != NEWLINE
    {
      QuietBefore(p, b, at, i);
    }
  }

  lemma QuietBefore(p: seq<Byte>, b: seq<Byte>, at: nat, i: nat)
    requires Quiet(p) && p <= b && i <= at < |b| && NUL !in b[..at] && i < |p|
    ensures p[i] != NEWLINE
  {
    forall j | 0 <= j < i
      ensures p[..i][j] != NUL
    {
      assert b[..at][j] != NUL;
    }
  }

  lemma LineIsFed(s: State, part: seq<Byte>)
    requires NUL !in s.pending + part && NEWLINE !in s.pending
    requires |s.pending + part| < STDIN_BUF_SIZE - 1
    ensures FeedAll(s, part + [NEWLINE])
         == State(s.lines + NonEmpty(SplitLines(s.pending + part + [NEWLINE]).lines), [])
  {
    var b := s.pending + part;
    FeedLines(s, part);
    var before := SplitLines(b);
    assert (b + [NEWLINE])[..|b|] == b && (part + [NEWLINE])[..|part|] == part;
    SplitIsSplit(b);
    assert NUL !in before.tail by {
      assert forall x :: x in before.tail ==> x in Terminated(before.lines) + before.tail;
    }
    NonEmptyNext(s.lines, before.lines, before.tail);
  }
}
