/** Several rewinds in one movie of fewer than 2^20 frames: the rewind buffer as the stack of
    frame numbers whose states it holds, and the movie as the number of the next frame. */
module RewindEpisodes {
  /** `rewound` says that the last iteration was a rewind (first_rewind is then off). A ring
      that `stores` nothing refuses every state but the first. */
  datatype Sync = Sync(stores: bool, stack: seq<nat>, next: nat, rewound: bool)

  /** An ordinary iteration: the state before the frame is pushed, and the frame runs. */
  function Frame(s: Sync): Sync {
    s.(stack := if s.stores || s.stack == [] then s.stack + [s.next] else s.stack, next := s.next + 1, rewound := false)
  }

  /** The frame whose state a rewind restores. */
  function Restored(s: Sync): nat
    requires s.stack != []
  {
    s.stack[|s.stack| - 1]
  }

  /** The frame whose position the movie seeks: bsv_movie_frame_rewind. */
  function Sought(s: Sync): nat {
    if s.next <= 1 then 0 else s.next - (if s.rewound then 2 else 1)
  }

  /** An iteration with the rewind key held: the frame that is sought runs again. */
  function Back(s: Sync): Sync
    requires s.stack != []
  {
    s.(stack := s.stack[..|s.stack| - 1], next := Sought(s) + 1, rewound := true)
  }

  function Frames(s: Sync, n: nat): Sync {
    if n == 0 then s else Frame(Frames(s, n - 1))
  }

  function Backs(s: Sync, i: nat): (r: Sync)
    requires i <= |s.stack|
    ensures |r.stack| == |s.stack| - i
  {
    if i == 0 then s else Back(Backs(s, i - 1))
  }

  /** Consecutive numbers. */
  function UpFrom(k: nat, n: nat): (r: seq<nat>)
    ensures |r| == n
  {
    seq(n, j => k + j)
  }

  lemma {:induction false} FramesPush(s: Sync, n: nat)
    requires s.stores
    ensures Frames(s, n) == s.(stack := s.stack + UpFrom(s.next, n), next := s.next + n, rewound := n == 0 && s.rewound)
  {
    if n > 0 {
      FramesPush(s, n - 1);
      assert UpFrom(s.next, n) == UpFrom(s.next, n - 1) + [s.next + n - 1];
    } else {
      assert s.stack + UpFrom(s.next, 0) == s.stack;
    }
  }

  /** Within one rewind the movie goes back frame by frame. */
  lemma {:induction false} BacksStep(s: Sync, i: nat)
    requires 0 < i <= |s.stack| && i <= s.next && !s.rewound
    ensures Backs(s, i).stack == s.stack[..|s.stack| - i] && Backs(s, i).next == s.next - i + 1
    ensures Backs(s, i).rewound && Backs(s, i).stores == s.stores
    ensures Sought(Backs(s, i - 1)) == s.next - i
  {
    if i > 1 {
      BacksStep(s, i - 1);
    }
  }

  const START := Sync(true, [], 0, false)

  /** One rewind stays in step. */
  lemma OneRewindInStep(n: nat, i: nat)
    requires 0 < i <= n
    ensures var s := Frames(START, n);
      |s.stack| == n && Restored(Backs(s, i - 1)) == Sought(Backs(s, i - 1)) == n - i
  {
    FramesPush(START, n);
    var s := Frames(START, n);
    assert s.stack == UpFrom(0, n);
    BacksStep(s, i);
    if i > 1 {
      BacksStep(s, i - 1);
    }
  }

  /** After a first rewind by `i` frames and `m` more frames, the state of one frame is missing
      from the buffer. A second rewind is in step exactly until it reaches the place where the
      first one ended; from there on the movie is one frame ahead. */
  lemma SecondRewindInStep(n: nat, i: nat, m: nat, j: nat)
    requires 0 < i <= n && 0 < m && 0 < j <= n - i + m
    ensures |Frames(START, n).stack| == n
    ensures var s := Frames(Backs(Frames(START, n), i), m);
      && |s.stack| == n - i + m
      && (Restored(Backs(s, j - 1)) == Sought(Backs(s, j - 1)) <==> j <= m)
      && (j > m ==> Sought(Backs(s, j - 1)) == Restored(Backs(s, j - 1)) + 1)
  {
    FramesPush(START, n);
    var first := Frames(START, n);
    assert first.stack == UpFrom(0, n);
    BacksStep(first, i);
    var second := Backs(first, i);
    assert second.stack == UpFrom(0, n - i);
    FramesPush(second, m);
    var s := Frames(second, m);
    assert s.stack == UpFrom(0, n - i) + UpFrom(n - i + 1, m);
    BacksStep(s, j);
    if j > 1 {
      BacksStep(s, j - 1);
    }
  }

  lemma {:induction false} OnlyTheFirst(n: nat)
    ensures var s := Frames(START.(stores := false), n);
      s == Sync(false, if n == 0 then [] else [0], n, false)
  {
    if n > 0 {
      OnlyTheFirst(n - 1);
    }
  }

  /** A ring that stores nothing keeps the first state only, and rewinds in step with the movie
      exactly after one frame. */
  lemma NothingStored(n: nat)
    requires 0 < n
    ensures Frames(START.(stores := false), n).stack != []
    ensures Restored(Frames(START.(stores := false), n)) == Sought(Frames(START.(stores := false), n)) <==> n == 1
  {
    OnlyTheFirst(n);
  }
}
