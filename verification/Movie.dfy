/** Movie recording and playback: a ring of file positions, one for every frame, kept in step
    with the rewind buffer. */
module Movie {
  import opened RingPointers

  const FRAMES := 0x10_0000 // 1 << 20
  const HEADER := 16 // four 32-bit words

  // ---------------------------------------------------------------- the ring of positions

  /** Where the file stood at the start of each frame since the movie's start. */
  type Starts = seq<nat>

  ghost predicate Growing(starts: Starts, origin: nat) {
    forall k :: 0 <= k < |starts| ==> FromOrigin(starts, origin, k)
  }

  ghost predicate FromOrigin(starts: Starts, origin: nat, k: nat)
    requires k < |starts|
  {
    origin <= starts[k] && (k == 0 ==> starts[k] == origin) && forall j :: 0 <= j < k ==> starts[j] <= starts[k]
  }

  /** The slot of frame `k` holds its position. */
  ghost predicate InSlot(slots: seq<nat>, starts: Starts, k: nat)
    requires |slots| == FRAMES && k < |starts|
  {
    slots[k % FRAMES] == starts[k]
  }

  /** The last 2^20 frames are in their slots. */
  ghost predicate Slots(slots: seq<nat>, starts: Starts) {
    |slots| == FRAMES && forall k :: 0 <= k < |starts| && |starts| <= k + FRAMES ==> InSlot(slots, starts, k)
  }

  lemma SlotsNext(slots: seq<nat>, starts: Starts, pos: nat)
    requires Slots(slots, starts)
    ensures Slots(slots[|starts| % FRAMES := pos], starts + [pos])
  {
    var n := |starts|;
    var after, next := slots[n % FRAMES := pos], starts + [pos];
    forall k | 0 <= k < |next| && |next| <= k + FRAMES
      ensures InSlot(after, next, k)
    {
      if k < n {
        OtherSlot(k, n, FRAMES);
        assert InSlot(slots, starts, k);
      }
    }
  }

  /** Writing a frame's position into its slot again changes nothing. */
  lemma SlotsAgain(slots: seq<nat>, starts: Starts, k: nat)
    requires Slots(slots, starts) && k < |starts| <= k + FRAMES
    ensures slots[k % FRAMES := starts[k]] == slots
  {
    assert InSlot(slots, starts, k);
  }

  // ---------------------------------------------------------------- how a rewind follows the frames

  /** The next frame to run is frame `c` of the movie. */
  ghost predicate Normal(slots: seq<nat>, ptr: nat, starts: Starts, c: nat) {
    Slots(slots, starts) && ptr == c % FRAMES
  }

  /** The rewind has met the start of the file, and every frame before `c` began there. */
  ghost predicate Stuck(slots: seq<nat>, ptr: nat, starts: Starts, c: nat, origin: nat) {
    && |slots| == FRAMES && slots[0] == origin && ptr <= 1 && c <= |starts|
    && forall k :: 0 <= k < c ==> starts[k] == origin
  }

  /** The number of frames is a multiple of 2^20 and slot 0 still holds the position of the
      movie's start, though the file has moved on since. */
  predicate Misses(starts: Starts, origin: nat) {
    var n := |starts|;
    n >= FRAMES && n % FRAMES == 0 && starts[n - FRAMES] == origin && starts[n - 1] != origin
  }

  ghost predicate Follows(slots: seq<nat>, ptr: nat, starts: Starts, c: nat, origin: nat) {
    Misses(starts, origin) || Normal(slots, ptr, starts, c) || Stuck(slots, ptr, starts, c, origin)
  }

  predicate AtBeginning(slots: seq<nat>, ptr: nat, origin: nat) {
    |slots| == FRAMES && ptr <= 1 && slots[0] == origin
  }

  /** Slot 0 belongs to the last frame whose number is a multiple of 2^20. */
  lemma SlotZero(slots: seq<nat>, starts: Starts) returns (k: nat)
    requires Slots(slots, starts) && |starts| > 0
    ensures k < |starts| <= k + FRAMES && k % FRAMES == 0 && slots[0] == starts[k]
  {
    var n := |starts|;
    var q := (n - 1) / FRAMES;
    k := FRAMES * q;
    ModOf(k, q, 0, FRAMES);
    assert InSlot(slots, starts, k);
  }

  lemma {:induction false} GrowingOrder(starts: Starts, origin: nat, j: nat, k: nat)
    requires Growing(starts, origin) && j <= k < |starts|
    ensures origin <= starts[j] <= starts[k]
  {
    assert FromOrigin(starts, origin, j);
    assert FromOrigin(starts, origin, k);
  }

  /** The shortcut taken at the beginning is right unless the movie misses. */
  lemma BeginningIsRight(slots: seq<nat>, ptr: nat, starts: Starts, c: nat, t: nat, origin: nat)
    requires Growing(starts, origin) && Normal(slots, ptr, starts, c) && !Misses(starts, origin)
    requires t < c <= |starts| && AtBeginning(slots, ptr, origin)
    ensures Stuck(slots, 0, starts, t + 1, origin)
  {
    var n := |starts|;
    var k := SlotZero(slots, starts);
    if t > k {
      assert c % FRAMES == 0;
      assert c == k + FRAMES == n by {
        assert k < c - 1 < k + FRAMES;
      }
      assert starts[n - 1] == origin;
      GrowingOrder(starts, origin, t, n - 1);
    } else {
      GrowingOrder(starts, origin, t, k);
    }
    forall j | 0 <= j < t + 1
      ensures starts[j] == origin
    {
      GrowingOrder(starts, origin, j, t);
    }
  }

  class BsvMovie {
    const framePos: array<nat>
    const stateSize: nat
    const minFilePos: nat := HEADER + stateSize
    const playback: bool
    var framePtr: nat
    var firstRewind: bool
    var didRewind: bool
    /** The file, of which only the position matters. */
    var filePos: nat

    /** The positions at which the frames started. */
    ghost var starts: Starts
    /** How many frames the current rewind has gone back. */
    ghost var steps: nat

    /** Between frames: frame `Next()` runs next. */
    ghost predicate Valid()
      reads this, framePos
    {
      && framePos.Length == FRAMES && framePtr < FRAMES && !didRewind && steps <= |starts|
      && Growing(starts, minFilePos)
      && if steps == 0 then
           && Normal(framePos[..], framePtr, starts, |starts|) && (|starts| > 0 ==> firstRewind)
           && (if starts == [] then filePos == minFilePos else starts[|starts| - 1] <= filePos)
         else
           !firstRewind && Follows(framePos[..], framePtr, starts, Next(), minFilePos)
    }

    ghost function Next(): nat
      requires steps <= |starts|
      reads this`starts, this`steps
    {
      if steps == 0 then |starts| else |starts| - steps + 1
    }

    /** The frame that the current rewind has gone back to. */
    ghost predicate Back()
      reads this, framePos
    {
      && framePos.Length == FRAMES && framePtr < FRAMES && 0 < steps <= |starts| && steps <= FRAMES
      && Growing(starts, minFilePos)
      && var t := |starts| - steps;
      || Misses(starts, minFilePos)
      || Normal(framePos[..], framePtr, starts, t)
      || (Stuck(framePos[..], framePtr, starts, t + 1, minFilePos) && framePtr == 0)
    }

    /** The file stands where the frame the rewind has gone back to began. */
    ghost predicate Rewound()
      reads this, framePos
    {
      && Back() && didRewind
      && (!Misses(starts, minFilePos) ==> filePos == starts[|starts| - steps])
    }

    /** Inside a frame, its start recorded. */
    ghost predicate Running()
      reads this, framePos
    {
      if didRewind then Back()
      else
        && steps == 0 && framePos.Length == FRAMES && framePtr < FRAMES
        && Growing(starts, minFilePos) && |starts| > 0 && starts[|starts| - 1] <= filePos
        && Normal(framePos[..], framePtr, starts, |starts| - 1)
    }

    /** bsv_movie_init */
    constructor (stateSize: nat, playback: bool)
      ensures Valid() && starts == [] && steps == 0 && fresh(framePos) && framePos.Length == 0x10_0000
      ensures filePos == minFilePos == 16 + stateSize && framePos[0] == filePos
      ensures this.stateSize == stateSize && this.playback == playback
    {
      this.stateSize, this.playback := stateSize, playback;
      framePos := new nat[FRAMES](_ => 0);
      framePtr, firstRewind, didRewind, filePos := 0, false, false, HEADER + stateSize;
      starts, steps := [], 0;
      new;
      framePos[0] := minFilePos;
    }

    /** bsv_movie_set_frame_start */
    method SetFrameStart()
      requires (Valid() && steps == 0) || Rewound()
      modifies framePos, this`starts
      ensures Running()
      ensures starts == if didRewind then old(starts) else old(starts) + [filePos]
    {
      ghost var slots := framePos[..];
      framePos[framePtr] := filePos;
      assert framePos[..] == slots[framePtr := filePos];
      if didRewind {
        var t := |starts| - steps;
        if !Misses(starts, minFilePos) && Normal(slots, framePtr, starts, t) {
          SlotsAgain(slots, starts, t);
        }
      } else {
        SlotsNext(slots, starts, filePos);
        GrowingNext(starts, minFilePos, filePos);
        starts := starts + [filePos];
      }
    }

    /** A frame reads or writes inputs: bsv_movie_get_input, bsv_movie_set_input. */
    method Inputs(count: nat)
      requires Running()
      modifies this`filePos
      ensures Running() && filePos == old(filePos) + 2 * count
    {
      filePos := filePos + 2 * count;
    }

    /** bsv_movie_set_frame_end */
    method SetFrameEnd()
      requires Running()
      modifies this`framePtr, this`firstRewind, this`didRewind
      ensures Valid()
    {
      NextPtr(if didRewind then |starts| - steps else |starts| - 1, FRAMES);
      framePtr := (framePtr + 1) % FRAMES;
      firstRewind := !didRewind;
      didRewind := false;
    }

    /** What the frame loop does with the movie around one run of the core. */
    method Around(count: nat)
      requires (Valid() && steps == 0) || Rewound()
      modifies this, framePos
      ensures Valid() && steps == old(steps)
      ensures starts == if old(didRewind) then old(starts) else old(starts) + [old(filePos)]
    {
      SetFrameStart();
      Inputs(count);
      SetFrameEnd();
    }

    /** bsv_movie_frame_rewind: in one uninterrupted rewind of at most 2^20 frames, each step
        seeks to the start of the frame before; unless the movie misses, when the first step
        already seeks to the beginning instead. */
    method FrameRewind()
      requires Valid() && steps < |starts| && steps < FRAMES
      modifies this`framePtr, this`didRewind, this`filePos, this`steps
      ensures Rewound() && steps == old(steps) + 1
      ensures !Misses(starts, minFilePos) ==> filePos == starts[|starts| - steps]
      ensures Misses(starts, minFilePos) && old(steps) == 0 ==> filePos == minFilePos != starts[|starts| - steps]
    {
      ghost var c, t := Next(), |starts| - steps - 1;
      ghost var slots := framePos[..];
      StartIsFirst(starts, minFilePos);
      assert Misses(starts, minFilePos) && steps == 0 ==> InSlot(slots, starts, |starts| - FRAMES);
      didRewind := true;
      if framePtr <= 1 && framePos[0] == minFilePos {
        if Normal(slots, framePtr, starts, c) && !Misses(starts, minFilePos) {
          BeginningIsRight(slots, framePtr, starts, c, t, minFilePos);
        }
        framePtr := 0;
        filePos := minFilePos;
      } else {
        var back := if firstRewind then 1 else 2;
        BackBy(c, back, FRAMES);
        framePtr := (framePtr + FRAMES - back) % FRAMES;
        filePos := framePos[framePtr];
        assert Normal(slots, framePtr, starts, t) ==> InSlot(slots, starts, t);
      }
      if filePos <= minFilePos {
        SeekFirst();
      }
      steps := steps + 1;
    }

    /** Back at the first frame: the header is passed over, and a recording writes its state
        again. */
    method SeekFirst()
      modifies this`filePos
      ensures filePos == minFilePos
    {
      if !playback {
        filePos := HEADER;
        filePos := filePos + stateSize;
      } else {
        filePos := minFilePos;
      }
    }
  }

  lemma GrowingNext(starts: Starts, origin: nat, pos: nat)
    requires Growing(starts, origin) && (if starts == [] then pos == origin else starts[|starts| - 1] <= pos)
    ensures Growing(starts + [pos], origin)
  {
    var next, n := starts + [pos], |starts|;
    forall k | 0 <= k < |next|
      ensures FromOrigin(next, origin, k)
    {
      if k < n {
        assert FromOrigin(starts, origin, k);
      } else if n > 0 {
        assert FromOrigin(starts, origin, n - 1);
        forall j | 0 <= j < n
          ensures starts[j] <= pos
        {
          GrowingOrder(starts, origin, j, n - 1);
        }
      }
    }
  }

  lemma StartIsFirst(starts: Starts, origin: nat)
    requires Growing(starts, origin) && |starts| > 0
    ensures starts[0] == origin && forall k :: 0 <= k < |starts| ==> starts[k] >= origin
  {
    assert FromOrigin(starts, origin, 0);
    forall k | 0 <= k < |starts|
      ensures starts[k] >= origin
    {
      assert FromOrigin(starts, origin, k);
    }
  }

  lemma BackBy(c: nat, back: nat, n: nat)
    requires back <= c && back <= n && 0 < n
    ensures (c % n + n - back) % n == (c - back) % n
  {
    var q, r := c / n, c % n;
    assert c == n * q + r;
    var x := r + n - back;
    var k, s := x / n, x % n;
    assert x == n * k + s;
    assert c - back == n * (q - 1 + k) + s by {
      assert n * (q - 1 + k) == n * q - n + n * k;
    }
    assert q - 1 + k >= 0 by {
      if q - 1 + k < 0 {
        MultipleAtMost(n, q - 1 + k);
      }
    }
    ModOf(c - back, q - 1 + k, s, n);
  }
}
