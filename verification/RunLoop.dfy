/** The frame loop with a movie: every frame's state goes onto the rewind buffer and its file
    position into the movie's ring, and rewinding takes both back together. */
module RunLoop {
  import opened Bytes
  import opened Delta
  import opened Codec
  import Rewind
  import opened RingHistory
  import opened Movie

  lemma LastOff(saved: seq<State>, k: nat, pushed: seq<State>, last: State)
    requires k <= |saved| && saved[..k] == pushed + [last]
    ensures 0 < k && pushed == saved[..k - 1] && last == saved[k - 1]
  {
    assert |saved[..k]| == k && saved[..k][k - 1] == last && saved[..k][..k - 1] == pushed;
  }

  class Runner {
    const rewind: Rewind.StateManager
    const movie: BsvMovie
    var core: State
    /** `first` of check_rewind: its first call does nothing. */
    var first: bool

    /** The state before each frame since the movie's start. */
    ghost var saved: seq<State>

    ghost predicate Separate()
      reads this, rewind
    {
      && {movie, movie.framePos} !! {rewind, rewind.data, rewind.thisblock, rewind.nextblock}
      && this as object !in {movie, movie.framePos, rewind, rewind.data, rewind.thisblock, rewind.nextblock}
    }

    ghost predicate BufferOk()
      reads this, rewind, rewind.data, rewind.thisblock, rewind.nextblock
    {
      && Separate() && rewind.Valid() && !Rewind.StoresNothing(rewind.stateSize, rewind.capacity)
      && |core| == StateWords(rewind.stateSize)
    }

    /** Between iterations. */
    ghost predicate Valid()
      reads this, rewind, rewind.data, rewind.thisblock, rewind.nextblock, movie, movie.framePos
    {
      && BufferOk() && movie.Valid() && |saved| == |movie.starts|
      && (first <==> saved == [])
      && rewind.Pushed() == if first then [core] else saved[..|saved| - movie.steps]
    }

    /** After check_rewind, before the frame. */
    ghost predicate Ready()
      reads this, rewind, rewind.data, rewind.thisblock, rewind.nextblock, movie, movie.framePos
    {
      && BufferOk() && |saved| == |movie.starts| && !first
      && if movie.didRewind then
           && movie.Rewound() && rewind.Pushed() == saved[..|saved| - movie.steps]
           && core == saved[|saved| - movie.steps]
         else
           movie.Valid() && movie.steps == 0 && rewind.Pushed() == saved + [core]
    }

    /** A movie starts, and init_rewind saves the state it starts from. */
    constructor (size: nat, bufferSize: nat, start: State, playback: bool)
      requires GoodSize(size) && bufferSize < SIZE_LIMIT && Rewind.Roomy(size, bufferSize) && |start| == StateWords(size)
      requires !Rewind.StoresNothing(size, bufferSize)
      ensures Valid() && saved == [] && core == start && first
    {
      rewind := new Rewind.StateManager(size, bufferSize);
      movie := new BsvMovie(size, playback);
      core, first, saved := start, true, [];
      new;
      rewind.PushState(core);
    }

    /** The rewind key is held: the newest retained state comes back, and with it the file. */
    method StepBack() returns (ok: bool)
      requires Valid() && !first && movie.steps < FRAMES
      modifies this`core, rewind, rewind.thisblock, movie
      ensures Separate() && movie.starts == old(movie.starts)
      ensures ok <==> old(rewind.Lost()) < |saved| - old(movie.steps)
      ensures !ok ==> Valid()
      ensures ok ==>
        && Ready() && movie.didRewind && movie.steps == old(movie.steps) + 1
        && core == saved[|saved| - movie.steps]
        && (!Misses(movie.starts, movie.minFilePos) ==> movie.filePos == movie.starts[|saved| - movie.steps])
    {
      ok := Restore(|saved| - movie.steps);
      if ok {
        SeekBack();
      }
    }

    /** The buffer's part of it: of the first `k` states, the last one. */
    method Restore(ghost k: nat) returns (ok: bool)
      requires BufferOk() && k <= |saved| && rewind.Pushed() == saved[..k] && movie.Valid()
      modifies this`core, rewind, rewind.thisblock
      ensures BufferOk() && movie.Valid() && (ok <==> old(rewind.Lost()) < k)
      ensures ok ==> 0 < k && rewind.Pushed() == saved[..k - 1] && core == saved[k - 1]
      ensures !ok ==> core == old(core) && rewind.Pushed() == saved[..k]
    {
      ok := rewind.Pop();
      if ok {
        core := rewind.thisblock[..StateWords(rewind.stateSize)];
        LastOff(saved, k, rewind.Pushed(), core);
      }
    }

    /** The movie's part of it. */
    method SeekBack()
      requires BufferOk() && movie.Valid() && |saved| == |movie.starts| && !first
      requires movie.steps < FRAMES && movie.steps < |saved|
      requires rewind.Pushed() == saved[..|saved| - movie.steps - 1] && core == saved[|saved| - movie.steps - 1]
      modifies movie`framePtr, movie`didRewind, movie`filePos, movie`steps
      ensures Ready() && movie.didRewind && movie.steps == old(movie.steps) + 1
      ensures !Misses(movie.starts, movie.minFilePos) ==> movie.filePos == movie.starts[|saved| - movie.steps]
    {
      movie.FrameRewind();
    }

    /** check_rewind with a movie running. In one uninterrupted rewind after n frames, step i
        succeeds exactly if frame n - i is still retained; then it restores the state before
        that frame and seeks to where the frame began. */
    method CheckRewind(pressed: bool) returns (ok: bool)
      requires Valid() && (movie.steps == 0 || pressed) && movie.steps < FRAMES
      modifies this, rewind, rewind.data, rewind.thisblock, rewind.nextblock, movie
      ensures saved == old(saved) && movie.starts == old(movie.starts) && Separate()
      ensures old(first) || !pressed ==> ok && Ready() && !movie.didRewind && core == old(core)
      ensures pressed && !old(first) ==> (ok <==> old(rewind.Lost()) < |saved| - old(movie.steps))
      ensures pressed && !old(first) && !ok ==> Valid()
      ensures pressed && !old(first) && ok ==>
        && Ready() && movie.didRewind && movie.steps == old(movie.steps) + 1
        && core == saved[|saved| - movie.steps]
        && (!Misses(movie.starts, movie.minFilePos) ==> movie.filePos == movie.starts[|saved| - movie.steps])
    {
      ok := true;
      if first {
        first := false;
        return;
      }
      if pressed {
        ok := StepBack();
      } else {
        rewind.PushState(core);
      }
    }

    /** The frame itself: the core goes on to `next`, reading or writing `inputs` inputs. */
    method Frame(next: State, inputs: nat)
      requires Ready() && |next| == |core|
      modifies this`core, this`saved, movie, movie.framePos
      ensures Valid() && core == next && movie.steps == old(movie.steps)
      ensures saved == if old(movie.didRewind) then old(saved) else old(saved) + [old(core)]
      ensures movie.starts == if old(movie.didRewind) then old(movie.starts) else old(movie.starts) + [old(movie.filePos)]
    {
      ghost var again, pushed := movie.didRewind, rewind.Pushed();
      movie.Around(inputs);
      assert BufferOk() && rewind.Pushed() == pushed;
      if !again {
        saved := saved + [core];
      }
      core := next;
    }
  }
}
