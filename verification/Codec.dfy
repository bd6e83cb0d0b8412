/** The codec's promises, state by state: when compressing and decompressing is the
    identity, and how large a patch gets. */
module Codec {
  import opened Bytes
  import opened Delta

  /** The patch that turns the state `dst` back into `src`, made from blocks with the
      unique words `u` and `v`. */
  function StatePatch(size: nat, src: seq<Word>, dst: seq<Word>, u: Word, v: Word): (d: Patch)
    requires |src| == |dst| == StateWords(size)
  {
    Diff(Block(size, src, u), Block(size, dst, v), 0, CodedWords(size))
  }

  /** Compression of this pair stays inside its blocks, the patch stays inside the
      state, and decompressing it onto `dst` gives `src`. */
  ghost predicate Survives(size: nat, src: seq<Word>, dst: seq<Word>, u: Word, v: Word)
    requires |src| == |dst| == StateWords(size)
  {
    var d := StatePatch(size, src, dst, u, v);
    && ScansInside(Block(size, src, u), Block(size, dst, v), 0, CodedWords(size))
    && Fits(d, 0, |dst|)
    && Apply(d, dst, 0) == src
  }

  /** The sizes the codec handles: the guard behind the state has room, and no jump
      exceeds 32 bits. */
  predicate GoodSize(size: nat) {
    (size % 4 == 0 || size % 4 == 3) && StateWords(size) <= U32_MAX + 1
  }

  /** Round trip, for every pair of states of a good size and any two unique words. */
  lemma RoundTrip(size: nat, src: seq<Word>, dst: seq<Word>, u: Word, v: Word)
    requires |src| == |dst| == StateWords(size) && u != v && GoodSize(size)
    ensures Survives(size, src, dst, u, v)
  {
    var a, b, s, n := Block(size, src, u), Block(size, dst, v), StateWords(size), CodedWords(size);
    GuardedBlocks(size, src, dst, u, v);
    ScansInsideGuarded(a, b, s, n, 0);
    DiffUndoes(a, b, s, n, 0);
    UndoesRestores(Diff(a, b, 0, n), a, b, 0, s);
    assert Mixed(a, b, 0, s) == dst && Mixed(a, b, s, s) == src;
  }

  /** The bytes state_manager_raw_compress writes never exceed state_manager_raw_maxsize. */
  lemma SizeBound(size: nat, src: seq<Word>, dst: seq<Word>, u: Word, v: Word)
    requires |src| == |dst| == StateWords(size) && u != v
    requires size % 4 == 0 || size % 4 == 3
    ensures Encodable(StatePatch(size, src, dst, u, v))
    ensures EncodedSize(StatePatch(size, src, dst, u, v)) <= MaxWords(size)
    ensures 2 * |Encode(StatePatch(size, src, dst, u, v))| <= RawMaxSize(size)
  {
    var a, b, s, n := Block(size, src, u), Block(size, dst, v), StateWords(size), CodedWords(size);
    GuardedBlocks(size, src, dst, u, v);
    DiffEncodable(a, b, 0, n);
    DiffSize(a, b, s, n);
    RawMaxSizeIsMaxWords(size);
  }

  /** A state of zeros, but for its last word. */
  function LastWord(size: nat, w: Word): (ws: seq<Word>)
    ensures |ws| == StateWords(size)
  {
    seq(StateWords(size), i => if i == StateWords(size) - 1 then w else 0)
  }

  /** States that differ in every word need every word of the bound. */
  lemma AllChangedPair(size: nat, u: Word, v: Word) returns (src: seq<Word>, dst: seq<Word>)
    requires u != v && (size % 4 == 0 || size % 4 == 3)
    ensures IsState(size, src) && IsState(size, dst) && EncodedSize(StatePatch(size, src, dst, u, v)) == MaxWords(size)
  {
    var s, n := StateWords(size), CodedWords(size);
    src, dst := seq(s, i => 1), seq(s, i => 0);
    var a, b := Block(size, src, u), Block(size, dst, v);
    GuardedBlocks(size, src, dst, u, v);
    forall k | 0 <= k < s ensures a[k] != b[k] {
      assert a[k] == src[k] && b[k] == dst[k];
    }
    AllChangedSize(a, b, s, n, 0, s);
  }

  /** The bound is reached. */
  lemma SizeBoundReached(size: nat, u: Word, v: Word)
    requires u != v && (size % 4 == 0 || size % 4 == 3)
    ensures exists src, dst ::
      (IsState(size, src) && IsState(size, dst) && EncodedSize(StatePatch(size, src, dst, u, v)) == MaxWords(size))
  {
    var src, dst := AllChangedPair(size, u, v);
  }

  /** Sizes 1 mod 4: the last byte lies behind the words that are compared. */
  lemma LastByteLost(size: nat, u: Word, v: Word)
    requires size % 4 == 1
    ensures !Survives(size, LastWord(size, 1), LastWord(size, 0), u, v)
  {
    var q := size / 4;
    assert size == 4 * q + 1 && BlockSize(size) == 4 * q;
    var src, dst := LastWord(size, 1), LastWord(size, 0);
    var a, b := Block(size, src, u), Block(size, dst, v);
    assert CodedWords(size) == 2 * q == |src| - 1;
    var d := FirstDiff(a, b, 0);
    assert a[2 * q] == src[2 * q] && b[2 * q] == dst[2 * q];
    assert forall k :: 0 <= k < 2 * q ==> a[k] == src[k] == 0 && b[k] == dst[k] == 0;
    FirstDiffFrom(a, b, 0, 2 * q);
    assert StatePatch(size, src, dst, u, v) == End;
    assert src[2 * q] != dst[2 * q];
  }

  lemma FirstDiffFrom(a: seq<Word>, b: seq<Word>, i: nat, d: nat)
    requires |a| == |b| && i <= d < |a| && a[d] != b[d]
    requires forall k :: i <= k < d ==> a[k] == b[k]
    ensures FirstDiff(a, b, i) == d
  {
    FirstDiffSame(a, b, i);
  }

  /** Sizes 2 mod 4: there is one guard word too few, so a run that starts on the last
      word steps over the sentinel. */
  lemma SentinelMissed(size: nat, u: Word, v: Word)
    requires size % 4 == 2 && u != v
    ensures !Survives(size, LastWord(size, 1), LastWord(size, 0), u, v)
  {
    var q := size / 4;
    assert size == 4 * q + 2 && BlockSize(size) == 4 * q + 1;
    var src, dst := LastWord(size, 1), LastWord(size, 0);
    var a, b, n := Block(size, src, u), Block(size, dst, v), CodedWords(size);
    assert n == 2 * q + 1 == |src| && SentinelAt(size) == 2 * q + 3 && |a| == 2 * q + 12;
    var p := 2 * q;
    assert a[p] == src[p] && b[p] == dst[p];
    forall k | 0 <= k < p ensures a[k] == b[k] {
      assert a[k] == src[k] && b[k] == dst[k];
    }
    FirstDiffFrom(a, b, 0, p);
    FirstDiffFrom(a, b, p, p);
    assert !Agree2(a, b, p) && !Agree2(a, b, p + 2) && Agree2(a, b, p + 4);
    assert EqualPair(a, b, p) == EqualPair(a, b, p + 2) == EqualPair(a, b, p + 4) == p + 4;
    assert SameStop(a, b, p) == p + 4;
    assert !RoundInside(a, b, p, n);
    if p > U16_MAX {
      assert NextRound(a, b, 0, n) == Far(p);
      assert !ScansInside(a, b, p, n);
    } else {
      assert !RoundInside(a, b, 0, n);
    }
  }

  lemma ShortJump(src: seq<Word>, dst: seq<Word>)
    requires |src| == |dst| > U32_MAX + 1 && src[U32_MAX] == 0
    ensures var d := Jump(U32_MAX, Run(0, [1], End)); Fits(d, 0, |dst|) && Apply(d, dst, 0) != src
  {
    var last := Run(0, [1], End);
    assert Apply(End, Splice(dst, U32_MAX, [1]), U32_MAX + 1)[U32_MAX] == 1;
    assert Apply(last, dst, U32_MAX)[U32_MAX] == 1;
  }

  /** States of more than 2^32 words: the clamp writes a jump that is too short. */
  lemma FarJumpTooShort(size: nat, u: Word, v: Word)
    requires size % 4 == 0 || size % 4 == 3
    requires StateWords(size) > U32_MAX + 1 && u != v
    ensures !Survives(size, LastWord(size, 1), LastWord(size, 0), u, v)
  {
    var src, dst := LastWord(size, 1), LastWord(size, 0);
    var a, b, s, n := Block(size, src, u), Block(size, dst, v), StateWords(size), CodedWords(size);
    GuardedBlocks(size, src, dst, u, v);
    var p := s - 1;
    assert a[p] == src[p] && b[p] == dst[p];
    forall k | 0 <= k < p ensures a[k] == b[k] {
      assert a[k] == src[k] && b[k] == dst[k];
    }
    FirstDiffFrom(a, b, 0, p);
    FirstDiffFrom(a, b, p, p);
    SameStopGuarded(a, b, s, n, p);
    DiffGuarded(a, b, s, n, s);
    assert NextRound(a, b, s, n) == Done && Diff(a, b, s, n) == End;
    assert NextRound(a, b, p, n) == Near(p, s) && Diff(a, b, p, n) == Run(0, a[p..s], End);
    assert NextRound(a, b, 0, n) == Far(p) && StatePatch(size, src, dst, u, v) == Jump(U32_MAX, Run(0, a[p..s], End));
    assert a[p..s] == [1];
    ShortJump(src, dst);
  }

  /** The codec restores every pair of states exactly for the sizes that leave room
      for the guard and stay within 32-bit jumps. */
  lemma RoundTripIffGoodSize(size: nat, u: Word, v: Word)
    requires u != v
    ensures (size % 4 == 0 || size % 4 == 3) && (size + 1) / 2 <= 0x1_0000_0000
       <==> forall src, dst | IsState(size, src) && IsState(size, dst) :: Survives(size, src, dst, u, v)
  {
    if GoodSize(size) {
      forall src, dst | IsState(size, src) && IsState(size, dst)
        ensures Survives(size, src, dst, u, v)
      {
        RoundTrip(size, src, dst, u, v);
      }
    } else {
      assert IsState(size, LastWord(size, 1)) && IsState(size, LastWord(size, 0));
      if size % 4 == 1 {
        LastByteLost(size, u, v);
      } else if size % 4 == 2 {
        SentinelMissed(size, u, v);
      } else {
        FarJumpTooShort(size, u, v);
      }
    }
  }
}
