/** The arithmetic of the rewind ring and the bytes that pushing an entry writes. */
module RingBytes {
  import opened Bytes
  import opened Delta
  import opened DeltaCodec
  import opened RingHistory

  /** Bytes from the head to the link in front of the tail, going forward. */
  function Remaining(tail: nat, head: nat, capacity: nat): nat
    requires 0 < capacity
  {
    (tail + capacity - SIZE_BYTES - head - 1) % capacity + 1
  }

  /** The first position from `k` on that may be the tail: the largest entry fits
      between head and tail, or nothing is left to discard. */
  function FirstFit(pos: seq<nat>, k: nat, capacity: nat, maxcomp: nat): (r: nat)
    requires 0 < capacity && k < |pos|
    ensures k <= r < |pos|
    decreases |pos| - k
  {
    if k + 1 == |pos| || Remaining(pos[k], pos[|pos| - 1], capacity) > maxcomp then k
    else FirstFit(pos, k + 1, capacity, maxcomp)
  }

  lemma ModShift(x: int, c: int)
    requires 0 <= x < c
    ensures x % c == x && (x + c) % c == x
  {
  }

  lemma RemainingValue(tail: nat, head: nat, capacity: nat)
    requires SIZE_BYTES <= tail && head < capacity && tail < capacity
    requires tail <= head < tail + capacity - SIZE_BYTES || head + SIZE_BYTES < tail
    ensures Remaining(tail, head, capacity)
         == if tail <= head then tail + capacity - SIZE_BYTES - head else tail - SIZE_BYTES - head
  {
    var x := tail - SIZE_BYTES - head - 1;
    if tail <= head {
      ModShift(x + capacity, capacity);
    } else {
      ModShift(x, capacity);
    }
  }

  lemma RemainingIs(h: History, capacity: nat, maxcomp: nat)
    requires h.WellFormed() && Placed(h, capacity, maxcomp) && SIZE_BYTES < maxcomp
    requires maxcomp + SIZE_BYTES <= capacity
    ensures h.Head() < capacity && h.Tail() < capacity
    ensures Remaining(h.Tail(), h.Head(), capacity)
         == if h.Wrapped() then h.Tail() - SIZE_BYTES - h.Head() else h.Tail() + capacity - SIZE_BYTES - h.Head()
  {
    var m := |h.patches|;
    assert Room(h, m, capacity, maxcomp) && Room(h, h.first, capacity, maxcomp);
    assert h.first < m ==> Ordered(h, h.first, m);
    RemainingValue(h.Tail(), h.Head(), capacity);
  }

  /** The ring after push_do has written the patch `d` behind `head`, the back link at
      `at`, and then the forward link. */
  function Written(buf: seq<Byte>, head: nat, at: nat, words: seq<Word>): (r: seq<Byte>)
    requires head + SIZE_BYTES + 2 * |words| <= |buf| && at + SIZE_BYTES <= |buf|
    ensures |r| == |buf|
  {
    var patched := Splice(buf, head + SIZE_BYTES, WordBytes(words));
    Splice(Splice(patched, at, SizeBytes(head)), head, SizeBytes(at + SIZE_BYTES))
  }

  lemma SpliceAt<T>(s: seq<T>, at: nat, t: seq<T>)
    requires at + |t| <= |s|
    ensures Splice(s, at, t)[at..at + |t|] == t
  {
  }

  lemma SpliceElsewhere<T>(s: seq<T>, at: nat, t: seq<T>, lo: nat, hi: nat)
    requires at + |t| <= |s| && lo <= hi <= |s| && (hi <= at || at + |t| <= lo)
    ensures Splice(s, at, t)[lo..hi] == s[lo..hi]
  {
  }

  lemma WrittenLinks(buf: seq<Byte>, head: nat, at: nat, words: seq<Word>)
    requires head + SIZE_BYTES + 2 * |words| <= |buf| < SIZE_LIMIT && at + SIZE_BYTES <= |buf|
    requires at == head + SIZE_BYTES + 2 * |words| || at + SIZE_BYTES <= head
    ensures var r := Written(buf, head, at, words);
      && SizeAt(r, head) == at + SIZE_BYTES && SizeAt(r, at) == head
      && Holds(r, head + SIZE_BYTES, words)
  {
    var patched := Splice(buf, head + SIZE_BYTES, WordBytes(words));
    var linked := Splice(patched, at, SizeBytes(head));
    var r := Splice(linked, head, SizeBytes(at + SIZE_BYTES));
    SizeBytesRoundTrip(head);
    SizeBytesRoundTrip(at + SIZE_BYTES);
    SpliceAt(linked, head, SizeBytes(at + SIZE_BYTES));
    SpliceAt(patched, at, SizeBytes(head));
    SpliceElsewhere(linked, head, SizeBytes(at + SIZE_BYTES), at, at + SIZE_BYTES);
    var lo, hi := head + SIZE_BYTES, head + SIZE_BYTES + 2 * |words|;
    SpliceAt(buf, lo, WordBytes(words));
    SpliceElsewhere(patched, at, SizeBytes(head), lo, hi);
    SpliceElsewhere(linked, head, SizeBytes(at + SIZE_BYTES), lo, hi);
  }

  lemma WrittenElsewhere(buf: seq<Byte>, head: nat, at: nat, words: seq<Word>, k: nat)
    requires head + SIZE_BYTES + 2 * |words| <= |buf| && at + SIZE_BYTES <= |buf| && k < |buf|
    requires (k < head || head + SIZE_BYTES + 2 * |words| <= k) && (k < at || at + SIZE_BYTES <= k)
    ensures Written(buf, head, at, words)[k] == buf[k]
  {
  }

  lemma WrittenEntry(buf: seq<Byte>, head: nat, at: nat, next: nat, d: Patch, older: State, newer: State)
    requires |buf| < SIZE_LIMIT && next == at + SIZE_BYTES <= |buf| && head + Body(d) <= |buf|
    requires Encodable(d) && Fits(d, 0, |newer|) && Apply(d, newer, 0) == older
    requires at == head + Body(d) || (at == 0 && SIZE_BYTES <= head)
    ensures Entry(Written(buf, head, at, Encode(d)), head, next, d, older, newer)
  {
    WrittenLinks(buf, head, at, Encode(d));
  }

  lemma WrittenSpares(buf: seq<Byte>, h: History, maxcomp: nat, at: nat, d: Patch, k: nat)
    requires h.WellFormed() && Placed(h, |buf|, maxcomp) && Encodable(d)
    requires h.Head() + Body(d) <= |buf| && at + SIZE_BYTES <= |buf|
    requires h.Wrapped() ==> h.Head() + Body(d) + SIZE_BYTES < h.Tail()
    requires at == h.Head() + Body(d) || (at == 0 && !h.Wrapped())
    requires k < |buf| && Live(h, k)
    ensures Written(buf, h.Head(), at, Encode(d))[k] == buf[k]
  {
    assert Room(h, h.first, |buf|, maxcomp);
    WrittenElsewhere(buf, h.Head(), at, Encode(d), k);
  }

  /** Appending an entry to a ring with more than `maxcomp` bytes to spare keeps what is
      retained and adds the entry, whether it ends behind its patch or at the start. */
  lemma AppendKeeps(buf: seq<Byte>, h: History, maxcomp: nat, at: nat, next: nat, d: Patch, state: State)
    requires Retained(buf, h, maxcomp) && maxcomp <= |buf| < SIZE_LIMIT && next == at + SIZE_BYTES
    requires Encodable(d) && Fits(d, 0, |state|) && Apply(d, state, 0) == h.states[|h.patches|]
    requires Body(d) + SIZE_BYTES <= maxcomp && h.Head() + Body(d) <= |buf|
    requires h.Wrapped() ==> h.Head() + SIZE_BYTES + maxcomp < h.Tail()
    requires || (at == h.Head() + Body(d) && at + maxcomp <= |buf|)
             || (at == 0 && !h.Wrapped() && h.Tail() > SIZE_BYTES && h.Head() + 2 * maxcomp > |buf|)
    ensures next <= |buf|
    ensures Retained(Written(buf, h.Head(), at, Encode(d)), h.Push(next, state, d), maxcomp)
  {
    assert Room(h, |h.patches|, |buf|, maxcomp);
    var now := Written(buf, h.Head(), at, Encode(d));
    WrittenEntry(buf, h.Head(), at, next, d, h.states[|h.patches|], state);
    forall k | 0 <= k < |buf| && Live(h, k) ensures now[k] == buf[k] {
      WrittenSpares(buf, h, maxcomp, at, d, k);
    }
    PushKeeps(buf, now, h, maxcomp, next, state, d);
  }

  // ---------------------------------------------------------------- the ring's operations

  /** Following the back link from the head: it leads to the newest entry, whose patch
      can be applied, and dropping that entry keeps the others. */
  lemma PopRing(buf: seq<Byte>, h: History, maxcomp: nat)
    requires Retained(buf, h, maxcomp) && !h.Empty()
    ensures var m := |h.patches|;
      var d, start := h.patches[m - 1], h.pos[m - 1];
      && SIZE_BYTES <= h.Head() <= |buf| && SizeAt(buf, h.Head() - SIZE_BYTES) == start
      && Encodable(d) && Holds(buf, start + SIZE_BYTES, Encode(d))
      && Fits(d, 0, |h.states[m]|) && Apply(d, h.states[m], 0) == h.states[m - 1]
    ensures Retained(buf, h.Pop(), maxcomp)
  {
    assert EntryAt(buf, h, |h.patches| - 1);
    PopKeeps(buf, h, maxcomp);
  }

  /** Following the forward link from the tail discards the oldest entry. */
  lemma EvictRing(buf: seq<Byte>, h: History, maxcomp: nat)
    requires Retained(buf, h, maxcomp) && !h.Empty()
    ensures h.Tail() + SIZE_BYTES <= |buf| && SizeAt(buf, h.Tail()) == h.Discard(h.first + 1).Tail()
    ensures Retained(buf, h.Discard(h.first + 1), maxcomp)
  {
    var first := h.first;
    assert EntryAt(buf, h, first);
    DiscardKeeps(buf, h, first + 1, maxcomp);
  }

  /** With room for the largest entry, a push that has to return to the start finds the
      ring unwrapped, and the tail at the start only if an entry lies there. `largest`
      bounds the body of any entry. */
  lemma RoomToAppend(h: History, capacity: nat, maxcomp: nat, body: nat, largest: nat)
    requires h.WellFormed() && Placed(h, capacity, maxcomp)
    requires SMALLEST <= body + SIZE_BYTES && body <= largest && largest + SIZE_BYTES <= maxcomp
    requires SIZE_BYTES + largest + maxcomp <= capacity
    requires Remaining(h.Tail(), h.Head(), capacity) > maxcomp
    ensures SIZE_BYTES <= h.Tail() && SIZE_BYTES <= h.Head() && h.Head() + body <= capacity
    ensures h.Wrapped() ==> h.Head() + SIZE_BYTES + maxcomp < h.Tail()
    ensures h.Head() + body + maxcomp > capacity ==>
      && !h.Wrapped()
      && (h.Tail() == SIZE_BYTES ==> !h.Empty() && h.Tail() + SIZE_BYTES <= h.Head() && h.pos[h.first + 1] > SIZE_BYTES)
  {
    var m, first := |h.patches|, h.first;
    RemainingIs(h, capacity, maxcomp);
    assert Room(h, m, capacity, maxcomp) && Room(h, first, capacity, maxcomp);
    if first < m {
      assert Ordered(h, first, first + 1) && Ordered(h, first, m);
    }
  }

  /** Where push_do puts the back link of an entry with this body. */
  function LinkAt(head: nat, body: nat, capacity: nat, maxcomp: nat): nat {
    if head + body + maxcomp > capacity then 0 else head + body
  }

  /** The oldest entry kept by a push that puts its back link at `at`. */
  function KeptFrom(h: History, at: nat): nat
    requires h.WellFormed()
  {
    if at == 0 && h.Tail() == SIZE_BYTES then h.first + 1 else h.first
  }

  lemma KeptRing(buf: seq<Byte>, h: History, maxcomp: nat, at: nat)
    requires Retained(buf, h, maxcomp) && (at == 0 && h.Tail() == SIZE_BYTES ==> !h.Empty())
    ensures KeptFrom(h, at) <= |h.patches| && Retained(buf, h.Discard(KeptFrom(h, at)), maxcomp)
    ensures at == 0 && h.Tail() == SIZE_BYTES ==>
      h.Tail() + SIZE_BYTES <= |buf| && SizeAt(buf, h.Tail()) == h.Discard(KeptFrom(h, at)).Tail()
  {
    if at == 0 && h.Tail() == SIZE_BYTES {
      EvictRing(buf, h, maxcomp);
    } else {
      assert h.Discard(h.first) == h;
    }
  }

  /** All that push_do does to a ring with room for the largest entry. */
  lemma AppendRing(buf: seq<Byte>, h: History, maxcomp: nat, largest: nat, d: Patch, state: State, at: nat, next: nat)
    requires Retained(buf, h, maxcomp) && |buf| < SIZE_LIMIT
    requires Encodable(d) && Fits(d, 0, |state|) && Apply(d, state, 0) == h.states[|h.patches|]
    requires Body(d) <= largest && largest + SIZE_BYTES <= maxcomp && SIZE_BYTES + largest + maxcomp <= |buf|
    requires Remaining(h.Tail(), h.Head(), |buf|) > maxcomp
    requires at == LinkAt(h.Head(), Body(d), |buf|, maxcomp) && next == at + SIZE_BYTES
    ensures h.Head() + Body(d) <= |buf| && next <= |buf| && KeptFrom(h, at) <= |h.patches|
    ensures Retained(Written(buf, h.Head(), at, Encode(d)), h.Discard(KeptFrom(h, at)).Push(next, state, d), maxcomp)
    ensures at == 0 && h.Tail() == SIZE_BYTES ==>
      h.Tail() + SIZE_BYTES <= h.Head() && SizeAt(buf, h.Tail()) == h.Discard(KeptFrom(h, at)).Tail()
  {
    RoomToAppend(h, |buf|, maxcomp, Body(d), largest);
    KeptRing(buf, h, maxcomp, at);
    var kept := h.Discard(KeptFrom(h, at));
    assert kept.Head() == h.Head() && kept.states == h.states && kept.patches == h.patches;
    AppendKeeps(buf, kept, maxcomp, at, next, d, state);
  }
}
