/** The bytes of the rewind ring seen as a history: where the entries lie, which states
    they lead back to, and what discarding, popping and pushing an entry keeps. */
module RingHistory {
  import opened Bytes
  import opened Delta
  import opened DeltaCodec

  type State = seq<Word>

  /** Every entry pushed and not popped, of which those before `first` have been
      discarded. Entry i lies between pos[i] and pos[i + 1], and its patch turns
      states[i + 1] back into states[i]; pos[first] is the tail, the last position the
      head. pos[wrap] is the position behind the last wrap, if there was one. */
  datatype History = History(pos: seq<nat>, states: seq<State>, patches: seq<Patch>, wrap: nat, first: nat) {
    predicate WellFormed() {
      |pos| == |states| == |patches| + 1 && wrap < |pos| && first < |pos|
    }

    function Tail(): nat
      requires WellFormed()
    {
      pos[first]
    }

    function Head(): nat
      requires WellFormed()
    {
      pos[|patches|]
    }

    /** No entry is retained. */
    predicate Empty()
      requires WellFormed()
    {
      first == |patches|
    }

    /** The head has wrapped and the tail has not followed yet. */
    predicate Wrapped() {
      first < wrap
    }

    /** The history with its oldest entries discarded. */
    function Discard(k: nat): (r: History)
      requires WellFormed() && first <= k <= |patches|
      ensures r.WellFormed()
    {
      this.(first := k)
    }

    /** The history without its newest entry. */
    function Pop(): (r: History)
      requires WellFormed() && !Empty()
      ensures r.WellFormed()
    {
      var m := |patches|;
      History(pos[..m], states[..m], patches[..m - 1], if wrap == m then 0 else wrap, first)
    }

    /** The history with one more entry, up to `next`. */
    function Push(next: nat, state: State, patch: Patch): (r: History)
      requires WellFormed()
      ensures r.WellFormed()
    {
      History(pos + [next], states + [state], patches + [patch], if next == SIZE_BYTES then |pos| else wrap, first)
    }
  }

  /** The size_t stored at `at`. */
  ghost function SizeAt(buf: seq<Byte>, at: nat): nat
    requires at + SIZE_BYTES <= |buf|
  {
    FromLittleEndian(buf[at..at + SIZE_BYTES])
  }

  /** Bytes of a stored entry up to its back link: the forward link and the patch. */
  function Body(d: Patch): nat {
    SIZE_BYTES + 2 * EncodedSize(d)
  }

  /** The entry from `from` to `to` leads from `newer` back to `older`. Its back link
      lies right before `to`, which is right behind the patch or at the buffer's start. */
  ghost predicate Entry(buf: seq<Byte>, from: nat, to: nat, d: Patch, older: State, newer: State) {
    && Encodable(d) && Fits(d, 0, |newer|) && Apply(d, newer, 0) == older
    && SIZE_BYTES <= to <= |buf| && from + Body(d) <= |buf|
    && (to == from + Body(d) + SIZE_BYTES || to == SIZE_BYTES)
    && SizeAt(buf, from) == to && SizeAt(buf, to - SIZE_BYTES) == from
    && Holds(buf, from + SIZE_BYTES, Encode(d))
  }

  ghost predicate EntryAt(buf: seq<Byte>, h: History, i: nat)
    requires h.WellFormed() && i < |h.patches|
  {
    Entry(buf, h.pos[i], h.pos[i + 1], h.patches[i], h.states[i], h.states[i + 1])
  }

  const SMALLEST := 3 * SIZE_BYTES - 2 // two links and an empty patch

  /** A position leaves room for the largest entry up to its back link, and no other
      position lies within the smallest entry from the start. */
  ghost predicate Room(h: History, i: nat, capacity: nat, maxcomp: nat)
    requires i < |h.pos|
  {
    && SIZE_BYTES <= h.pos[i] && h.pos[i] + maxcomp <= capacity + SIZE_BYTES
    && (h.pos[i] == SIZE_BYTES || h.pos[i] >= SIZE_BYTES + SMALLEST)
  }

  /** Positions on the same side of the wrap grow. */
  ghost predicate Ordered(h: History, i: nat, j: nat)
    requires i < j < |h.pos|
  {
    j < h.wrap || h.wrap <= i ==> h.pos[i] + SMALLEST <= h.pos[j]
  }

  /** An entry is not too large and ends right behind its back link, but for the wrap. */
  ghost predicate Sized(h: History, i: nat, maxcomp: nat)
    requires h.WellFormed() && i < |h.patches|
  {
    && Body(h.patches[i]) + SIZE_BYTES <= maxcomp
    && (i + 1 != h.wrap ==> h.pos[i + 1] == h.pos[i] + Body(h.patches[i]) + SIZE_BYTES)
  }

  /** How the retained entries lie in the ring; a head that wrapped stays behind the tail,
      and did so near the end. */
  ghost predicate Placed(h: History, capacity: nat, maxcomp: nat)
    requires h.WellFormed()
  {
    && (forall i :: h.first <= i < |h.pos| ==> Room(h, i, capacity, maxcomp))
    && (forall i, j :: h.first <= i < j < |h.pos| ==> Ordered(h, i, j))
    && (forall i :: h.first <= i < |h.patches| ==> Sized(h, i, maxcomp))
    && (h.Wrapped() ==> h.pos[h.wrap] == SIZE_BYTES && h.Head() + SIZE_BYTES < h.Tail())
    && (h.Wrapped() ==> h.pos[h.wrap - 1] + 2 * maxcomp > capacity)
  }

  /** The ring's bytes hold every entry from the tail to the head. */
  ghost predicate Retained(buf: seq<Byte>, h: History, maxcomp: nat) {
    && h.WellFormed() && Placed(h, |buf|, maxcomp)
    && forall i :: h.first <= i < |h.patches| ==> EntryAt(buf, h, i)
  }

  lemma DiscardPlaced(h: History, k: nat, capacity: nat, maxcomp: nat)
    requires h.WellFormed() && Placed(h, capacity, maxcomp) && h.first <= k <= |h.patches|
    ensures Placed(h.Discard(k), capacity, maxcomp)
  {
    var r := h.Discard(k);
    forall i | r.first <= i < |r.pos| ensures Room(r, i, capacity, maxcomp) {
      assert Room(h, i, capacity, maxcomp);
    }
    forall i, j | r.first <= i < j < |r.pos| ensures Ordered(r, i, j) {
      assert Ordered(h, i, j);
    }
    forall i | r.first <= i < |r.patches| ensures Sized(r, i, maxcomp) {
      assert Sized(h, i, maxcomp);
    }
    assert h.first < k < h.wrap ==> Ordered(h, h.first, k);
  }

  lemma DiscardKeeps(buf: seq<Byte>, h: History, k: nat, maxcomp: nat)
    requires Retained(buf, h, maxcomp) && h.first <= k <= |h.patches|
    ensures Retained(buf, h.Discard(k), maxcomp)
  {
    DiscardPlaced(h, k, |buf|, maxcomp);
    var r := h.Discard(k);
    forall i | r.first <= i < |r.patches| ensures EntryAt(buf, r, i) {
      assert EntryAt(buf, h, i);
    }
  }

  lemma PopPlaced(h: History, capacity: nat, maxcomp: nat)
    requires h.WellFormed() && Placed(h, capacity, maxcomp) && !h.Empty()
    ensures Placed(h.Pop(), capacity, maxcomp)
  {
    var r, m := h.Pop(), |h.patches|;
    forall i | r.first <= i < |r.pos| ensures Room(r, i, capacity, maxcomp) {
      assert Room(h, i, capacity, maxcomp);
    }
    forall i, j | r.first <= i < j < |r.pos| ensures Ordered(r, i, j) {
      assert Ordered(h, i, j);
    }
    forall i | r.first <= i < |r.patches| ensures Sized(r, i, maxcomp) {
      assert Sized(h, i, maxcomp);
    }
    if h.Wrapped() && h.wrap < m {
      assert Ordered(h, m - 1, m);
    }
  }

  lemma PopKeeps(buf: seq<Byte>, h: History, maxcomp: nat)
    requires Retained(buf, h, maxcomp) && !h.Empty()
    ensures Retained(buf, h.Pop(), maxcomp)
  {
    var r := h.Pop();
    PopPlaced(h, |buf|, maxcomp);
    forall i | r.first <= i < |r.patches| ensures EntryAt(buf, r, i) {
      assert EntryAt(buf, h, i);
    }
  }

  /** With no entry retained, the newest state can be replaced. */
  lemma ReplaceKeeps(buf: seq<Byte>, h: History, state: State, maxcomp: nat)
    requires Retained(buf, h, maxcomp) && h.Empty()
    ensures Retained(buf, h.(states := h.states[..|h.patches|] + [state]), maxcomp)
  {
    var r := h.(states := h.states[..|h.patches|] + [state]);
    assert Room(h, h.first, |buf|, maxcomp);
    assert Room(r, r.first, |buf|, maxcomp);
  }

  /** The bytes of retained entries; those before the tail and behind the head are free. */
  predicate Live(h: History, k: int)
    requires h.WellFormed()
  {
    if h.Wrapped() then k < h.Head() || h.Tail() <= k else h.Tail() <= k < h.Head()
  }

  lemma LiveEntry(buf: seq<Byte>, h: History, maxcomp: nat, i: nat, k: int)
    requires Retained(buf, h, maxcomp) && h.first <= i < |h.patches|
    requires h.pos[i] <= k < h.pos[i] + Body(h.patches[i]) || h.pos[i + 1] - SIZE_BYTES <= k < h.pos[i + 1]
    ensures Live(h, k)
  {
    assert EntryAt(buf, h, i) && Sized(h, i, maxcomp);
    assert h.first < i ==> Ordered(h, h.first, i);
    assert i + 1 < |h.patches| ==> Ordered(h, i + 1, |h.patches|);
  }

  lemma EntryFrame(buf: seq<Byte>, now: seq<Byte>, from: nat, to: nat, d: Patch, older: State, newer: State)
    requires Entry(buf, from, to, d, older, newer) && |now| == |buf|
    requires forall k :: from <= k < from + Body(d) || to - SIZE_BYTES <= k < to ==> now[k] == buf[k]
    ensures Entry(now, from, to, d, older, newer)
  {
    assert now[from..from + SIZE_BYTES] == buf[from..from + SIZE_BYTES];
    assert now[to - SIZE_BYTES..to] == buf[to - SIZE_BYTES..to];
    assert now[from + SIZE_BYTES..from + Body(d)] == buf[from + SIZE_BYTES..from + Body(d)];
  }

  /** Where a new entry may end: right behind its patch, clear of the tail, or at the
      start of a ring that has not wrapped and whose tail is elsewhere. */
  predicate MayEndAt(h: History, next: nat, d: Patch)
    requires h.WellFormed()
  {
    || (next == h.Head() + Body(d) + SIZE_BYTES && (h.Wrapped() ==> next + SIZE_BYTES < h.Tail()))
    || (next == SIZE_BYTES && !h.Wrapped() && h.Tail() > SIZE_BYTES)
  }

  lemma PushPlacedBehind(h: History, capacity: nat, maxcomp: nat, next: nat, state: State, d: Patch)
    requires h.WellFormed() && Placed(h, capacity, maxcomp)
    requires next == h.Head() + Body(d) + SIZE_BYTES && (h.Wrapped() ==> next + SIZE_BYTES < h.Tail())
    requires next + maxcomp <= capacity + SIZE_BYTES && Body(d) + SIZE_BYTES <= maxcomp
    ensures Placed(h.Push(next, state, d), capacity, maxcomp)
  {
    var r, m := h.Push(next, state, d), |h.patches|;
    assert Room(h, m, capacity, maxcomp);
    forall i | r.first <= i < |r.pos| ensures Room(r, i, capacity, maxcomp) {
      assert i <= m ==> Room(h, i, capacity, maxcomp);
    }
    forall i, j | r.first <= i < j < |r.pos| ensures Ordered(r, i, j) {
      assert j <= m ==> Ordered(h, i, j);
      assert i < m ==> Ordered(h, i, m);
    }
    forall i | r.first <= i < |r.patches| ensures Sized(r, i, maxcomp) {
      assert i < m ==> Sized(h, i, maxcomp);
    }
  }

  lemma PushPlacedAtStart(h: History, capacity: nat, maxcomp: nat, state: State, d: Patch)
    requires h.WellFormed() && Placed(h, capacity, maxcomp)
    requires !h.Wrapped() && h.Tail() > SIZE_BYTES && h.Head() + 2 * maxcomp > capacity
    requires maxcomp <= capacity && Body(d) + SIZE_BYTES <= maxcomp
    ensures Placed(h.Push(SIZE_BYTES, state, d), capacity, maxcomp)
  {
    var r, m := h.Push(SIZE_BYTES, state, d), |h.patches|;
    assert Room(h, h.first, capacity, maxcomp);
    forall i | r.first <= i < |r.pos| ensures Room(r, i, capacity, maxcomp) {
      assert i <= m ==> Room(h, i, capacity, maxcomp);
    }
    forall i, j | r.first <= i < j < |r.pos| ensures Ordered(r, i, j) {
      assert j <= m ==> Ordered(h, i, j);
    }
    forall i | r.first <= i < |r.patches| ensures Sized(r, i, maxcomp) {
      assert i < m ==> Sized(h, i, maxcomp);
    }
  }

  /** Writing a new entry into free bytes keeps every retained one. */
  lemma PushKeeps(buf: seq<Byte>, now: seq<Byte>, h: History, maxcomp: nat, next: nat, state: State, d: Patch)
    requires Retained(buf, h, maxcomp) && |now| == |buf|
    requires forall k :: 0 <= k < |buf| && Live(h, k) ==> now[k] == buf[k]
    requires MayEndAt(h, next, d) && next + maxcomp <= |buf| + SIZE_BYTES && Body(d) + SIZE_BYTES <= maxcomp
    requires next == SIZE_BYTES ==> h.Head() + 2 * maxcomp > |buf|
    requires Entry(now, h.Head(), next, d, h.states[|h.patches|], state)
    ensures Retained(now, h.Push(next, state, d), maxcomp)
  {
    var r := h.Push(next, state, d);
    if next == SIZE_BYTES {
      PushPlacedAtStart(h, |buf|, maxcomp, state, d);
    } else {
      PushPlacedBehind(h, |buf|, maxcomp, next, state, d);
    }
    forall i | r.first <= i < |r.patches| ensures EntryAt(now, r, i) {
      if i < |h.patches| {
        assert EntryAt(buf, h, i);
        forall k | h.pos[i] <= k < h.pos[i] + Body(h.patches[i]) || h.pos[i + 1] - SIZE_BYTES <= k < h.pos[i + 1]
          ensures now[k] == buf[k]
        {
          LiveEntry(buf, h, maxcomp, i, k);
        }
        EntryFrame(buf, now, h.pos[i], h.pos[i + 1], h.patches[i], h.states[i], h.states[i + 1]);
      }
    }
  }
}
