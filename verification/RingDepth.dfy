/** How many states the rewind ring holds on to: a push drops old entries only when the ring
    is nearly as full as entries of the largest size can make it. */
module RingDepth {
  import opened Bytes
  import opened Delta
  import opened RingHistory
  import opened RingBytes

  /** Retained entries on one side of the wrap take up at most the largest size each. */
  lemma {:induction false} Stretch(h: History, capacity: nat, maxcomp: nat, i: nat, j: nat)
    requires h.WellFormed() && Placed(h, capacity, maxcomp)
    requires h.first <= i <= j < |h.pos| && (j < h.wrap || h.wrap <= i)
    ensures h.pos[j] <= h.pos[i] + (j - i) * maxcomp
    decreases j - i
  {
    if i < j {
      Stretch(h, capacity, maxcomp, i, j - 1);
      assert Sized(h, j - 1, maxcomp);
      assert (j - i) * maxcomp == (j - 1 - i) * maxcomp + maxcomp;
    }
  }

  /** A ring whose retained entries are few has room to spare. */
  lemma SpareRoom(h: History, capacity: nat, maxcomp: nat)
    requires h.WellFormed() && Placed(h, capacity, maxcomp) && SIZE_BYTES < maxcomp
    requires maxcomp + SIZE_BYTES <= capacity
    ensures Remaining(h.Tail(), h.Head(), capacity) + (|h.patches| - h.first + 1) * maxcomp >= capacity - 2 * SIZE_BYTES
  {
    var m, first, wrap := |h.patches|, h.first, h.wrap;
    RemainingIs(h, capacity, maxcomp);
    if h.Wrapped() {
      Stretch(h, capacity, maxcomp, first, wrap - 1);
      Stretch(h, capacity, maxcomp, wrap, m);
      Sides(wrap - 1 - first, m - wrap, maxcomp);
    } else {
      Stretch(h, capacity, maxcomp, first, m);
      assert (m - first + 1) * maxcomp == (m - first) * maxcomp + maxcomp;
    }
  }

  lemma Sides(a: nat, b: nat, maxcomp: nat)
    ensures (a + b + 2) * maxcomp == a * maxcomp + b * maxcomp + 2 * maxcomp
  {
  }

  /** The tail stops at the first position with room for the largest entry. */
  lemma {:induction false} FirstFitIsFirst(pos: seq<nat>, k: nat, capacity: nat, maxcomp: nat)
    requires 0 < capacity && k < |pos|
    ensures forall j :: k <= j < FirstFit(pos, k, capacity, maxcomp) ==>
      Remaining(pos[j], pos[|pos| - 1], capacity) <= maxcomp
    decreases |pos| - k
  {
    if k + 1 < |pos| && Remaining(pos[k], pos[|pos| - 1], capacity) <= maxcomp {
      FirstFitIsFirst(pos, k + 1, capacity, maxcomp);
    }
  }

  /** It stops with room for the largest entry, or where nothing is left to discard. */
  lemma {:induction false} FirstFitFits(pos: seq<nat>, k: nat, capacity: nat, maxcomp: nat)
    requires 0 < capacity && k < |pos|
    ensures var f := FirstFit(pos, k, capacity, maxcomp);
      f + 1 == |pos| || Remaining(pos[f], pos[|pos| - 1], capacity) > maxcomp
    decreases |pos| - k
  {
    if k + 1 < |pos| {
      FirstFitFits(pos, k + 1, capacity, maxcomp);
    }
  }

  /** The entries left by a push that discards any. */
  lemma DiscardsLeaveMany(h: History, capacity: nat, maxcomp: nat)
    requires h.WellFormed() && Placed(h, capacity, maxcomp) && SIZE_BYTES < maxcomp
    requires maxcomp + SIZE_BYTES <= capacity
    ensures var k := FirstFit(h.pos, h.first, capacity, maxcomp);
      k > h.first ==> (|h.patches| - k + 3) * maxcomp >= capacity - 2 * SIZE_BYTES
  {
    var k := FirstFit(h.pos, h.first, capacity, maxcomp);
    FirstFitIsFirst(h.pos, h.first, capacity, maxcomp);
    if k > h.first {
      DiscardPlaced(h, k - 1, capacity, maxcomp);
      SpareRoom(h.Discard(k - 1), capacity, maxcomp);
      var n := |h.patches| - k;
      assert (n + 3) * maxcomp == (n + 2) * maxcomp + maxcomp;
    }
  }

  /** An entry that ends at the start of the ring pushes out another only when the head is
      near the end. */
  lemma StartLeavesMany(h: History, capacity: nat, maxcomp: nat, body: nat)
    requires h.WellFormed() && Placed(h, capacity, maxcomp) && !h.Wrapped() && h.Tail() == SIZE_BYTES
    requires body + SIZE_BYTES <= maxcomp && h.Head() + body + maxcomp > capacity
    ensures (|h.patches| - h.first + 2) * maxcomp >= capacity
  {
    var m, first := |h.patches|, h.first;
    Stretch(h, capacity, maxcomp, first, m);
    assert (m - first + 2) * maxcomp == (m - first) * maxcomp + 2 * maxcomp;
  }
}
