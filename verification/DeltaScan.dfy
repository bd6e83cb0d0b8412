/** The block-wise scans of the delta codec. None of them looks at a bound: each is
    stopped by the words behind the state. Buffers that are only read are sequences. */
module DeltaScan {
  import opened Bytes
  import opened Delta

  lemma {:induction false} FirstDiffLater(a: seq<Word>, b: seq<Word>, i: nat, j: nat)
    requires |a| == |b| && i <= j <= |a| && Same(a, b, i, j)
    ensures FirstDiff(a, b, i) == FirstDiff(a, b, j)
    decreases j - i
  {
    if i < j {
      FirstDiffLater(a, b, i + 1, j);
    }
  }

  /** compat_ctz: lowest set bit, at nibble granularity. */
  method NibbleCtz(x: bv16) returns (bit: nat)
    ensures bit == if x & 0x000f != 0 then 0 else if x & 0x00f0 != 0 then 4
                   else if x & 0x0f00 != 0 then 8 else if x & 0xf000 != 0 then 12 else 16
  {
    if x & 0x000f != 0 { return 0; }
    if x & 0x00f0 != 0 { return 4; }
    if x & 0x0f00 != 0 { return 8; }
    if x & 0xf000 != 0 { return 12; }
    return 16;
  }

  /** The byte mask of comparing four 32-bit lanes: a nibble of ones for each equal lane. */
  function LaneMask(e0: bool, e1: bool, e2: bool, e3: bool): bv16 {
    (if e0 then 0x000f else 0) | (if e1 then 0x00f0 else 0) | (if e2 then 0x0f00 else 0) | (if e3 then 0xf000 else 0)
  }

  /** The first lane that differs, counted in bits of the mask. */
  method FirstUnequalLane(e0: bool, e1: bool, e2: bool, e3: bool) returns (equal: bool, bit: nat)
    ensures equal <==> e0 && e1 && e2 && e3
    ensures !equal ==> bit == if !e0 then 0 else if !e1 then 4 else if !e2 then 8 else 12
  {
    var mask := LaneMask(e0, e1, e2, e3);
    equal, bit := mask == 0xffff, 0;
    if !equal {
      bit := NibbleCtz(!mask);
    }
  }

  /** find_change with SSE2: compares sixteen bytes at a time. */
  method FindChangeSse2(a: seq<Word>, b: seq<Word>, at: nat) returns (skip: nat)
    requires |a| == |b| && at <= |a|
    requires FirstDiff(a, b, at) + 8 <= |a|
    ensures at + skip == FirstDiff(a, b, at)
  {
    ghost var d := FirstDiff(a, b, at);
    var g := at;
    while true
      invariant at <= g <= d && (g - at) % 8 == 0
      invariant FirstDiff(a, b, g) == d
      decreases d - g
    {
      var equal, bit := FirstUnequalLane(
        a[g] == b[g] && a[g + 1] == b[g + 1], a[g + 2] == b[g + 2] && a[g + 3] == b[g + 3],
        a[g + 4] == b[g + 4] && a[g + 5] == b[g + 5], a[g + 6] == b[g + 6] && a[g + 7] == b[g + 7]);
      if !equal {
        // Byte offset of the lane, halved; the offset of the group is a multiple of 16.
        var word := (2 * (g - at) + bit) / 2;
        skip := if a[at + word] == b[at + word] then word + 1 else word;
        FirstDiffLater(a, b, g, at + skip);
        return;
      }
      FirstDiffLater(a, b, g, g + 8);
      g := g + 8;
    }
  }

  const WORDS_PER_SIZE := SIZE_BYTES / 2

  /** find_change without SSE2: compares a size_t at a time, then word by word. A `strict` build
      (NO_UNALIGNED_MEM) first goes up to a size_t boundary; blocks start on one. */
  method FindChangeSize(a: seq<Word>, b: seq<Word>, at: nat, strict: bool) returns (skip: nat)
    requires |a| == |b| && at <= |a|
    requires FirstDiff(a, b, at) + WORDS_PER_SIZE <= |a|
    ensures at + skip == FirstDiff(a, b, at)
  {
    ghost var d := FirstDiff(a, b, at);
    var i := at;
    while strict && i % WORDS_PER_SIZE != 0 && a[i] == b[i]
      invariant at <= i <= d && FirstDiff(a, b, i) == d
      decreases d - i
    {
      i := i + 1;
    }
    if !strict || a[i] == b[i] {
      while a[i] == b[i] && a[i + 1] == b[i + 1] && a[i + 2] == b[i + 2] && a[i + 3] == b[i + 3]
        invariant at <= i <= d && FirstDiff(a, b, i) == d
        decreases d - i
      {
        FirstDiffLater(a, b, i, i + WORDS_PER_SIZE);
        i := i + WORDS_PER_SIZE;
      }
      while a[i] == b[i]
        invariant at <= i <= d && FirstDiff(a, b, i) == d
        decreases d - i
      {
        i := i + 1;
      }
    }
    skip := i - at;
  }

  /** find_same on x86: compares two words at a time, then gives one back if it can. */
  method FindSame(a: seq<Word>, b: seq<Word>, at: nat) returns (changed: nat)
    requires |a| == |b| && at < |a| && a[at] != b[at]
    requires EqualPair(a, b, at) < |a|
    ensures at + changed == SameStop(a, b, at)
  {
    var i := at;
    while a[i] != b[i] || a[i + 1] != b[i + 1]
      invariant at <= i <= EqualPair(a, b, at) == EqualPair(a, b, i)
      decreases |a| - i
    {
      assert !Agree2(a, b, i);
      i := i + 2;
    }
    assert Agree2(a, b, i);
    if i != at && a[i - 1] == b[i - 1] {
      i := i - 1;
    }
    changed := i - at;
  }
}
