/** Frame numbers modulo the size of the ring. */
module RingPointers {
  lemma MultipleAtLeast(n: int, k: int)
    requires n > 0 && k > 0
    ensures n * k >= n
  {
  }

  lemma MultipleAtMost(n: int, k: int)
    requires n > 0 && k < 0
    ensures n * k <= -n
  {
  }

  /** Quotient and remainder are unique. */
  lemma ModOf(x: nat, q: int, r: nat, n: nat)
    requires r < n && x == n * q + r
    ensures x % n == r && x / n == q
  {
    var k, s := x / n, x % n;
    assert x == n * k + s;
    var d := q - k;
    assert n * d == s - r;
    if d > 0 {
      MultipleAtLeast(n, d);
    } else if d < 0 {
      MultipleAtMost(n, d);
    }
  }

  lemma ModShift(x: nat, n: nat)
    requires 0 < n
    ensures (x + 1) % n == if x % n == n - 1 then 0 else x % n + 1
  {
    var q, r := x / n, x % n;
    assert x == n * q + r;
    if r == n - 1 {
      assert x + 1 == n * (q + 1);
      ModOf(x + 1, q + 1, 0, n);
    } else {
      ModOf(x + 1, q, r + 1, n);
    }
  }

  /** NEXT_PTR and PREV_PTR walk the frame numbers modulo the buffer size. */
  lemma NextPtr(f: nat, n: nat)
    requires 0 < n
    ensures (f % n + 1) % n == (f + 1) % n
  {
    ModShift(f, n);
    if f % n == n - 1 {
      ModOf(n, 1, 0, n);
    } else {
      ModOf(f % n + 1, 0, f % n + 1, n);
    }
  }

  /** PREV_PTR(x) */
  function PrevPtr(x: nat, n: nat): nat
    requires x < n
  {
    if x == 0 then n - 1 else x - 1
  }

  lemma PrevPtrIs(f: nat, n: nat)
    requires 0 < n
    ensures PrevPtr((f + 1) % n, n) == f % n
  {
    ModShift(f, n);
  }

  /** Frames of one window lie in different slots. */
  lemma OtherSlot(f: nat, g: nat, n: nat)
    requires f < g < f + n
    ensures f % n != g % n
  {
    if f % n == g % n {
      var q, r := f / n, f % n;
      assert f == n * q + r && g == n * (g / n) + r;
      var d := g / n - q;
      assert g - f == n * d;
      if d > 0 {
        MultipleAtLeast(n, d);
      } else if d < 0 {
        MultipleAtMost(n, d);
      }
    }
  }
}
