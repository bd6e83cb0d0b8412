/** The bits of a number. */
module Bits {
  import opened RingPointers

  function Pow2(n: nat): (p: nat)
    ensures 0 < p
  {
    if n == 0 then 1 else 2 * Pow2(n - 1)
  }

  lemma Pow2Of8()
    ensures Pow2(8) == 0x100
  {
    assert Pow2(4) == 16;
  }

  lemma Pow2Of16()
    ensures Pow2(16) == 0x1_0000
  {
    assert Pow2(4) == 16;
    assert Pow2(8) == 0x100;
    assert Pow2(12) == 0x1000;
  }

  /** 1 << i is set in `n`. */
  predicate Bit(n: nat, i: nat) {
    n / Pow2(i) % 2 == 1
  }

  lemma HalfOf(n: nat, p: nat)
    requires 0 < p
    ensures n / 2 / p == n / (2 * p)
  {
    var h := n / 2;
    var q, r := h / p, h % p;
    assert h == p * q + r;
    assert n == 2 * p * q + (2 * r + n % 2);
    ModOf(n, q, 2 * r + n % 2, 2 * p);
  }

  /** The bits of a number, from those of its half. */
  lemma BitOfHalf(n: nat, i: nat)
    ensures Bit(n, 0) <==> n % 2 == 1
    ensures Bit(n, i + 1) <==> Bit(n / 2, i)
  {
    HalfOf(n, Pow2(i));
  }

  /** Setting a bit above all others. */
  lemma {:induction false} BitOfSum(n: nat, k: nat, on: bool, i: nat)
    requires n < Pow2(k) && i <= k
    ensures Bit(n + (if on then Pow2(k) else 0), i) <==> if i == k then on else Bit(n, i)
    ensures n + (if on then Pow2(k) else 0) < Pow2(k + 1)
    decreases k
  {
    var sum := n + (if on then Pow2(k) else 0);
    BitOfHalf(sum, if i == 0 then 0 else i - 1);
    BitOfHalf(n, if i == 0 then 0 else i - 1);
    if k > 0 {
      assert sum / 2 == n / 2 + (if on then Pow2(k - 1) else 0) && sum % 2 == n % 2;
      if i > 0 {
        BitOfSum(n / 2, k - 1, on, i - 1);
      }
    }
  }

  /** A number below 2^k has no bit from `k` on. */
  lemma {:induction false} NoBitAbove(n: nat, k: nat, i: nat)
    requires n < Pow2(k) && k <= i
    ensures !Bit(n, i)
    decreases i
  {
    if i > 0 {
      BitOfHalf(n, i - 1);
      NoBitAbove(n / 2, if k == 0 then 0 else k - 1, i - 1);
    }
  }

  /** Cutting a number to `k` bits keeps those below. */
  lemma {:induction false} BitOfCut(n: nat, k: nat, i: nat)
    ensures Bit(n % Pow2(k), i) <==> i < k && Bit(n, i)
    decreases k
  {
    var cut := n % Pow2(k);
    if i >= k {
      NoBitAbove(cut, k, i);
    } else {
      var p, q := Pow2(k - 1), n / 2;
      HalfOf(n, p);
      assert q == p * (q / p) + q % p;
      assert n == 2 * p * (q / p) + (2 * (q % p) + n % 2);
      ModOf(n, q / p, 2 * (q % p) + n % 2, 2 * p);
      assert cut / 2 == q % p && cut % 2 == n % 2;
      BitOfHalf(n, if i == 0 then 0 else i - 1);
      BitOfHalf(cut, if i == 0 then 0 else i - 1);
      if i > 0 {
        BitOfCut(q, k - 1, i - 1);
      }
    }
  }
}
