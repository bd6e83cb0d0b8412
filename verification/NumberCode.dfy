/** The variable-length numbers of BPS and UPS patches: base 128, least significant digit
    first, each further digit counting from one. */
module NumberCode {
  import opened Bytes
  import opened RingPointers

  const U64 := 0x1_0000_0000_0000_0000
  const U32 := 0x1_0000_0000

  /** A complete number: only the last byte has its high bit set. */
  ghost predicate IsCode(code: seq<Byte>) {
    code != [] && if code[0] >= 0x80 then |code| == 1 else IsCode(code[1..])
  }

  function Value(code: seq<Byte>): nat
    requires IsCode(code)
  {
    if code[0] >= 0x80 then code[0] - 0x80 else code[0] + 0x80 * (Value(code[1..]) + 1)
  }

  function Encode(v: nat): (code: seq<Byte>) {
    if v < 0x80 then [v + 0x80] else [v % 0x80] + Encode(v / 0x80 - 1)
  }

  /** Encoding any number and reading it back gives that number. */
  lemma {:induction false} ValueOfEncode(v: nat)
    ensures IsCode(Encode(v)) && Value(Encode(v)) == v
  {
    if v >= 0x80 {
      ValueOfEncode(v / 0x80 - 1);
      assert Encode(v)[1..] == Encode(v / 0x80 - 1);
    }
  }

  /** No two codes share a value: a code is the encoding of what it stands for. */
  lemma {:induction false} EncodeOfValue(code: seq<Byte>)
    requires IsCode(code)
    ensures Encode(Value(code)) == code
  {
    if code[0] < 0x80 {
      EncodeOfValue(code[1..]);
      var rest := Value(code[1..]);
      assert Value(code) / 0x80 - 1 == rest && Value(code) % 0x80 == code[0];
      assert code == [code[0]] + code[1..];
    } else {
      assert code == [code[0]];
    }
  }

  lemma CodesAreUnique(a: seq<Byte>, b: seq<Byte>)
    requires IsCode(a) && IsCode(b)
    ensures Value(a) == Value(b) ==> a == b
  {
    EncodeOfValue(a);
    EncodeOfValue(b);
  }

  function Pow128(k: nat): nat {
    if k == 0 then 1 else 0x80 * Pow128(k - 1)
  }

  /** What the first `k` digits count for: digit i seven bits higher than the one before it,
      and one more than its low seven bits unless it is the first. */
  function DigitSum(code: seq<Byte>, k: nat): nat
    requires k <= |code|
  {
    if k == 0 then 0
    else DigitSum(code, k - 1) + (code[k - 1] % 0x80 + (if k == 1 then 0 else 1)) * Pow128(k - 1)
  }

  lemma TermShifted(d: nat, p: nat)
    ensures d * (0x80 * p) == 0x80 * (d * p)
  {
  }

  lemma FirstDigitSum(code: seq<Byte>)
    requires code != []
    ensures DigitSum(code, 1) == code[0] % 0x80
  {
    assert DigitSum(code, 0) == 0 && Pow128(0) == 1;
  }

  lemma {:induction false} DigitSumShifted(code: seq<Byte>, k: nat)
    requires 1 <= k < |code|
    ensures DigitSum(code, k + 1) == code[0] % 0x80 + 0x80 * (DigitSum(code[1..], k) + 1)
  {
    TermShifted(code[k] % 0x80 + 1, Pow128(k - 1));
    if k == 1 {
      FirstDigitSum(code);
      FirstDigitSum(code[1..]);
    } else {
      DigitSumShifted(code, k - 1);
    }
  }

  /** A code ends with the first byte whose high bit is set, and its value is the sum of its
      digits, each but the first counting from one. */
  lemma {:induction false} ValueIsSum(code: seq<Byte>)
    ensures IsCode(code) <==>
      code != [] && code[|code| - 1] >= 0x80 && forall i :: 0 <= i < |code| - 1 ==> code[i] < 0x80
    ensures IsCode(code) ==> Value(code) == DigitSum(code, |code|)
  {
    if |code| > 1 {
      var rest := code[1..];
      ValueIsSum(rest);
      assert forall i :: 0 <= i < |rest| ==> rest[i] == code[i + 1];
      assert (forall i :: 0 <= i < |code| - 1 ==> code[i] < 0x80)
        <==> code[0] < 0x80 && forall i :: 0 <= i < |rest| - 1 ==> rest[i] < 0x80;
      DigitSumShifted(code, |rest|);
    } else if |code| == 1 {
      FirstDigitSum(code);
    }
  }

  // ---------------------------------------------------------------- the decoding loop

  lemma ModSum(d: nat, s: nat, x: nat, m: nat)
    requires 0 < m
    ensures (d + x * s) % m == (d % m + x * (s % m)) % m
  {
    var q, r := s / m, s % m;
    var p, t := d / m, d % m;
    var low := t + x * r;
    assert s == m * q + r && d == m * p + t;
    assert x * s == m * (x * q) + x * r by {
      assert x * s == x * (m * q) + x * r;
      assert x * (m * q) == m * (x * q);
    }
    var k := low / m;
    assert low == m * k + low % m;
    assert d + x * s == m * (p + x * q + k) + low % m by {
      assert m * (p + x * q + k) == m * p + m * (x * q) + m * k;
    }
    ModOf(d + x * s, p + x * q + k, low % m, m);
  }

  /** The two registers of the decoding loop, modulo 2^64, after the digits before `k`:
      `data` and `shift` stand for `d` and `s`. */
  ghost predicate Digits(code: seq<Byte>, k: nat, d: nat, s: nat, data: nat, shift: nat) {
    && k < |code| && IsCode(code) && IsCode(code[k..])
    && d + s * Value(code[k..]) == Value(code)
    && data == d % U64 && shift == s % U64
  }

  /** The same once digit `k` has been added in. */
  ghost predicate Added(code: seq<Byte>, k: nat, d: nat, s: nat, data: nat, shift: nat) {
    && k < |code| && IsCode(code) && IsCode(code[k..])
    && d + s * (Value(code[k..]) - code[k] % 0x80) == Value(code)
    && data == d % U64 && shift == s % U64
  }

  lemma FirstDigit(code: seq<Byte>)
    requires IsCode(code)
    ensures Digits(code, 0, 0, 1, 0, 1)
  {
    assert code[0..] == code;
  }

  /** One digit more in the register, as numbers. */
  lemma Accumulate(d: nat, s: nat, v: nat, digit: nat, total: nat)
    requires d + s * v == total
    ensures d + digit * s + s * (v - digit) == total
  {
    assert s * (v - digit) == s * v - s * digit;
  }

  /** (data + digit * shift) % 2^64 */
  function AddScaled(data: nat, digit: nat, shift: nat): nat {
    (data + digit * shift) % U64
  }

  lemma AddScaledIs(d: nat, s: nat, digit: nat)
    ensures AddScaled(d % U64, digit, s % U64) == (d + digit * s) % U64
  {
    ModSum(d, s, digit, U64);
  }

  /** data += (x & 0x7f) * shift */
  method AddDigit(ghost code: seq<Byte>, ghost k: nat, ghost d: nat, ghost s: nat,
                  x: Byte, data: nat, shift: nat) returns (sum: nat, ghost d': nat)
    requires Digits(code, k, d, s, data, shift) && x == code[k]
    ensures Added(code, k, d', s, sum, shift) && d' == d + x % 0x80 * s
    ensures x >= 0x80 ==> k + 1 == |code| && sum == Value(code) % U64
  {
    var digit: nat := x % 0x80;
    AddScaledIs(d, s, digit);
    Accumulate(d, s, Value(code[k..]), digit, Value(code));
    d' := d + digit * s;
    sum := AddScaled(data, digit, shift);
    if x >= 0x80 {
      LastDigit(code, k, digit);
      assert d' + s * 0 == Value(code);
    }
  }

  lemma LastDigit(code: seq<Byte>, k: nat, digit: nat)
    requires k < |code| && IsCode(code[k..]) && code[k] >= 0x80 && digit == code[k] % 0x80
    ensures k + 1 == |code| && Value(code[k..]) == digit
  {
    assert |code[k..]| == 1;
  }

  lemma Carry(d: int, s: int, factor: int, rest: int, total: int)
    requires d + s * factor == total && factor == 0x80 * (rest + 1)
    ensures d + 0x80 * s + 0x80 * s * rest == total
  {
    assert s * factor == 0x80 * s * (rest + 1);
  }

  lemma ShiftedIs(s: nat)
    ensures s % U64 * 0x80 % U64 == 0x80 * s % U64
  {
    ModSum(0, s, 0x80, U64);
  }

  lemma SummedIs(d: nat, s: nat)
    ensures (d % U64 + s % U64) % U64 == (d + s) % U64
  {
    ModSum(d, s, 1, U64);
  }

  /** The digits still to come, once digit `k` is in. */
  lemma NextValue(code: seq<Byte>, k: nat, d: nat, s: nat)
    requires k < |code| && IsCode(code) && IsCode(code[k..]) && code[k] < 0x80
    requires d + s * (Value(code[k..]) - code[k] % 0x80) == Value(code)
    ensures k + 1 < |code| && IsCode(code[k + 1..])
    ensures d + 0x80 * s + 0x80 * s * Value(code[k + 1..]) == Value(code)
  {
    assert code[k..][1..] == code[k + 1..];
    Carry(d, s, Value(code[k..]) - code[k] % 0x80, Value(code[k + 1..]), Value(code));
  }

  /** shift <<= 7, data += shift */
  method NextShift(ghost code: seq<Byte>, ghost k: nat, ghost d: nat, ghost s: nat, data: nat, shift: nat)
      returns (sum: nat, next: nat, ghost d': nat, ghost s': nat)
    requires Added(code, k, d, s, data, shift) && code[k] < 0x80
    ensures k + 1 < |code| && Digits(code, k + 1, d', s', sum, next)
    ensures s' == 0x80 * s && d' == d + s'
  {
    NextValue(code, k, d, s);
    s' := 0x80 * s;
    d' := d + s';
    ShiftedIs(s);
    next := shift * 0x80 % U64;
    SummedIs(d, s');
    sum := (data + next) % U64;
  }
}
