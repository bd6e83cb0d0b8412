/** Machine words of the rewind buffer: bytes, 16-bit words and size_t values,
    with the little-endian layout an x86 build gives them. */
module Bytes {
  type Byte = x: int | 0 <= x < 0x100
  type Word = x: int | 0 <= x < 0x1_0000

  const SIZE_BYTES := 8 // sizeof(size_t)
  const SIZE_LIMIT := 0x1_0000_0000_0000_0000

  /** `s` with the bytes from `at` on replaced by `t`. */
  function Splice<T>(s: seq<T>, at: nat, t: seq<T>): (r: seq<T>)
    requires at + |t| <= |s|
    ensures |r| == |s|
  {
    s[..at] + t + s[at + |t|..]
  }

  /** One element more. */
  lemma SpliceNext<T>(s: seq<T>, at: nat, t: seq<T>, x: T)
    requires at + |t| < |s|
    ensures Splice(s, at, t)[at + |t| := x] == Splice(s, at, t + [x])
  {
  }

  lemma SpliceNone<T>(s: seq<T>, at: nat)
    requires at <= |s|
    ensures Splice(s, at, []) == s
  {
  }

  /** The bytes of a run of words. */
  function WordBytes(ws: seq<Word>): (r: seq<Byte>)
    ensures |r| == 2 * |ws|
  {
    seq(2 * |ws|, i requires 0 <= i < 2 * |ws| => if i % 2 == 0 then ws[i / 2] % 0x100 else ws[i / 2] / 0x100)
  }

  /** The word whose low byte is at `at`. */
  function WordAt(s: seq<Byte>, at: nat): (w: Word)
    requires at + 2 <= |s|
  {
    (s[at] as int) + 0x100 * (s[at + 1] as int)
  }

  lemma WordBytesConcat(a: seq<Word>, b: seq<Word>)
    ensures WordBytes(a + b) == WordBytes(a) + WordBytes(b)
  {
  }

  /** Reading word `k` back out of a buffer that holds the bytes of `ws` at `at`. */
  lemma WordAtBytes(s: seq<Byte>, at: nat, ws: seq<Word>, k: nat)
    requires at + 2 * |ws| <= |s| && s[at..at + 2 * |ws|] == WordBytes(ws)
    requires k < |ws|
    ensures WordAt(s, at + 2 * k) == ws[k]
  {
    var t := s[at..at + 2 * |ws|];
    assert t[2 * k] == WordBytes(ws)[2 * k] && t[2 * k + 1] == WordBytes(ws)[2 * k + 1];
  }

  /** `v` in `k` bytes, least significant byte first. */
  function LittleEndian(v: nat, k: nat): (r: seq<Byte>)
    ensures |r| == k
  {
    if k == 0 then [] else [v % 0x100] + LittleEndian(v / 0x100, k - 1)
  }

  function FromLittleEndian(s: seq<Byte>): nat {
    if s == [] then 0 else s[0] + 0x100 * FromLittleEndian(s[1..])
  }

  function Pow256(k: nat): nat {
    if k == 0 then 1 else 0x100 * Pow256(k - 1)
  }

  lemma {:induction false} LittleEndianRoundTrip(v: nat, k: nat)
    requires v < Pow256(k)
    ensures FromLittleEndian(LittleEndian(v, k)) == v
  {
    if k > 0 {
      LittleEndianRoundTrip(v / 0x100, k - 1);
      assert LittleEndian(v, k)[1..] == LittleEndian(v / 0x100, k - 1);
    }
  }

  function SizeBytes(v: nat): (r: seq<Byte>)
    ensures |r| == SIZE_BYTES
  {
    LittleEndian(v, SIZE_BYTES)
  }

  lemma SizeBytesRoundTrip(v: nat)
    requires v < SIZE_LIMIT
    ensures FromLittleEndian(SizeBytes(v)) == v
  {
    assert Pow256(4) == 0x1_0000_0000;
    assert Pow256(8) == SIZE_LIMIT;
    LittleEndianRoundTrip(v, SIZE_BYTES);
  }

  /** write_size_t: the bytes of the value are copied. */
  method WriteSize(data: array<Byte>, at: nat, v: nat)
    requires at + SIZE_BYTES <= data.Length
    modifies data
    ensures data[..] == Splice(old(data[..]), at, SizeBytes(v))
  {
    var word := SizeBytes(v);
    ghost var was := data[..];
    SpliceNone(was, at);
    for i := 0 to SIZE_BYTES
      invariant data[..] == Splice(was, at, word[..i])
    {
      SpliceNext(was, at, word[..i], word[i]);
      data[at + i] := word[i];
      assert word[..i + 1] == word[..i] + [word[i]];
    }
    assert word[..SIZE_BYTES] == word;
  }

  /** read_size_t */
  method ReadSize(data: array<Byte>, at: nat) returns (v: nat)
    requires at + SIZE_BYTES <= data.Length
    ensures v == FromLittleEndian(data[at..at + SIZE_BYTES])
  {
    v := 0;
    var i := SIZE_BYTES;
    while i > 0
      invariant 0 <= i <= SIZE_BYTES
      invariant v == FromLittleEndian(data[at + i..at + SIZE_BYTES])
    {
      i := i - 1;
      v := data[at + i] + 0x100 * v;
      assert data[at + i..at + SIZE_BYTES][1..] == data[at + i + 1..at + SIZE_BYTES];
    }
  }

  method WriteWord(data: array<Byte>, at: nat, w: Word)
    requires at + 2 <= data.Length
    modifies data
    ensures data[..] == Splice(old(data[..]), at, WordBytes([w]))
  {
    data[at], data[at + 1] := w % 0x100, w / 0x100;
    assert data[at..at + 2] == WordBytes([w]);
  }
}
