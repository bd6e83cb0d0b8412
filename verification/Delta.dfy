/** What the delta codec of the rewind buffer computes: the patch that
    state_manager_raw_compress emits, what state_manager_raw_decompress does with
    it, and for which state sizes the two undo each other. */
module Delta {
  import opened Bytes

  const U16_MAX := 0xFFFF
  const U32_MAX := 0xFFFF_FFFF

  /** A patch: jump over equal words, or step over `skip` equal words and write
      `words`. */
  datatype Patch = End | Jump(count: nat, rest: Patch) | Run(skip: nat, words: seq<Word>, rest: Patch)

  // ---------------------------------------------------------------- block layout

  /** x & ~sizeof(uint16_t), which clears bit 1 and leaves bit 0 alone. */
  function ClearBit1(x: nat): nat {
    if x / 2 % 2 == 1 then x - 2 else x
  }

  /** Number of 16-bit words a state of `size` bytes occupies. */
  function StateWords(size: nat): nat {
    (size + 1) / 2
  }

  /** The state manager's blocksize, in bytes. */
  function BlockSize(size: nat): nat {
    ClearBit1(size + 1)
  }

  /** num16s in state_manager_raw_compress: the words the encoder looks at. */
  function CodedWords(size: nat): nat {
    (BlockSize(size) + 1) / 2
  }

  /** Words in an allocation of state_manager_raw_alloc. */
  function AllocWords(size: nat): nat {
    (BlockSize(size) + 24) / 2
  }

  /** Index of the word that state_manager_raw_alloc makes unique. */
  function SentinelAt(size: nat): nat {
    BlockSize(size) / 2 + 3
  }

  /** A state as the core can serialize it: the odd byte of an odd size is the last. */
  predicate IsState(size: nat, ws: seq<Word>) {
    |ws| == StateWords(size) && (size % 2 == 1 ==> ws[|ws| - 1] < 0x100)
  }

  /** A block of state_manager_raw_alloc with a state written at its start. */
  function Block(size: nat, ws: seq<Word>, uniq: Word): (b: seq<Word>)
    requires |ws| == StateWords(size)
    ensures |b| == AllocWords(size)
  {
    seq(AllocWords(size), i requires 0 <= i < AllocWords(size) =>
      if i < |ws| then ws[i] else if i == SentinelAt(size) then uniq else 0)
  }

  /** The layout the scans rely on: behind `s` state words come three words on which
      the blocks agree, then a word on which they differ, then room for the last
      group of a block-wise scan. */
  ghost predicate Guarded(a: seq<Word>, b: seq<Word>, s: nat, n: nat) {
    && |a| == |b| && s + 12 <= |a| && s <= n <= s + 1
    && a[s] == b[s] && a[s + 1] == b[s + 1] && a[s + 2] == b[s + 2] && a[s + 3] != b[s + 3]
  }

  /** The two families of sizes for which the rounding leaves room for the guard. */
  lemma GuardRoom(size: nat)
    requires size % 4 == 0 || size % 4 == 3
    ensures SentinelAt(size) == StateWords(size) + 3 && AllocWords(size) == StateWords(size) + 12
    ensures CodedWords(size) == if size % 4 == 0 then StateWords(size) + 1 else StateWords(size)
  {
    var q := size / 4;
    if size % 4 == 0 {
      assert size == 4 * q && BlockSize(size) == 4 * q + 1;
    } else {
      assert size == 4 * q + 3 && BlockSize(size) == 4 * q + 4;
    }
  }

  lemma GuardedBlocks(size: nat, src: seq<Word>, dst: seq<Word>, u: Word, v: Word)
    requires |src| == |dst| == StateWords(size) && u != v
    requires size % 4 == 0 || size % 4 == 3
    ensures Guarded(Block(size, src, u), Block(size, dst, v), StateWords(size), CodedWords(size))
  {
    GuardRoom(size);
  }

  // ---------------------------------------------------------------- scans

  /** The words from `i` up to `j` agree. */
  ghost predicate Same(a: seq<Word>, b: seq<Word>, i: nat, j: nat)
    requires i <= j <= |a| && j <= |b|
  {
    forall k :: i <= k < j ==> a[k] == b[k]
  }

  /** First index from `i` on where the blocks differ; |a| if there is none. */
  function FirstDiff(a: seq<Word>, b: seq<Word>, i: nat): (r: nat)
    requires |a| == |b| && i <= |a|
    ensures i <= r <= |a|
    ensures r < |a| ==> a[r] != b[r]
    decreases |a| - i
  {
    if i == |a| || a[i] != b[i] then i else FirstDiff(a, b, i + 1)
  }

  lemma {:induction false} FirstDiffSame(a: seq<Word>, b: seq<Word>, i: nat)
    requires |a| == |b| && i <= |a|
    ensures Same(a, b, i, FirstDiff(a, b, i))
    decreases |a| - i
  {
    if i < |a| && a[i] == b[i] {
      FirstDiffSame(a, b, i + 1);
    }
  }

  /** Words `k` and `k` + 1 agree. */
  predicate Agree2(a: seq<Word>, b: seq<Word>, k: nat)
    requires |a| == |b| && k + 1 < |a|
  {
    a[k] == b[k] && a[k + 1] == b[k + 1]
  }

  /** First of i, i + 2, i + 4, ... where two consecutive words agree; |a| if the
      pairs run out. */
  function EqualPair(a: seq<Word>, b: seq<Word>, i: nat): (r: nat)
    requires |a| == |b| && i <= |a|
    ensures i <= r <= |a|
    ensures r < |a| ==> r + 1 < |a| && Agree2(a, b, r) && (r - i) % 2 == 0
    decreases |a| - i
  {
    if i + 1 >= |a| then |a|
    else if Agree2(a, b, i) then i
    else EqualPair(a, b, i + 2)
  }

  /** No pair before that one agrees. */
  lemma {:induction false} EqualPairFirst(a: seq<Word>, b: seq<Word>, i: nat, k: nat)
    requires |a| == |b| && i <= k && k + 1 < |a| && (k - i) % 2 == 0 && Agree2(a, b, k)
    ensures EqualPair(a, b, i) <= k
    decreases |a| - i
  {
    if i < k && !Agree2(a, b, i) {
      EqualPairFirst(a, b, i + 2, k);
    }
  }

  /** Where find_same stops: one word early if that word agrees as well. */
  function SameStop(a: seq<Word>, b: seq<Word>, i: nat): (r: nat)
    requires |a| == |b| && i < |a| && a[i] != b[i]
    ensures i < r <= |a|
  {
    var q := EqualPair(a, b, i);
    if q < |a| && q != i && a[q - 1] == b[q - 1] then q - 1 else q
  }

  /** find_same on guarded blocks: it stops inside the allocation, at the end of the
      state at the latest, right behind a differing word and in front of two equal ones. */
  lemma SameStopGuarded(a: seq<Word>, b: seq<Word>, s: nat, n: nat, i: nat)
    requires Guarded(a, b, s, n) && i < s && a[i] != b[i]
    ensures var r := SameStop(a, b, i);
      && i < r <= s && EqualPair(a, b, i) <= s + 1
      && a[r - 1] != b[r - 1] && Agree2(a, b, r)
  {
    var q := EqualPair(a, b, i);
    EqualPairFirst(a, b, i, if (s - i) % 2 == 0 then s else s + 1);
    if Agree2(a, b, q - 2) {
      EqualPairFirst(a, b, i, q - 2);
    }
  }

  /** find_same may run over two equal words, but never over three. */
  lemma SameStopWithinThree(a: seq<Word>, b: seq<Word>, i: nat, k: nat)
    requires |a| == |b| && i < |a| && a[i] != b[i]
    requires i <= k && k + 2 < |a| && Agree2(a, b, k) && Agree2(a, b, k + 1)
    ensures SameStop(a, b, i) <= k + 1
  {
    EqualPairFirst(a, b, i, if (k - i) % 2 == 0 then k else k + 1);
  }

  // ---------------------------------------------------------------- the patch

  function Min(x: nat, y: nat): nat {
    if x < y then x else y
  }

  /** One round of the encoder: nothing left, a skip too long for 16 bits to the
      differing word at `to`, or the words from `from` up to `to` copied out. */
  datatype Round = Done | Far(to: nat) | Near(from: nat, to: nat)

  function NextRound(a: seq<Word>, b: seq<Word>, i: nat, n: nat): (r: Round)
    requires |a| == |b| && i <= |a|
    ensures r.Far? ==> i < r.to < n && r.to < |a| && r.to - i > U16_MAX
    ensures r.Near? ==> i <= r.from < n && r.from < r.to <= |a| && r.from - i <= U16_MAX && r.to - r.from <= U16_MAX
  {
    if i >= n then Done
    else
      var d := FirstDiff(a, b, i);
      if d >= n || d == |a| then Done
      else if d - i > U16_MAX then Far(d)
      else Near(d, d + Min(SameStop(a, b, d) - d, U16_MAX))
  }

  /** The patch of state_manager_raw_compress from word `i` on, out of `n` words.
      The 32-bit clamp shortens the jump that is written, not the distance covered. */
  function Diff(a: seq<Word>, b: seq<Word>, i: nat, n: nat): Patch
    requires |a| == |b| && i <= |a|
    decreases |a| - i
  {
    match NextRound(a, b, i, n)
    case Done => End
    case Far(to) => Jump(Min(to - i, U32_MAX), Diff(a, b, to, n))
    case Near(from, to) => Run(from - i, a[from..to], Diff(a, b, to, n))
  }

  lemma DiffFar(a: seq<Word>, b: seq<Word>, i: nat, n: nat, to: nat)
    requires |a| == |b| && i <= |a| && NextRound(a, b, i, n) == Far(to)
    ensures Diff(a, b, i, n) == Jump(Min(to - i, U32_MAX), Diff(a, b, to, n))
  {
  }

  lemma DiffNear(a: seq<Word>, b: seq<Word>, i: nat, n: nat, from: nat, to: nat)
    requires |a| == |b| && i <= |a| && NextRound(a, b, i, n) == Near(from, to)
    ensures Diff(a, b, i, n) == Run(from - i, a[from..to], Diff(a, b, to, n))
  {
  }

  /** The scans of the round at `i` stop inside the allocation, and a run of changed
      words does not go past word `n` (which would make num16s wrap around). */
  ghost predicate RoundInside(a: seq<Word>, b: seq<Word>, i: nat, n: nat)
    requires |a| == |b| && i <= |a|
  {
    i < n ==>
      var d := FirstDiff(a, b, i);
      && d < |a|
      && (d < n && d - i <= U16_MAX ==> SameStop(a, b, d) < |a| && d + Min(SameStop(a, b, d) - d, U16_MAX) <= n)
  }

  ghost predicate ScansInside(a: seq<Word>, b: seq<Word>, i: nat, n: nat)
    requires |a| == |b| && i <= |a|
    decreases |a| - i
  {
    RoundInside(a, b, i, n) &&
    match NextRound(a, b, i, n)
    case Done => true
    case Far(to) => ScansInside(a, b, to, n)
    case Near(from, to) => ScansInside(a, b, to, n)
  }

  lemma DiffGuarded(a: seq<Word>, b: seq<Word>, s: nat, n: nat, i: nat)
    requires Guarded(a, b, s, n) && i <= s
    ensures var d := FirstDiff(a, b, i);
      d <= s + 3 && (d < n ==> d < s) && (d < s || Same(a, b, i, s))
      && Same(a, b, i, d)
  {
    FirstDiffSame(a, b, i);
  }

  /** A round on guarded blocks leaves only equal words behind it and ends, unless
      its run was cut short, in front of two equal words. */
  lemma RoundGuarded(a: seq<Word>, b: seq<Word>, s: nat, n: nat, i: nat)
    requires Guarded(a, b, s, n) && i <= s
    ensures RoundInside(a, b, i, n)
    ensures match NextRound(a, b, i, n)
      case Done => Same(a, b, i, s)
      case Far(to) => to < s && Same(a, b, i, to) && a[to] != b[to]
      case Near(from, to) =>
        && to <= s && Same(a, b, i, from) && a[from] != b[from]
        && (to - from < U16_MAX ==> Agree2(a, b, to))
  {
    var d := FirstDiff(a, b, i);
    DiffGuarded(a, b, s, n, i);
    if d < n {
      SameStopGuarded(a, b, s, n, d);
    }
  }

  // ---------------------------------------------------------------- encoding and decoding

  /** The counts of a patch fit the fields that hold them, and no run is empty. */
  ghost predicate Encodable(d: Patch) {
    match d
    case End => true
    case Jump(count, rest) => 0 < count <= U32_MAX && Encodable(rest)
    case Run(skip, words, rest) => skip <= U16_MAX && 0 < |words| <= U16_MAX && Encodable(rest)
  }

  function EncodedSize(d: Patch): (n: nat)
    ensures n >= 3
  {
    match d
    case End => 3
    case Jump(count, rest) => 3 + EncodedSize(rest)
    case Run(skip, words, rest) => 2 + |words| + EncodedSize(rest)
  }

  /** The words of a patch. */
  function Encode(d: Patch): (r: seq<Word>)
    requires Encodable(d)
    ensures |r| == EncodedSize(d)
  {
    match d
    case End => [0, 0, 0]
    case Jump(count, rest) => [0, count % 0x1_0000, count / 0x1_0000] + Encode(rest)
    case Run(skip, words, rest) => [|words|, skip] + words + Encode(rest)
  }

  /** The stored form: a run begins with how many words it changes and how many it skips before
      them; a zero instead announces a 32-bit skip, low half first, and a skip of zero ends it. */
  lemma StoredForm(d: Patch)
    requires Encodable(d)
    ensures var ws := Encode(d);
      match d
      case End => ws == [0, 0, 0]
      case Jump(count, rest) => ws[0] == 0 && 0 < ws[1] + 0x1_0000 * (ws[2] as int) == count && ws[3..] == Encode(rest)
      case Run(skip, words, rest) =>
        0 < ws[0] == |words| && ws[1] == skip && ws[2..2 + |words|] == words && ws[2 + |words|..] == Encode(rest)
  {
  }

  /** Started at word `o`, the patch only touches words below `len`. */
  ghost predicate Fits(d: Patch, o: nat, len: nat) {
    match d
    case End => true
    case Jump(count, rest) => Fits(rest, o + count, len)
    case Run(skip, words, rest) => o + skip + |words| <= len && Fits(rest, o + skip + |words|, len)
  }

  /** What applying the patch from word `o` on makes of `out`. */
  function Apply(d: Patch, out: seq<Word>, o: nat): (r: seq<Word>)
    requires Fits(d, o, |out|)
    ensures |r| == |out|
    decreases d
  {
    match d
    case End => out
    case Jump(count, rest) => Apply(rest, out, o + count)
    case Run(skip, words, rest) => Apply(rest, Splice(out, o + skip, words), o + skip + |words|)
  }

  lemma {:induction false} DiffEncodable(a: seq<Word>, b: seq<Word>, i: nat, n: nat)
    requires |a| == |b| && i <= |a|
    ensures Encodable(Diff(a, b, i, n))
    decreases |a| - i
  {
    match NextRound(a, b, i, n)
    case Done =>
    case Far(to) => DiffEncodable(a, b, to, n);
    case Near(from, to) => DiffEncodable(a, b, to, n);
  }

  // ---------------------------------------------------------------- round trip

  lemma {:induction false} ScansInsideGuarded(a: seq<Word>, b: seq<Word>, s: nat, n: nat, i: nat)
    requires Guarded(a, b, s, n) && i <= s
    ensures ScansInside(a, b, i, n)
    decreases s - i
  {
    RoundGuarded(a, b, s, n, i);
    match NextRound(a, b, i, n)
    case Done =>
    case Far(to) => ScansInsideGuarded(a, b, s, n, to);
    case Near(from, to) => ScansInsideGuarded(a, b, s, n, to);
  }

  /** A block decoded up to word `i`: old words below it, new ones above. */
  function Mixed(a: seq<Word>, b: seq<Word>, i: nat, s: nat): (r: seq<Word>)
    requires i <= s <= |a| && s <= |b|
    ensures |r| == s
  {
    a[..i] + b[i..s]
  }

  lemma MixedSame(a: seq<Word>, b: seq<Word>, i: nat, j: nat, s: nat)
    requires i <= j <= s <= |a| && s <= |b| && Same(a, b, i, j)
    ensures Mixed(a, b, i, s) == Mixed(a, b, j, s)
  {
  }

  lemma MixedRun(a: seq<Word>, b: seq<Word>, from: nat, to: nat, s: nat)
    requires from <= to <= s <= |a| && s <= |b|
    ensures Splice(Mixed(a, b, from, s), from, a[from..to]) == Mixed(a, b, to, s)
  {
  }

  /** From word `i` on, the patch skips only words on which the blocks agree and
      writes the old block's words, up to word `s`. */
  ghost predicate Undoes(d: Patch, a: seq<Word>, b: seq<Word>, i: nat, s: nat)
    requires i <= s <= |a| && s <= |b|
    decreases d
  {
    match d
    case End => Same(a, b, i, s)
    case Jump(count, rest) =>
      i + count <= s && Same(a, b, i, i + count) && Undoes(rest, a, b, i + count, s)
    case Run(skip, words, rest) =>
      && i + skip + |words| <= s && Same(a, b, i, i + skip)
      && words == a[i + skip..i + skip + |words|]
      && Undoes(rest, a, b, i + skip + |words|, s)
  }

  lemma FarUndoes(a: seq<Word>, b: seq<Word>, s: nat, n: nat, i: nat, to: nat)
    requires Guarded(a, b, s, n) && i <= s <= U32_MAX + 1 && NextRound(a, b, i, n) == Far(to)
    requires to <= s ==> Undoes(Diff(a, b, to, n), a, b, to, s)
    ensures to <= s && Undoes(Diff(a, b, i, n), a, b, i, s)
  {
    RoundGuarded(a, b, s, n, i);
    var rest := Diff(a, b, to, n);
    assert Diff(a, b, i, n) == Jump(to - i, rest);
  }

  lemma NearUndoes(a: seq<Word>, b: seq<Word>, s: nat, n: nat, i: nat, from: nat, to: nat)
    requires Guarded(a, b, s, n) && i <= s && NextRound(a, b, i, n) == Near(from, to)
    requires to <= s ==> Undoes(Diff(a, b, to, n), a, b, to, s)
    ensures to <= s && Undoes(Diff(a, b, i, n), a, b, i, s)
  {
    RoundGuarded(a, b, s, n, i);
    var words, rest := a[from..to], Diff(a, b, to, n);
    RunUndoes(words, rest, a, b, i, from, to, s);
    assert Diff(a, b, i, n) == Run(from - i, words, rest);
  }

  lemma RunUndoes(words: seq<Word>, rest: Patch, a: seq<Word>, b: seq<Word>, i: nat, from: nat, to: nat, s: nat)
    requires i <= from <= to <= s <= |a| && s <= |b| && Same(a, b, i, from) && words == a[from..to]
    requires Undoes(rest, a, b, to, s)
    ensures Undoes(Run(from - i, words, rest), a, b, i, s)
  {
  }

  lemma {:induction false} DiffUndoes(a: seq<Word>, b: seq<Word>, s: nat, n: nat, i: nat)
    requires Guarded(a, b, s, n) && i <= s <= U32_MAX + 1
    ensures Undoes(Diff(a, b, i, n), a, b, i, s)
    decreases s - i
  {
    match NextRound(a, b, i, n)
    case Done => RoundGuarded(a, b, s, n, i);
    case Far(to) =>
      if to <= s {
        DiffUndoes(a, b, s, n, to);
      }
      FarUndoes(a, b, s, n, i, to);
    case Near(from, to) =>
      if to <= s {
        DiffUndoes(a, b, s, n, to);
      }
      NearUndoes(a, b, s, n, i, from, to);
  }

  /** With the words below `i` already restored, such a patch restores the rest. */
  lemma {:induction false} UndoesRestores(d: Patch, a: seq<Word>, b: seq<Word>, i: nat, s: nat)
    requires i <= s <= |a| && s <= |b| && Undoes(d, a, b, i, s)
    ensures Fits(d, i, s) && Apply(d, Mixed(a, b, i, s), i) == Mixed(a, b, s, s)
    decreases d
  {
    match d
    case End =>
      MixedSame(a, b, i, s, s);
    case Jump(count, rest) =>
      UndoesRestores(rest, a, b, i + count, s);
      MixedSame(a, b, i, i + count, s);
    case Run(skip, words, rest) =>
      var from, to := i + skip, i + skip + |words|;
      UndoesRestores(rest, a, b, to, s);
      MixedSame(a, b, i, from, s);
      MixedRun(a, b, from, to, s);
      assert Apply(d, Mixed(a, b, i, s), i) == Apply(rest, Mixed(a, b, to, s), to);
  }

  // ---------------------------------------------------------------- size

  /** state_manager_raw_maxsize */
  function RawMaxSize(uncomp: nat): nat {
    ClearBit1(uncomp + 1) + (uncomp + 2 * U16_MAX - 1) / (2 * U16_MAX) * 4 + 6
  }

  /** How many runs of at most 65535 words it takes to cover `x` words. */
  function Blocks(x: nat): nat {
    (x + U16_MAX - 1) / U16_MAX
  }

  lemma BlocksBounds(x: nat, y: nat)
    requires y <= x
    ensures y / U16_MAX <= Blocks(y) <= y / U16_MAX + 1
    ensures y < x ==> y / U16_MAX + 1 <= Blocks(x)
    ensures y + U16_MAX <= x ==> Blocks(y) + 1 <= Blocks(x) && Blocks(y) <= x / U16_MAX
    ensures Blocks(y) <= Blocks(x) && y / U16_MAX <= x / U16_MAX
  {
  }

  /** The shape of a patch that covers at most `x` words: a jump spans over 65535 of
      them, and only the first run and runs behind a full one may skip less than two
      words; not even the first one if `tight`. */
  ghost predicate Shaped(d: Patch, x: int, tight: bool) {
    match d
    case End => 0 <= x
    case Jump(count, rest) => count > U16_MAX && Shaped(rest, x - count, false)
    case Run(skip, words, rest) =>
      && 0 < |words| <= U16_MAX && (tight ==> skip >= 2)
      && Shaped(rest, x - skip - |words|, |words| < U16_MAX)
  }

  lemma {:induction false} ShapedWeaker(d: Patch, x: int, tight: bool, y: int)
    requires Shaped(d, x, tight) && x <= y
    ensures Shaped(d, y, tight) && Shaped(d, y, false)
  {
    match d
    case End =>
    case Jump(count, rest) => ShapedWeaker(rest, x - count, false, y - count);
    case Run(skip, words, rest) =>
      ShapedWeaker(rest, x - skip - |words|, |words| < U16_MAX, y - skip - |words|);
  }

  lemma ShapedRun(skip: nat, words: seq<Word>, rest: Patch, y: int, t: bool, x: int, tight: bool)
    requires Shaped(rest, y, t) && y <= x - skip - |words| && 0 < |words| <= U16_MAX
    requires (tight ==> skip >= 2) && (|words| < U16_MAX ==> t)
    ensures Shaped(Run(skip, words, rest), x, tight)
  {
    ShapedWeaker(rest, y, t, x - skip - |words|);
  }

  /** Behind two equal words a run is only reached by a skip of two or more. */
  lemma NearIsTight(a: seq<Word>, b: seq<Word>, s: nat, n: nat, i: nat, from: nat, to: nat)
    requires Guarded(a, b, s, n) && i <= s && NextRound(a, b, i, n) == Near(from, to)
    ensures i <= from < to <= s && to - from <= U16_MAX
    ensures (Agree2(a, b, i) ==> from - i >= 2) && (to - from < U16_MAX ==> Agree2(a, b, to))
  {
    RoundGuarded(a, b, s, n, i);
  }

  lemma ShapedJump(count: nat, rest: Patch, y: int, t: bool, x: int, tight: bool)
    requires Shaped(rest, y, t) && y <= x - count && count > U16_MAX
    ensures Shaped(Jump(count, rest), x, tight)
  {
    ShapedWeaker(rest, y, t, x - count);
  }

  lemma FarShaped(a: seq<Word>, b: seq<Word>, s: nat, n: nat, i: nat, to: nat)
    requires Guarded(a, b, s, n) && i <= s && NextRound(a, b, i, n) == Far(to)
    requires to <= s ==> Shaped(Diff(a, b, to, n), s - to, Agree2(a, b, to))
    ensures to <= s && Shaped(Diff(a, b, i, n), s - i, Agree2(a, b, i))
  {
    RoundGuarded(a, b, s, n, i);
    ShapedJump(Min(to - i, U32_MAX), Diff(a, b, to, n), s - to, Agree2(a, b, to), s - i, Agree2(a, b, i));
  }

  lemma NearShaped(a: seq<Word>, b: seq<Word>, s: nat, n: nat, i: nat, from: nat, to: nat, rest: Patch, t: bool)
    requires Guarded(a, b, s, n) && i <= s && i <= from && NextRound(a, b, i, n) == Near(from, to)
    requires to <= s && Shaped(rest, s - to, t) && (Agree2(a, b, to) ==> t)
    ensures from < to && Shaped(Run(from - i, a[from..to], rest), s - i, Agree2(a, b, i))
  {
    NearIsTight(a, b, s, n, i, from, to);
    ShapedRun(from - i, a[from..to], rest, s - to, t, s - i, Agree2(a, b, i));
  }

  /** A round that ends in front of two equal words makes the next one skip them. */
  lemma {:induction false} DiffShaped(a: seq<Word>, b: seq<Word>, s: nat, n: nat, i: nat)
    requires Guarded(a, b, s, n) && i <= s
    ensures Shaped(Diff(a, b, i, n), s - i, Agree2(a, b, i))
    decreases s - i
  {
    match NextRound(a, b, i, n)
    case Done =>
    case Far(to) =>
      if to <= s {
        DiffShaped(a, b, s, n, to);
      }
      FarShaped(a, b, s, n, i, to);
    case Near(from, to) =>
      NearIsTight(a, b, s, n, i, from, to);
      DiffShaped(a, b, s, n, to);
      NearShaped(a, b, s, n, i, from, to, Diff(a, b, to, n), Agree2(a, b, to));
  }

  /** Such a patch costs a word per word covered plus two per 65535 of them; and
      nothing extra for a last, incomplete 65535 if it is tight. */
  lemma {:induction false} ShapedSize(d: Patch, x: int, tight: bool)
    requires Shaped(d, x, tight)
    ensures 0 <= x
    ensures EncodedSize(d) <= 3 + x + 2 * (if tight then x / U16_MAX else Blocks(x))
  {
    match d
    case End =>
    case Jump(count, rest) =>
      ShapedSize(rest, x - count, false);
      BlocksBounds(x, x - count);
    case Run(skip, words, rest) =>
      var y := x - skip - |words|;
      ShapedSize(rest, y, |words| < U16_MAX);
      BlocksBounds(x, y);
  }

  /** A patch between guarded blocks costs at most one word per word of the state plus
      two per 65535 of them. */
  lemma DiffSize(a: seq<Word>, b: seq<Word>, s: nat, n: nat)
    requires Guarded(a, b, s, n)
    ensures EncodedSize(Diff(a, b, 0, n)) <= 3 + s + 2 * Blocks(s)
  {
    DiffShaped(a, b, s, n, 0);
    ShapedWeaker(Diff(a, b, 0, n), s, Agree2(a, b, 0), s);
    ShapedSize(Diff(a, b, 0, n), s, false);
  }

  /** The most words a patch between two states of `size` bytes can have. */
  function MaxWords(size: nat): nat {
    3 + StateWords(size) + 2 * Blocks(StateWords(size))
  }

  /** state_manager_raw_maxsize is that bound in bytes, up to the odd byte that its
      rounding adds to sizes divisible by four. */
  lemma RawMaxSizeIsMaxWords(size: nat)
    requires size % 4 == 0 || size % 4 == 3
    ensures RawMaxSize(size) == 2 * MaxWords(size) + (if size % 4 == 0 then 1 else 0)
  {
    var q := size / 4;
    var s := StateWords(size);
    if size % 4 == 0 {
      assert size == 4 * q && s == 2 * q;
      assert (2 * s + 2 * U16_MAX - 1) / (2 * U16_MAX) == Blocks(s);
    } else {
      assert size == 4 * q + 3 && s == 2 * q + 2;
      assert (2 * s - 1 + 2 * U16_MAX - 1) / (2 * U16_MAX) == Blocks(s);
    }
  }

  lemma BlocksStep(x: nat)
    requires 0 < x
    ensures Blocks(x) == 1 + Blocks(x - Min(x, U16_MAX))
  {
  }

  /** Where every state word differs, a round copies all it can. */
  lemma AllChangedRound(a: seq<Word>, b: seq<Word>, s: nat, n: nat, i: nat, to: nat)
    requires Guarded(a, b, s, n) && i < s && to == i + Min(s - i, U16_MAX)
    requires forall k :: 0 <= k < s ==> a[k] != b[k]
    ensures NextRound(a, b, i, n) == Near(i, to)
  {
    SameStopGuarded(a, b, s, n, i);
    assert SameStop(a, b, i) == s;
  }

  lemma RunCosts(words: seq<Word>, rest: Patch, left: nat, c: nat)
    requires 0 < left && |words| == c == Min(left, U16_MAX)
    requires EncodedSize(rest) == 3 + (left - c) + 2 * Blocks(left - c)
    ensures EncodedSize(Run(0, words, rest)) == 3 + left + 2 * Blocks(left)
  {
    BlocksStep(left);
  }

  /** Blocks on which every state word differs use the bound up; `left` words are still to come. */
  lemma {:induction false} AllChangedSize(a: seq<Word>, b: seq<Word>, s: nat, n: nat, i: nat, left: nat)
    requires Guarded(a, b, s, n) && i + left == s
    requires forall k :: 0 <= k < s ==> a[k] != b[k]
    ensures EncodedSize(Diff(a, b, i, n)) == 3 + left + 2 * Blocks(left)
    decreases left
  {
    if left > 0 {
      var c := Min(left, U16_MAX);
      var to := i + c;
      AllChangedRound(a, b, s, n, i, to);
      var words, rest := a[i..to], Diff(a, b, to, n);
      DiffNear(a, b, i, n, i, to);
      AllChangedSize(a, b, s, n, to, left - c);
      RunCosts(words, rest, left, c);
    } else {
      DiffGuarded(a, b, s, n, i);
    }
  }
}
