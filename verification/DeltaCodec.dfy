/** The delta codec itself: the encoder loop, and the decoder that reads a patch out of
    a byte buffer and applies it to a block in place. */
module DeltaCodec {
  import opened Bytes
  import opened Delta
  import opened DeltaScan

  /** The scans of one round: how many words to skip, and how many changed ones follow. */
  method ScanRound(old16: seq<Word>, new16: seq<Word>, i: nat, n: nat, ghost s: nat)
    returns (skip: nat, changed: nat)
    requires Guarded(old16, new16, s, n) && i <= s
    ensures i + skip >= n ==> NextRound(old16, new16, i, n) == Done
    ensures i + skip < n && skip > U16_MAX ==>
      i + skip <= s && changed == 0 && NextRound(old16, new16, i, n) == Far(i + skip)
    ensures i + skip < n && skip <= U16_MAX ==>
      && i + skip + changed <= s && 0 < changed <= U16_MAX
      && NextRound(old16, new16, i, n) == Near(i + skip, i + skip + changed)
  {
    DiffGuarded(old16, new16, s, n, i);
    changed := 0;
    skip := FindChangeSse2(old16, new16, i);
    if i + skip < n && skip <= U16_MAX {
      SameStopGuarded(old16, new16, s, n, i + skip);
      changed := FindSame(old16, new16, i + skip);
      if changed > U16_MAX {
        changed := U16_MAX;
      }
    }
  }

  /** With `out` emitted, the words of `rest` complete `words`. */
  ghost predicate Pending(words: seq<Word>, out: seq<Word>, rest: Patch) {
    Encodable(rest) && words == out + Encode(rest)
  }

  lemma PendingJump(words: seq<Word>, out: seq<Word>, count: nat, rest: Patch)
    requires Pending(words, out, Jump(count, rest))
    ensures Pending(words, out + [0, count % 0x1_0000, count / 0x1_0000], rest)
  {
  }

  lemma PendingRun(words: seq<Word>, out: seq<Word>, skip: Word, ws: seq<Word>, rest: Patch)
    requires |ws| <= U16_MAX && Pending(words, out, Run(skip, ws, rest))
    ensures Pending(words, out + [|ws|, skip] + ws, rest)
  {
  }

  /** Appends what one round emits: a jump, or a run with its old words. */
  method EmitRound(old16: seq<Word>, new16: seq<Word>, i: nat, n: nat, skip: nat, changed: nat, patch: seq<Word>,
      ghost words: seq<Word>, ghost pending: Patch)
    returns (next: nat, out: seq<Word>, ghost rest: Patch)
    requires |old16| == |new16| && i + skip + changed <= |old16|
    requires if skip > U16_MAX then changed == 0 && NextRound(old16, new16, i, n) == Far(i + skip)
             else changed <= U16_MAX && NextRound(old16, new16, i, n) == Near(i + skip, i + skip + changed)
    requires pending == Diff(old16, new16, i, n) && Pending(words, patch, pending)
    ensures next == i + skip + changed && rest == Diff(old16, new16, next, n) && Pending(words, out, rest)
  {
    next := i + skip + changed;
    rest := Diff(old16, new16, next, n);
    if skip > U16_MAX {
      var written := Min(skip, U32_MAX);
      DiffFar(old16, new16, i, n, next);
      PendingJump(words, patch, written, rest);
      out := patch + [0, written % 0x1_0000, written / 0x1_0000];
    } else {
      var run := old16[i + skip..i + skip + changed];
      DiffNear(old16, new16, i, n, i + skip, next);
      PendingRun(words, patch, skip, run, rest);
      out := patch + [changed, skip] + run;
    }
  }

  /** state_manager_raw_compress. The words it appends to the patch are returned. */
  method Compress(old16: seq<Word>, new16: seq<Word>, n: nat, ghost s: nat) returns (patch: seq<Word>)
    requires Guarded(old16, new16, s, n)
    ensures Encodable(Diff(old16, new16, 0, n)) && patch == Encode(Diff(old16, new16, 0, n))
  {
    DiffEncodable(old16, new16, 0, n);
    ghost var pending := Diff(old16, new16, 0, n);
    ghost var words := Encode(pending);
    patch := [];
    var i := 0;
    while i < n
      invariant i <= s && pending == Diff(old16, new16, i, n) && Pending(words, patch, pending)
      decreases n - i
    {
      var skip, changed := ScanRound(old16, new16, i, n, s);
      if skip >= n - i {
        break;
      }
      i, patch, pending := EmitRound(old16, new16, i, n, skip, changed, patch, words, pending);
    }
    assert pending == End;
    patch := patch + [0, 0, 0];
  }

  /** `buf` holds the bytes of `ws` at `at`. */
  ghost predicate Holds(buf: seq<Byte>, at: nat, ws: seq<Word>) {
    at + 2 * |ws| <= |buf| && buf[at..at + 2 * |ws|] == WordBytes(ws)
  }

  lemma SpliceMore(was: seq<Byte>, at: nat, pre: seq<Word>, w: Word)
    requires at + 2 * |pre| + 2 <= |was|
    ensures Splice(Splice(was, at, WordBytes(pre)), at + 2 * |pre|, WordBytes([w]))
         == Splice(was, at, WordBytes(pre + [w]))
  {
    WordBytesConcat(pre, [w]);
  }

  /** Puts the words of a patch into the buffer. */
  method StoreWords(data: array<Byte>, at: nat, words: seq<Word>)
    requires at + 2 * |words| <= data.Length
    modifies data
    ensures data[..] == Splice(old(data[..]), at, WordBytes(words))
  {
    ghost var was := data[..];
    for i := 0 to |words|
      invariant data[..] == Splice(was, at, WordBytes(words[..i]))
    {
      SpliceMore(was, at, words[..i], words[i]);
      WriteWord(data, at + 2 * i, words[i]);
      assert words[..i + 1] == words[..i] + [words[i]];
    }
    assert words[..|words|] == words;
  }

  /** What `buf` holds at `at`, read word by word, and what follows a prefix. */
  lemma HoldsParts(buf: seq<Byte>, at: nat, pre: seq<Word>, rest: seq<Word>)
    requires Holds(buf, at, pre + rest)
    ensures Holds(buf, at, pre) && Holds(buf, at + 2 * |pre|, rest)
  {
    WordBytesConcat(pre, rest);
    var whole := buf[at..at + 2 * |pre + rest|];
    assert whole[..2 * |pre|] == WordBytes(pre) && whole[2 * |pre|..] == WordBytes(rest);
  }

  method ReadWord(data: array<Byte>, at: nat, ghost ws: seq<Word>, k: nat) returns (w: Word)
    requires Holds(data[..], at, ws) && k < |ws|
    ensures w == ws[k]
  {
    WordAtBytes(data[..], at, ws, k);
    w := (data[at + 2 * k] as int) + 0x100 * (data[at + 2 * k + 1] as int);
  }

  /** Copies a run out of the patch: out16[i] = patch16[i], `words` of them. */
  method CopyRun(data: array<Byte>, at: nat, out: array<Word>, o: nat, count: nat, ghost words: seq<Word>)
    requires data as object != out as object
    requires Holds(data[..], at, words) && |words| == count && o + count <= out.Length
    modifies out
    ensures out[..] == Splice(old(out[..]), o, words)
  {
    ghost var was := out[..];
    for i := 0 to count
      invariant out[..] == Splice(was, o, words[..i])
    {
      var w := ReadWord(data, at, words, i);
      out[o + i] := w;
    }
    assert words[..count] == words;
  }

  /** The decoder stands at byte `p` of the patch and word `o` of the block, with the
      patch `d` still to be applied to the `s` words of the state. */
  ghost predicate Decoding(buf: seq<Byte>, p: nat, d: Patch, o: nat, s: nat) {
    Encodable(d) && Holds(buf, p, Encode(d)) && Fits(d, o, s)
  }

  lemma DecodingRun(buf: seq<Byte>, p: nat, d: Patch, o: nat, s: nat)
    requires Decoding(buf, p, d, o, s) && d.Run?
    ensures Encode(d)[0] == |d.words| && Encode(d)[1] == d.skip && o + d.skip + |d.words| <= s
    ensures Holds(buf, p + 4, d.words)
    ensures Decoding(buf, p + 4 + 2 * |d.words|, d.rest, o + d.skip + |d.words|, s)
  {
    HoldsParts(buf, p, [|d.words|, d.skip] + d.words, Encode(d.rest));
    HoldsParts(buf, p, [|d.words|, d.skip], d.words);
  }

  lemma DecodingJump(buf: seq<Byte>, p: nat, d: Patch, o: nat, s: nat)
    requires Decoding(buf, p, d, o, s) && d.Jump?
    ensures Encode(d)[0] == 0 && Encode(d)[1] == d.count % 0x1_0000 && Encode(d)[2] == d.count / 0x1_0000
    ensures Decoding(buf, p + 6, d.rest, o + d.count, s)
  {
    HoldsParts(buf, p, [0, d.count % 0x1_0000, d.count / 0x1_0000], Encode(d.rest));
  }

  /** The half of the loop that handles a run of `numchanged` words. */
  method DecompressRun(data: array<Byte>, p: nat, out: array<Word>, o: nat, numchanged: Word, ghost d: Patch, ghost s: nat)
    returns (nextP: nat, nextO: nat)
    requires data as object != out as object && s <= out.Length
    requires Decoding(data[..], p, d, o, s) && d.Run? && numchanged == |d.words|
    modifies out
    ensures forall k :: s <= k < out.Length ==> out[k] == old(out[k])
    ensures Decoding(data[..], nextP, d.rest, nextO, s)
    ensures Apply(d.rest, out[..s], nextO) == Apply(d, old(out[..s]), o)
  {
    ghost var was := out[..];
    DecodingRun(data[..], p, d, o, s);
    var skip := ReadWord(data, p, Encode(d), 1);
    CopyRun(data, p + 4, out, o + skip, numchanged, d.words);
    assert out[..s] == Splice(was[..s], o + skip, d.words);
    nextP, nextO := p + 4 + 2 * (numchanged as int), o + skip + numchanged;
  }

  /** One turn of the decoder's loop. */
  method DecompressRound(data: array<Byte>, p: nat, out: array<Word>, o: nat, ghost d: Patch, ghost s: nat)
    returns (more: bool, nextP: nat, nextO: nat, ghost rest: Patch)
    requires data as object != out as object && s <= out.Length
    requires Decoding(data[..], p, d, o, s)
    modifies out
    ensures forall k :: s <= k < out.Length ==> out[k] == old(out[k])
    ensures !more ==> d == End && out[..s] == old(out[..s])
    ensures more ==> d != End && rest == d.rest && Decoding(data[..], nextP, rest, nextO, s)
    ensures more ==> Apply(rest, out[..s], nextO) == Apply(d, old(out[..s]), o)
  {
    ghost var words := Encode(d);
    var numchanged := ReadWord(data, p, words, 0);
    if numchanged != 0 {
      more, rest := true, d.rest;
      nextP, nextO := DecompressRun(data, p, out, o, numchanged, d, s);
    } else {
      var low := ReadWord(data, p, words, 1);
      var high := ReadWord(data, p, words, 2);
      var numunchanged := (low as int) + 0x1_0000 * (high as int);
      more, nextP, nextO, rest := numunchanged != 0, p + 6, o + numunchanged, d;
      if more {
        DecodingJump(data[..], p, d, o, s);
        rest := d.rest;
      }
    }
  }

  /** state_manager_raw_decompress: a patch stored at `at` is applied to the state in
      `out`; the words behind the state keep their values. */
  method Decompress(data: array<Byte>, at: nat, out: array<Word>, ghost d: Patch, ghost s: nat)
    requires data as object != out as object && s <= out.Length
    requires Encodable(d) && Holds(data[..], at, Encode(d)) && Fits(d, 0, s)
    modifies out
    ensures out[..s] == Apply(d, old(out[..s]), 0)
    ensures forall k :: s <= k < out.Length ==> out[k] == old(out[k])
  {
    var more, p, o := true, at, 0;
    ghost var rest := d;
    while more
      invariant forall k :: s <= k < out.Length ==> out[k] == old(out[k])
      invariant more ==> Decoding(data[..], p, rest, o, s)
      invariant if more then Apply(rest, out[..s], o) == Apply(d, old(out[..s]), 0)
                else out[..s] == Apply(d, old(out[..s]), 0)
      decreases more, rest
    {
      more, p, o, rest := DecompressRound(data, p, out, o, rest, s);
    }
  }
}
