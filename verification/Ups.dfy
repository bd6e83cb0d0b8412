/** The UPS applier: reads past the end as zero, drops writes past the end of the target. */
module Ups {
  import opened Bytes
  import opened NumberCode
  import opened PatchCommon
  import opened UpsFormat

  /** Where reading and writing stand after the xors in `mask`. */
  ghost predicate Merged(written: seq<Byte>, mask: seq<Byte>, source: seq<Byte>, read: nat, length: nat) {
    read == Min(|mask|, |source|) && written == Applied(mask, source, Min(|mask|, length))
  }

  lemma MergedNext(written: seq<Byte>, mask: seq<Byte>, source: seq<Byte>, read: nat, length: nat,
                   x: Byte, written': seq<Byte>, read': nat)
    requires Merged(written, mask, source, read, length)
    requires read' == if read < |source| then read + 1 else read
    requires written' == if |mask| < length then written + [Xor(x, At(source, |mask|))] else written
    ensures Merged(written', mask + [x], source, read', length)
  {
    assert written' == Applied(mask + [x], source, Min(|mask| + 1, length));
  }

  lemma AppliedZeros(mask: seq<Byte>, k: nat, source: seq<Byte>, n: nat)
    ensures Applied(mask + Zeros(k), source, n) == Applied(mask, source, n)
  {
  }

  lemma MaskBlock(mask: seq<Byte>, b: Block)
    ensures mask + Zeros(b.skip) + b.xors + [0] == mask + BlockMask(b)
  {
  }

  lemma NextXor(xors: seq<NonZero>, k: nat, rest: seq<Byte>, x: Byte, left: seq<Byte>)
    requires k <= |xors| && xors[k..] + ([0] + rest) == [x] + left
    ensures if k == |xors| then x == 0 && left == rest else x == xors[k] && left == xors[k + 1..] + ([0] + rest)
  {
    assert ([x] + left)[0] == x && ([x] + left)[1..] == left;
    if k == |xors| {
      assert xors[k..] + ([0] + rest) == [0] + rest;
    } else {
      assert xors[k..] + ([0] + rest) == [xors[k]] + (xors[k + 1..] + ([0] + rest));
    }
  }

  lemma MaskXor(mask: seq<Byte>, xors: seq<NonZero>, k: nat, x: Byte)
    requires k <= |xors|
    ensures k < |xors| && x == xors[k] ==> mask + xors[..k] + [x] == mask + xors[..k + 1]
    ensures k == |xors| ==> mask + xors[..k] + [x] == mask + xors + [x]
  {
    assert k == |xors| ==> xors[..k] == xors;
  }

  lemma MaskNext(blocks: seq<Block>, i: nat)
    requires i < |blocks|
    ensures Mask(blocks[..i + 1]) == Mask(blocks[..i]) + BlockMask(blocks[i])
    ensures blocks[i].skip < |Mask(blocks)|
  {
    assert blocks[..i + 1][..i] == blocks[..i];
    MaskGrows(blocks, i + 1);
  }

  lemma {:induction false} MaskGrows(blocks: seq<Block>, i: nat)
    requires i <= |blocks|
    ensures |Mask(blocks[..i])| <= |Mask(blocks)|
    decreases |blocks| - i
  {
    if i == |blocks| {
      assert blocks[..i] == blocks;
    } else {
      MaskGrows(blocks, i + 1);
      assert blocks[..i + 1][..i] == blocks[..i];
    }
  }

  class UpsData {
    const adjust: Adjust
    const patch: seq<Byte>
    const source: seq<Byte>
    const target: array<Byte>
    var targetLength: nat
    var patchOffset: nat
    var sourceOffset: nat
    var targetOffset: nat
    var patchChecksum: Crc
    var sourceChecksum: Crc
    var targetChecksum: Crc

    /** The xors met so far, zero for every byte copied. */
    ghost var mask: seq<Byte>

    ghost predicate PatchOk()
      reads this`patchOffset, this`patchChecksum
    {
      patchOffset <= |patch| && patchChecksum == Running(adjust, patch[..patchOffset])
    }

    /** The part of the patch still to be read. */
    ghost function Rest(): seq<Byte>
      requires PatchOk()
      reads this`patchOffset, this`patchChecksum
    {
      patch[patchOffset..]
    }

    ghost predicate SourceOk()
      reads this`sourceOffset, this`sourceChecksum
    {
      sourceOffset <= |source| && sourceChecksum == Running(adjust, source[..sourceOffset])
    }

    ghost predicate TargetOk()
      reads this`targetOffset, this`targetLength, this`targetChecksum, target
    {
      targetLength <= target.Length && targetChecksum == Running(adjust, target[..Min(targetOffset, targetLength)])
    }

    /** The part of the target written so far. */
    ghost function Written(): seq<Byte>
      requires TargetOk()
      reads this`targetOffset, this`targetLength, this`targetChecksum, target
    {
      target[..Min(targetOffset, targetLength)]
    }

    ghost function Beyond(): seq<Byte>
      requires TargetOk()
      reads this`targetOffset, this`targetLength, this`targetChecksum, target
    {
      target[targetLength..]
    }

    /** source_offset is min(target_offset, source_length), and every byte written is the
        exclusive or of the padded source and the mask. */
    ghost predicate Valid()
      reads this`patchOffset, this`patchChecksum, this`sourceOffset, this`sourceChecksum
      reads this`targetOffset, this`targetLength, this`targetChecksum, this`mask, target
    {
      && PatchOk() && SourceOk() && TargetOk() && targetOffset == |mask|
      && Merged(Written(), mask, source, sourceOffset, targetLength)
    }

    constructor (adjust: Adjust, patch: seq<Byte>, source: seq<Byte>, target: array<Byte>, targetLength: nat)
      requires targetLength <= target.Length
      ensures Valid() && mask == [] && patchOffset == 0
      ensures this.patch == patch && this.source == source && this.target == target
      ensures this.adjust == adjust && this.targetLength == targetLength
    {
      this.adjust, this.patch, this.source, this.target := adjust, patch, source, target;
      this.targetLength := targetLength;
      patchOffset, sourceOffset, targetOffset := 0, 0, 0;
      patchChecksum, sourceChecksum, targetChecksum := ALL_ONES, ALL_ONES, ALL_ONES;
      mask := [];
    }

    /** ups_patch_read */
    method PatchRead() returns (n: Byte)
      requires PatchOk()
      modifies this`patchOffset, this`patchChecksum
      ensures PatchOk()
      ensures if old(Rest()) == [] then n == 0 && Rest() == [] else old(Rest()) == [n] + Rest()
    {
      if patchOffset < |patch| {
        n := patch[patchOffset];
        RunningNext(adjust, patch, patchOffset);
        patchOffset := patchOffset + 1;
        patchChecksum := adjust(patchChecksum, n);
      } else {
        n := 0;
      }
    }

    /** ups_source_read */
    method SourceRead() returns (n: Byte)
      requires SourceOk()
      modifies this`sourceOffset, this`sourceChecksum
      ensures SourceOk() && n == At(source, old(sourceOffset))
      ensures n == if old(sourceOffset) < |source| then source[old(sourceOffset)] else 0
      ensures sourceOffset == if old(sourceOffset) < |source| then old(sourceOffset) + 1 else old(sourceOffset)
    {
      if sourceOffset < |source| {
        n := source[sourceOffset];
        RunningNext(adjust, source, sourceOffset);
        sourceOffset := sourceOffset + 1;
        sourceChecksum := adjust(sourceChecksum, n);
      } else {
        n := 0;
      }
    }

    /** ups_target_write */
    method TargetWrite(n: Byte)
      requires TargetOk()
      modifies this`targetOffset, this`targetChecksum, target
      ensures TargetOk() && Beyond() == old(Beyond()) && targetOffset == old(targetOffset) + 1
      ensures Written() == if old(targetOffset) < targetLength then old(Written()) + [n] else old(Written())
    {
      if targetOffset < targetLength {
        target[targetOffset] := n;
        targetChecksum := adjust(targetChecksum, n);
        assert target[..targetOffset + 1] == old(Written()) + [n];
        RunningNext(adjust, target[..], targetOffset);
        assert target[..][..targetOffset + 1] == target[..targetOffset + 1] && target[..][..targetOffset] == old(Written());
      }
      targetOffset := targetOffset + 1;
    }

    /** One byte of the source, changed by `x`, goes to the target. */
    method Merge(x: Byte)
      requires Valid()
      modifies this`sourceOffset, this`sourceChecksum, this`targetOffset, this`targetChecksum, this`mask, target
      ensures Valid() && mask == old(mask) + [x] && Beyond() == old(Beyond())
    {
      var n := SourceRead();
      assert n == At(source, |mask|);
      TargetWrite(Xor(x, n));
      MergedNext(old(Written()), mask, source, old(sourceOffset), targetLength, x, Written(), sourceOffset);
      mask := mask + [x];
    }

    /** One byte of the source goes to the target. */
    method Copy()
      requires Valid()
      modifies this`sourceOffset, this`sourceChecksum, this`targetOffset, this`targetChecksum, this`mask, target
      ensures Valid() && mask == old(mask) + [0] && Beyond() == old(Beyond())
    {
      var n := SourceRead();
      assert n == At(source, |mask|);
      TargetWrite(n);
      XorLaws(n, 0);
      MergedNext(old(Written()), mask, source, old(sourceOffset), targetLength, 0, Written(), sourceOffset);
      mask := mask + [0];
    }

    /** ups_decode */
    method Decode(ghost code: seq<Byte>, ghost rest: seq<Byte>) returns (offset: nat)
      requires PatchOk() && IsCode(code) && Rest() == code + rest
      modifies this`patchOffset, this`patchChecksum
      ensures PatchOk() && Rest() == rest && offset == Value(code) % 0x1_0000_0000_0000_0000
    {
      offset := 0;
      var shift: nat := 1;
      ghost var k: nat, d: nat, s: nat := 0, 0, 1;
      FirstDigit(code);
      while true
        invariant PatchOk() && Digits(code, k, d, s, offset, shift) && Rest() == code[k..] + rest
        decreases |code| - k
      {
        var x := PatchRead();
        assert x == code[k] && Rest() == code[k + 1..] + rest;
        offset, d := AddDigit(code, k, d, s, x, offset, shift);
        if x >= 0x80 {
          assert code[k + 1..] == [];
          break;
        }
        offset, shift, d, s := NextShift(code, k, d, s, offset, shift);
        k := k + 1;
      }
    }

    /** A number kept in an unsigned variable. */
    method DecodeUnsigned(ghost code: seq<Byte>, ghost rest: seq<Byte>) returns (v: nat)
      requires PatchOk() && IsCode(code) && Rest() == code + rest
      modifies this`patchOffset, this`patchChecksum
      ensures PatchOk() && Rest() == rest && (Value(code) < U32 ==> v == Value(code))
    {
      v := Decode(code, rest);
      v := v % U32;
    }

    /** The loop over the bytes a block leaves alone. */
    method Skip(length: nat)
      requires Valid()
      modifies this`sourceOffset, this`sourceChecksum, this`targetOffset, this`targetChecksum, this`mask, target
      ensures Valid() && mask == old(mask) + Zeros(length) && Beyond() == old(Beyond())
    {
      var left := length;
      while left > 0
        invariant left >= 0
        invariant Valid() && mask == old(mask) + Zeros(length - left) && Beyond() == old(Beyond())
      {
        Copy();
        left := left - 1;
      }
    }

    /** The loop over the bytes a block changes, ended by a zero. */
    method Change(ghost xors: seq<NonZero>, ghost rest: seq<Byte>)
      requires Valid() && Rest() == xors + ([0] + rest)
      modifies this`patchOffset, this`patchChecksum
      modifies this`sourceOffset, this`sourceChecksum, this`targetOffset, this`targetChecksum, this`mask, target
      ensures Valid() && mask == old(mask) + xors + [0] && Rest() == rest && Beyond() == old(Beyond())
    {
      ghost var k: nat := 0;
      while true
        invariant k <= |xors| && Valid() && mask == old(mask) + xors[..k] && Rest() == xors[k..] + ([0] + rest)
        invariant Beyond() == old(Beyond())
        decreases |xors| - k
      {
        var x := PatchRead();
        NextXor(xors, k, rest, x, Rest());
        MaskXor(old(mask), xors, k, x);
        Merge(x);
        if x == 0 {
          break;
        }
        k := k + 1;
      }
    }

    /** One block. */
    method ApplyBlock(ghost b: Block, ghost rest: seq<Byte>)
      requires Valid() && Rest() == BlockBytes(b, rest) && b.skip < U32
      modifies this`patchOffset, this`patchChecksum
      modifies this`sourceOffset, this`sourceChecksum, this`targetOffset, this`targetChecksum, this`mask, target
      ensures Valid() && mask == old(mask) + BlockMask(b) && Rest() == rest && Beyond() == old(Beyond())
    {
      ghost var skip, code, changes := b.skip, Encode(b.skip), b.xors + ([0] + rest);
      ValueOfEncode(skip);
      var length := DecodeUnsigned(code, changes);
      MaskBlock(mask, b);
      Skip(length);
      Change(b.xors, rest);
    }

    /** The loop over the blocks. */
    method ApplyBlocks(ghost blocks: seq<Block>, ghost trailer: seq<Byte>)
      requires Valid() && mask == [] && Rest() == BodyBytes(blocks, 0, trailer) && |trailer| == 12 <= |patch|
      requires |Mask(blocks)| < U32
      modifies this`patchOffset, this`patchChecksum
      modifies this`sourceOffset, this`sourceChecksum, this`targetOffset, this`targetChecksum, this`mask, target
      ensures Valid() && mask == Mask(blocks) && Rest() == trailer && Beyond() == old(Beyond())
    {
      ghost var i: nat := 0;
      while patchOffset < |patch| - 12
        invariant i <= |blocks| && Valid() && mask == Mask(blocks[..i])
        invariant Rest() == BodyBytes(blocks, i, trailer) && Beyond() == old(Beyond())
        decreases |blocks| - i
      {
        MaskNext(blocks, i);
        ApplyBlock(blocks[i], BodyBytes(blocks, i + 1, trailer));
        i := i + 1;
      }
      assert blocks[..i] == blocks;
    }

    /** What the blocks do not reach is copied, then filled with zeros. */
    method Tail()
      requires Valid()
      modifies this`sourceOffset, this`sourceChecksum, this`targetOffset, this`targetChecksum, this`mask, target
      ensures Valid() && sourceOffset == |source| && Written() == Applied(old(mask), source, targetLength)
      ensures Beyond() == old(Beyond()) && targetOffset >= targetLength
    {
      ghost var was, k: nat := mask, 0;
      assert Zeros(0) == [];
      while sourceOffset < |source|
        invariant Valid() && mask == was + Zeros(k) && Beyond() == old(Beyond())
      {
        Copy();
        k := k + 1;
      }
      while targetOffset < targetLength
        invariant Valid() && mask == was + Zeros(k) && Beyond() == old(Beyond()) && sourceOffset == |source|
      {
        Copy();
        k := k + 1;
      }
      AppliedZeros(was, k, source, targetLength);
    }

    /** Four bytes of the trailer. */
    method ReadSum(ghost four: seq<Byte>, ghost rest: seq<Byte>) returns (sum: nat)
      requires PatchOk() && Rest() == four + rest && |four| == 4
      modifies this`patchOffset, this`patchChecksum
      ensures PatchOk() && Rest() == rest && sum == FromLittleEndian(four)
    {
      sum := 0;
      for i := 0 to 4
        invariant PatchOk() && Rest() == four[i..] + rest && sum == FromLittleEndian(four[..i])
      {
        var n := PatchRead();
        assert n == four[i] && Rest() == four[i + 1..] + rest;
        OneByteMore(four, i);
        sum := sum + n * Pow256(i);
      }
      assert four[..4] == four;
    }

    /** The four letters at the start. */
    method ReadMagic() returns (ok: bool)
      requires PatchOk() && patchOffset == 0 && |patch| >= 4
      modifies this`patchOffset, this`patchChecksum
      ensures PatchOk() && ok == (patch[..4] == MAGIC) && (ok ==> Rest() == patch[4..])
    {
      for i := 0 to 4
        invariant PatchOk() && Rest() == patch[i..] && patch[..i] == MAGIC[..i]
      {
        var n := PatchRead();
        assert n == patch[i] && Rest() == patch[i + 1..];
        if n != MAGIC[i] {
          return false;
        }
      }
      return true;
    }

    method ReadSizes(ghost p: Patch) returns (sourceSize: nat, targetSize: nat)
      requires PatchOk() && patch == PatchBytes(p) && Rest() == patch[4..] && Fits(p)
      modifies this`patchOffset, this`patchChecksum
      ensures PatchOk() && Rest() == Body(p)
      ensures sourceSize == p.sourceSize && targetSize == p.targetSize
    {
      ghost var first, second, body := Encode(p.sourceSize), Encode(p.targetSize), Body(p);
      AfterMagic(p, first, second, body);
      ValueOfEncode(p.sourceSize);
      ValueOfEncode(p.targetSize);
      sourceSize := DecodeUnsigned(first, second + body);
      targetSize := DecodeUnsigned(second, body);
    }

    /** The header: its length, the four letters and the two sizes. */
    method Open(ghost p: Patch) returns (ok: bool, sourceSize: nat, targetSize: nat)
      requires PatchOk() && patchOffset == 0 && (HasHeader(patch) ==> patch == PatchBytes(p) && Fits(p))
      modifies this`patchOffset, this`patchChecksum
      ensures PatchOk() && ok == HasHeader(patch)
      ensures ok ==> Rest() == Body(p) && sourceSize == p.sourceSize && targetSize == p.targetSize
    {
      sourceSize, targetSize := 0, 0;
      if |patch| < 18 {
        return false, 0, 0;
      }
      ok := ReadMagic();
      if ok {
        sourceSize, targetSize := ReadSizes(p);
      }
    }

    /** data.target_length = *targetlength */
    method Resize(length: nat)
      requires Valid() && mask == [] && length <= targetLength
      modifies this`targetLength
      ensures Valid() && targetLength == length
    {
      targetLength := length;
      assert Written() == [];
    }

    /** The checks at the end. */
    method Judge(ghost p: Patch, sourceSize: nat, targetSize: nat) returns (status: PatchError)
      requires Valid() && Rest() == Trailer(p.sums) && |patch| >= 12
      requires sourceSize == p.sourceSize && targetSize == p.targetSize
      requires sourceOffset == |source| && targetOffset >= targetLength == ResultSize(p, |source|)
      requires |source| == sourceSize || |source| == targetSize
      modifies this`patchOffset, this`patchChecksum
      ensures Verdict(adjust, patch, p, source, Written(), status)
    {
      ghost var last := LittleEndian(p.sums.patch, 4);
      var sourceRead := ReadSum(LittleEndian(p.sums.source, 4), LittleEndian(p.sums.target, 4) + last);
      var targetRead := ReadSum(LittleEndian(p.sums.target, 4), last);
      assert patchOffset == |patch| - 4;
      var patchResult := Not(patchChecksum);
      var sourceResult, targetResult := Not(sourceChecksum), Not(targetChecksum);
      assert last == last + [];
      var patchRead := ReadSum(last, []);
      SumRoundTrip(p.sums.source);
      SumRoundTrip(p.sums.target);
      SumRoundTrip(p.sums.patch);
      assert source[..sourceOffset] == source;
      assert sourceResult == Sum(adjust, source) && targetResult == Sum(adjust, Written());

      if patchResult != patchRead {
        return PatchInvalid;
      }
      if sourceResult == sourceRead && |source| == sourceSize {
        if targetResult == targetRead && targetLength == targetSize {
          return Success;
        }
        return TargetInvalid;
      } else if sourceResult == targetRead && |source| == targetSize {
        if targetResult == sourceRead && targetLength == sourceSize {
          return Success;
        }
        return TargetInvalid;
      }
      return SourceInvalid;
    }

    /** The blocks, the tail and the checks. */
    method Run(ghost p: Patch, sourceSize: nat, targetSize: nat) returns (status: PatchError)
      requires Valid() && mask == [] && Rest() == Body(p) && Fits(p) && |patch| >= 12
      requires sourceSize == p.sourceSize && targetSize == p.targetSize
      requires targetLength == ResultSize(p, |source|) && (|source| == sourceSize || |source| == targetSize)
      modifies this`patchOffset, this`patchChecksum
      modifies this`sourceOffset, this`sourceChecksum, this`targetOffset, this`targetChecksum, this`mask, target
      ensures TargetOk() && target[..targetLength] == Applied(Mask(p.blocks), source, targetLength)
      ensures Beyond() == old(Beyond()) && Verdict(adjust, patch, p, source, target[..targetLength], status)
    {
      ApplyBlocks(p.blocks, Trailer(p.sums));
      Tail();
      assert Written() == target[..targetLength];
      status := Judge(p, sourceSize, targetSize);
    }

    /** Everything after the size checks. */
    method Apply(ghost p: Patch, sourceSize: nat, targetSize: nat, length: nat) returns (status: PatchError)
      requires Valid() && mask == [] && Rest() == Body(p) && Fits(p) && |patch| >= 12
      requires sourceSize == p.sourceSize && targetSize == p.targetSize
      requires length == ResultSize(p, |source|) && (|source| == sourceSize || |source| == targetSize)
      requires length <= targetLength
      modifies this, target
      ensures target[..length] == Applied(Mask(p.blocks), source, length)
      ensures target[length..] == old(target[length..])
      ensures Verdict(adjust, patch, p, source, target[..length], status)
    {
      Resize(length);
      status := Run(p, sourceSize, targetSize);
    }
  }

  lemma AppliedOutcome(adjust: Adjust, patch: seq<Byte>, p: Patch, source: seq<Byte>, capacity: nat,
                       before: seq<Byte>, status: PatchError, length: nat, after: seq<Byte>)
    requires HasHeader(patch) && (|source| == p.sourceSize || |source| == p.targetSize)
    requires length == ResultSize(p, |source|) <= capacity && length <= |after| == |before|
    requires after[..length] == Applied(Mask(p.blocks), source, length) && after[length..] == before[length..]
    requires Verdict(adjust, patch, p, source, after[..length], status)
    ensures Outcome(adjust, patch, p, source, capacity, before, status, length, after)
  {
  }

  /** ups_apply_patch: `targetLength` is the capacity coming in, `length` what it becomes. A
      patch with the right header is well formed, the encoding of `p`. */
  method UpsApplyPatch(adjust: Adjust, patch: seq<Byte>, ghost p: Patch, source: seq<Byte>,
                       target: array<Byte>, targetLength: nat) returns (status: PatchError, length: nat)
    requires |patch| < U32 && |source| < U32 && targetLength < U32 && targetLength <= target.Length
    requires HasHeader(patch) ==> patch == PatchBytes(p) && Fits(p)
    modifies target
    ensures Outcome(adjust, patch, p, source, targetLength, old(target[..]), status, length, target[..])
  {
    length := targetLength;
    ghost var before := target[..];
    var data := new UpsData(adjust, patch, source, target, targetLength);
    var ok, sourceSize, targetSize := data.Open(p);
    if !ok {
      return PatchInvalid, length;
    }
    if |source| != sourceSize && |source| != targetSize {
      return SourceInvalid, length;
    }
    length := if |source| == sourceSize then targetSize else sourceSize;
    if targetLength < length {
      return TargetTooSmall, length;
    }
    status := data.Apply(p, sourceSize, targetSize, length);
    ghost var after := target[..];
    assert after[..length] == target[..length] && after[length..] == target[length..];
    AppliedOutcome(adjust, patch, p, source, targetLength, before, status, length, after);
  }
}
