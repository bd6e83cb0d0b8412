/** UPS patches: what a patch means, apart from how it is applied. */
module UpsFormat {
  import opened Bits
  import opened Bytes
  import opened NumberCode
  import opened PatchCommon

  // ---------------------------------------------------------------- exclusive or

  function XorBits(a: nat, b: nat, bits: nat): (r: nat) {
    if bits == 0 then 0 else (if a % 2 == b % 2 then 0 else 1) + 2 * XorBits(a / 2, b / 2, bits - 1)
  }

  lemma {:induction false} XorBitsLaws(a: nat, b: nat, bits: nat)
    ensures XorBits(a, b, bits) == XorBits(b, a, bits)
    ensures a < Pow2(bits) ==> XorBits(a, 0, bits) == a && XorBits(XorBits(a, b, bits), b, bits) == a
    ensures XorBits(a, b, bits) < Pow2(bits)
  {
    if bits > 0 {
      XorBitsLaws(a / 2, b / 2, bits - 1);
      XorBitsLaws(a / 2, 0, bits - 1);
      assert XorBits(a, b, bits) / 2 == XorBits(a / 2, b / 2, bits - 1);
    }
  }

  /** a ^ b */
  function Xor(a: Byte, b: Byte): Byte {
    XorFits(a, b);
    XorBits(a, b, 8)
  }

  lemma XorFits(a: Byte, b: Byte)
    ensures XorBits(a, b, 8) < 0x100
  {
    Pow2Of8();
    XorBitsLaws(a, b, 8);
  }

  lemma XorLaws(a: Byte, b: Byte)
    ensures Xor(a, b) == Xor(b, a) && Xor(a, 0) == a && Xor(Xor(a, b), b) == a
  {
    Pow2Of8();
    XorBitsLaws(a, b, 8);
  }

  lemma {:induction false} XorBitsIs(a: nat, b: nat, bits: nat, i: nat)
    requires i < bits
    ensures Bit(XorBits(a, b, bits), i) <==> Bit(a, i) != Bit(b, i)
    decreases bits
  {
    var x := XorBits(a, b, bits);
    assert x / 2 == XorBits(a / 2, b / 2, bits - 1);
    var k := if i == 0 then 0 else i - 1;
    BitOfHalf(x, k);
    BitOfHalf(a, k);
    BitOfHalf(b, k);
    if i > 0 {
      XorBitsIs(a / 2, b / 2, bits - 1, k);
    }
  }

  /** The bits of `x` at one place, from those of `a` and `b`, as numbers. */
  lemma BitsAdd(x: nat, a: nat, b: nat, p: nat)
    requires 0 < p && (x / p % 2 == 1 <==> (a / p % 2 == 1) != (b / p % 2 == 1))
    ensures x / p % 2 == (a / p + b / p) % 2
  {
    OddSum(x / p, a / p, b / p);
  }

  lemma OddSum(x: nat, a: nat, b: nat)
    requires x % 2 == 1 <==> (a % 2 == 1) != (b % 2 == 1)
    ensures x % 2 == (a + b) % 2
  {
  }

  /** Each bit of the exclusive or is the sum of the two bits, modulo 2. */
  lemma XorIsBitwise(a: Byte, b: Byte, i: nat)
    requires i < 8
    ensures Xor(a, b) / Pow2(i) % 2 == (a / Pow2(i) + b / Pow2(i)) % 2
  {
    var x, p := Xor(a, b), Pow2(i);
    XorBitsIs(a, b, 8, i);
    BitsAdd(x, a, b, p);
  }

  /** What has to be xored onto `a` to get `b`. */
  lemma XorSolves(a: Byte, b: Byte, x: Byte)
    ensures Xor(x, a) == b <==> x == Xor(a, b)
  {
    XorLaws(x, a);
    XorLaws(b, a);
  }

  // ---------------------------------------------------------------- patches

  type NonZero = x: Byte | x != 0 witness 1

  /** A run of equal bytes, then a run of differing ones, then an equal one. */
  datatype Block = Block(skip: nat, xors: seq<NonZero>)

  datatype Patch = Patch(sourceSize: nat, targetSize: nat, blocks: seq<Block>, sums: Sums)

  function Zeros(n: nat): (r: seq<Byte>)
    ensures |r| == n
  {
    seq(n, i => 0)
  }

  function BlockMask(b: Block): (r: seq<Byte>) {
    Zeros(b.skip) + b.xors + [0]
  }

  /** The bytes that differ, as the exclusive or of both sides. */
  function Mask(blocks: seq<Block>): (r: seq<Byte>) {
    if blocks == [] then [] else Mask(blocks[..|blocks| - 1]) + BlockMask(blocks[|blocks| - 1])
  }

  /** How far some blocks reach: each takes the bytes it leaves alone, those it changes, and the
      one on which its final zero falls. */
  function Reach(blocks: seq<Block>): nat {
    if blocks == [] then 0
    else
      var b := blocks[|blocks| - 1];
      Reach(blocks[..|blocks| - 1]) + b.skip + |b.xors| + 1
  }

  /** Where the bytes of block `k` fall: its xors behind the bytes it skips, zeros around them. */
  lemma {:induction false} MaskPlaces(blocks: seq<Block>, k: nat, j: nat)
    requires k < |blocks| && j <= blocks[k].skip + |blocks[k].xors|
    ensures |Mask(blocks)| == Reach(blocks) && Reach(blocks[..k]) + j < Reach(blocks)
    ensures var b := blocks[k];
      Mask(blocks)[Reach(blocks[..k]) + j] == if b.skip <= j < b.skip + |b.xors| then b.xors[j - b.skip] else 0
  {
    var n := |blocks| - 1;
    var before := blocks[..n];
    assert before[..k] == blocks[..k];
    MaskLength(before);
    if k < n {
      MaskPlaces(before, k, j);
    }
  }

  lemma {:induction false} MaskLength(blocks: seq<Block>)
    ensures |Mask(blocks)| == Reach(blocks)
  {
    if blocks != [] {
      MaskLength(blocks[..|blocks| - 1]);
    }
  }

  /** The bytes of a block, before whatever follows it. */
  function BlockBytes(b: Block, rest: seq<Byte>): seq<Byte> {
    Encode(b.skip) + (b.xors + ([0] + rest))
  }

  /** The bytes of the blocks from block `i` on, before the trailer. */
  function BodyBytes(blocks: seq<Block>, i: nat, trailer: seq<Byte>): (r: seq<Byte>)
    requires i <= |blocks|
    ensures |r| >= |trailer| + (if i < |blocks| then 1 else 0)
    decreases |blocks| - i
  {
    if i == |blocks| then trailer else BlockBytes(blocks[i], BodyBytes(blocks, i + 1, trailer))
  }

  const MAGIC: seq<Byte> := [0x55, 0x50, 0x53, 0x31] // "UPS1"

  /** Everything behind the header. */
  function Body(p: Patch): seq<Byte> {
    BodyBytes(p.blocks, 0, Trailer(p.sums))
  }

  function PatchBytes(p: Patch): seq<Byte> {
    MAGIC + (Encode(p.sourceSize) + (Encode(p.targetSize) + Body(p)))
  }

  predicate HasHeader(patch: seq<Byte>) {
    |patch| >= 18 && patch[..4] == MAGIC
  }

  lemma {:induction false} BodyEnds(blocks: seq<Block>, i: nat, trailer: seq<Byte>)
    requires i <= |blocks|
    ensures var b := BodyBytes(blocks, i, trailer); b[|b| - |trailer|..] == trailer
    decreases |blocks| - i
  {
    if i < |blocks| {
      var rest := BodyBytes(blocks, i + 1, trailer);
      BodyEnds(blocks, i + 1, trailer);
      var b := BlockBytes(blocks[i], rest);
      assert b[|b| - |rest|..] == rest;
      assert b[|b| - |trailer|..] == rest[|rest| - |trailer|..];
    }
  }

  /** How a patch begins and ends: four letters and two numbers, and the checksums. */
  lemma Layout(p: Patch) returns (source: seq<Byte>, target: seq<Byte>, body: seq<Byte>)
    ensures PatchBytes(p) == [0x55, 0x50, 0x53, 0x31] + (source + (target + body))
    ensures IsCode(source) && IsCode(target) && Value(source) == p.sourceSize && Value(target) == p.targetSize
    ensures |body| >= 12 && body[|body| - 12..] == Trailer(p.sums)
  {
    source, target, body := Encode(p.sourceSize), Encode(p.targetSize), Body(p);
    ValueOfEncode(p.sourceSize);
    ValueOfEncode(p.targetSize);
    BodyEnds(p.blocks, 0, Trailer(p.sums));
  }

  /** The sizes fit the 32-bit fields of the decoder. */
  predicate Fits(p: Patch) {
    p.sourceSize < U32 && p.targetSize < U32 && |Mask(p.blocks)| < U32
  }

  // ---------------------------------------------------------------- meaning

  /** A byte of a file that reads as zero past its end. */
  function At(s: seq<Byte>, i: nat): Byte {
    if i < |s| then s[i] else 0
  }

  /** `n` bytes of the padded exclusive or of the mask and a file. */
  function Applied(mask: seq<Byte>, s: seq<Byte>, n: nat): (r: seq<Byte>)
    ensures |r| == n
  {
    seq(n, i requires 0 <= i < n => Xor(At(mask, i), At(s, i)))
  }

  /** The mask between two files, each padded with zeros. */
  ghost predicate Separates(mask: seq<Byte>, source: seq<Byte>, target: seq<Byte>) {
    forall i :: 0 <= i < |source| || 0 <= i < |target| ==> At(mask, i) == Xor(At(source, i), At(target, i))
  }

  lemma AppliedIsTarget(mask: seq<Byte>, source: seq<Byte>, target: seq<Byte>)
    ensures Applied(mask, source, |target|) == target
       <==> forall i :: 0 <= i < |target| ==> At(mask, i) == Xor(At(source, i), At(target, i))
  {
    forall i | 0 <= i < |target|
      ensures Applied(mask, source, |target|)[i] == target[i] <==> At(mask, i) == Xor(At(source, i), At(target, i))
    {
      XorSolves(At(source, i), At(target, i), At(mask, i));
    }
  }

  /** UPS is its own inverse, for equal and unequal sizes: one patch leads from the source to
      the target and back exactly when its mask is the exclusive or of the two. */
  lemma BothWays(mask: seq<Byte>, source: seq<Byte>, target: seq<Byte>)
    ensures Applied(mask, source, |target|) == target && Applied(mask, target, |source|) == source
       <==> Separates(mask, source, target)
  {
    AppliedIsTarget(mask, source, target);
    AppliedIsTarget(mask, target, source);
    forall i | 0 <= i < |source| || 0 <= i < |target|
      ensures Xor(At(source, i), At(target, i)) == Xor(At(target, i), At(source, i))
    {
      XorLaws(At(source, i), At(target, i));
    }
  }

  // ---------------------------------------------------------------- outcomes

  /** The patch read from the other side. */
  function Flip(p: Patch): Patch {
    p.(sourceSize := p.targetSize, targetSize := p.sourceSize, sums := Sums(p.sums.target, p.sums.source, p.sums.patch))
  }

  predicate Intact(adjust: Adjust, patch: seq<Byte>, p: Patch)
    requires |patch| >= 4
  {
    Sum(adjust, patch[..|patch| - 4]) == p.sums.patch
  }

  /** `s` has the size and checksum the patch gives for its source. */
  predicate IsSource(adjust: Adjust, p: Patch, s: seq<Byte>) {
    |s| == p.sourceSize && Sum(adjust, s) == p.sums.source
  }

  predicate LeadsTo(adjust: Adjust, p: Patch, source: seq<Byte>, out: seq<Byte>) {
    IsSource(adjust, p, source) && IsSource(adjust, Flip(p), out)
  }

  function ResultSize(p: Patch, size: nat): nat {
    if size == p.sourceSize then p.targetSize else p.sourceSize
  }

  /** Which of the four verdicts a fully applied patch gets. */
  ghost predicate Verdict(adjust: Adjust, patch: seq<Byte>, p: Patch, source: seq<Byte>, out: seq<Byte>,
                          status: PatchError)
    requires |patch| >= 4
  {
    if !Intact(adjust, patch, p) then status == PatchInvalid
    else if !IsSource(adjust, p, source) && !IsSource(adjust, Flip(p), source) then status == SourceInvalid
    else if LeadsTo(adjust, p, source, out) || LeadsTo(adjust, Flip(p), source, out) then status == Success
    else status == TargetInvalid
  }

  /** Everything a call of the applier does: its status, the length it reports and the
      contents of the target buffer. */
  ghost predicate Outcome(adjust: Adjust, patch: seq<Byte>, p: Patch, source: seq<Byte>, capacity: nat,
                          before: seq<Byte>, status: PatchError, length: nat, after: seq<Byte>) {
    if !HasHeader(patch) then
      status == PatchInvalid && length == capacity && after == before
    else if |source| != p.sourceSize && |source| != p.targetSize then
      status == SourceInvalid && length == capacity && after == before
    else
      && length == ResultSize(p, |source|)
      && if capacity < length then
           status == TargetTooSmall && after == before
         else
           && length <= |after| == |before|
           && after[..length] == Applied(Mask(p.blocks), source, length) && after[length..] == before[length..]
           && Verdict(adjust, patch, p, source, after[..length], status)
  }

  /** Which call ends with which error. The patch's own checksum comes first; then the source has to
      have one size and checksum of the patch, and the result the other. */
  lemma WhichError(adjust: Adjust, patch: seq<Byte>, p: Patch, source: seq<Byte>, capacity: nat,
                   before: seq<Byte>, status: PatchError, length: nat, after: seq<Byte>)
    requires Outcome(adjust, patch, p, source, capacity, before, status, length, after)
    ensures |patch| < 18 || patch[..4] != [0x55, 0x50, 0x53, 0x31] ==> status == PatchInvalid
    ensures |patch| >= 18 && patch[..4] == [0x55, 0x50, 0x53, 0x31] ==>
      var forth, back := |source| == p.sourceSize, |source| == p.targetSize;
      var size := if forth then p.targetSize else p.sourceSize;
      && (status == TargetTooSmall <==> (forth || back) && capacity < size)
      && (!forth && !back ==> status == SourceInvalid)
      && ((forth || back) && size <= capacity ==>
            var intact := Sum(adjust, patch[..|patch| - 4]) == p.sums.patch;
            var left := forth && Sum(adjust, source) == p.sums.source;
            var right := back && Sum(adjust, source) == p.sums.target;
            && length == size <= |after| == |before| && after[length..] == before[length..]
            && (forall i :: 0 <= i < length ==> after[i] == Xor(At(Mask(p.blocks), i), At(source, i)))
            && (status == PatchInvalid <==> !intact)
            && (status == SourceInvalid <==> intact && !left && !right)
            && (status == Success || status == TargetInvalid <==> intact && (left || right)))
  {
  }

  /** The patch between two files: its mask separates them and its checksums are theirs. */
  ghost predicate Between(adjust: Adjust, p: Patch, source: seq<Byte>, target: seq<Byte>) {
    && IsSource(adjust, p, source) && IsSource(adjust, Flip(p), target)
    && Separates(Mask(p.blocks), source, target) && Intact(adjust, PatchBytes(p), p)
  }

  lemma AfterMagic(p: Patch, first: seq<Byte>, second: seq<Byte>, body: seq<Byte>)
    requires first == Encode(p.sourceSize) && second == Encode(p.targetSize)
    requires body == Body(p)
    ensures PatchBytes(p)[4..] == first + (second + body)
  {
  }

  lemma PatchBytesHaveHeader(p: Patch)
    ensures HasHeader(PatchBytes(p))
  {
    assert |Encode(p.sourceSize)| >= 1 && |Encode(p.targetSize)| >= 1;
    assert PatchBytes(p)[..4] == MAGIC;
  }

  /** A patch between two files, applied to either of them in a buffer large enough, succeeds
      and gives the other. */
  lemma ThereAndBack(adjust: Adjust, p: Patch, source: seq<Byte>, target: seq<Byte>, capacity: nat,
                     before: seq<Byte>, status: PatchError, length: nat, after: seq<Byte>)
    requires Between(adjust, p, source, target)
    requires |source| <= capacity && |target| <= capacity
    ensures Outcome(adjust, PatchBytes(p), p, source, capacity, before, status, length, after) ==>
      status == Success && length == |target| <= |after| && after[..length] == target
    ensures Outcome(adjust, PatchBytes(p), p, target, capacity, before, status, length, after) ==>
      status == Success && length == |source| <= |after| && after[..length] == source
  {
    PatchBytesHaveHeader(p);
    BothWays(Mask(p.blocks), source, target);
  }

  // ---------------------------------------------------------------- every pair of files has a patch

  /** The mask that `Separates` asks for. */
  function Difference(source: seq<Byte>, target: seq<Byte>): (r: seq<Byte>) {
    seq(if |source| < |target| then |target| else |source|,
        i requires 0 <= i => Xor(At(source, i), At(target, i)))
  }

  /** The first differing bytes from `k` on. */
  function Differing(m: seq<Byte>, k: nat): (r: seq<NonZero>)
    requires k <= |m|
    ensures k + |r| <= |m| && m[k..k + |r|] == r && At(m, k + |r|) == 0
    decreases |m| - k
  {
    if k == |m| || m[k] == 0 then []
    else
      var rest := Differing(m, k + 1);
      assert m[k..k + 1 + |rest|] == [m[k]] + m[k + 1..k + 1 + |rest|];
      [m[k]] + rest
  }

  /** Any mask can be cut into blocks that end at most one byte past it. */
  lemma {:induction false} BlocksExist(m: seq<Byte>, k: nat) returns (blocks: seq<Block>)
    requires k <= |m| + 1
    ensures |Mask(blocks)| >= k && |Mask(blocks)| <= |m| + 1
    ensures forall i :: 0 <= i < |Mask(blocks)| ==> Mask(blocks)[i] == At(m, i)
  {
    if k == 0 {
      blocks := [];
    } else {
      var before := BlocksExist(m, k - 1);
      var at := |Mask(before)|;
      if at >= k {
        blocks := before;
      } else {
        var xors := Differing(m, at);
        blocks := before + [Block(0, xors)];
        assert blocks[..|blocks| - 1] == before;
        assert m[at..at + |xors|] == xors;
      }
    }
  }

  lemma {:induction false} BodyBeforeTrailer(blocks: seq<Block>, i: nat, trailer: seq<Byte>)
    requires i <= |blocks|
    ensures BodyBytes(blocks, i, trailer) == BodyBytes(blocks, i, []) + trailer
    decreases |blocks| - i
  {
    if i < |blocks| {
      BodyBeforeTrailer(blocks, i + 1, trailer);
    }
  }

  /** Everything but the last checksum. */
  function Front(p: Patch): seq<Byte> {
    MAGIC + Encode(p.sourceSize) + Encode(p.targetSize) + BodyBytes(p.blocks, 0, [])
    + LittleEndian(p.sums.source, 4) + LittleEndian(p.sums.target, 4)
  }

  lemma FrontOf(p: Patch)
    ensures PatchBytes(p) == Front(p) + LittleEndian(p.sums.patch, 4)
  {
    BodyBeforeTrailer(p.blocks, 0, Trailer(p.sums));
  }

  /** Any two files have a patch between them. */
  lemma EveryPairHasAPatch(adjust: Adjust, source: seq<Byte>, target: seq<Byte>) returns (p: Patch)
    requires |source| < U32 - 1 && |target| < U32 - 1
    ensures Between(adjust, p, source, target) && Fits(p)
  {
    var m := Difference(source, target);
    var blocks := BlocksExist(m, |m|);
    forall i | 0 <= i < |source| || 0 <= i < |target|
      ensures At(Mask(blocks), i) == Xor(At(source, i), At(target, i))
    {
      assert Mask(blocks)[i] == At(m, i) == m[i];
    }
    var draft := Patch(|source|, |target|, blocks, Sums(Sum(adjust, source), Sum(adjust, target), 0));
    p := draft.(sums := draft.sums.(patch := Sum(adjust, Front(draft))));
    FrontOf(p);
    assert Front(p) == Front(draft);
    assert PatchBytes(p)[..|PatchBytes(p)| - 4] == Front(p);
  }
}
