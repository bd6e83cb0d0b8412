/** The BPS applier: reads without bounds checks, so a patch with the right header has to be
    well formed. */
module Bps {
  import opened Bytes
  import opened NumberCode
  import opened PatchCommon
  import opened BpsFormat

  class BpsData {
    const adjust: Adjust
    const patch: seq<Byte>
    const source: seq<Byte>
    const target: array<Byte>
    var patchOffset: nat
    var sourceOffset: nat
    var targetOffset: nat
    var outputOffset: nat
    var patchChecksum: Crc
    var targetChecksum: Crc

    /** The contents of the target buffer to begin with. */
    ghost const before: seq<Byte>

    ghost predicate PatchOk()
      reads this`patchOffset, this`patchChecksum
    {
      patchOffset <= |patch| && patchChecksum == Running(adjust, patch[..patchOffset])
    }

    /** The part of the patch still to be read. */
    ghost function Rest(): seq<Byte>
      requires PatchOk()
      reads this`patchOffset, this`patchChecksum
    {
      patch[patchOffset..]
    }

    /** `out` is what has been written; the rest of the buffer is as it was. */
    ghost predicate Wrote(out: seq<Byte>)
      reads this`outputOffset, this`targetChecksum, target
    {
      && outputOffset == |out| <= |before| && target[..] == out + before[|out|..]
      && targetChecksum == Running(adjust, out)
    }

    /** The fields are those of the copy machine. */
    ghost predicate At(m: Machine)
      reads this`sourceOffset, this`targetOffset, this`outputOffset, this`targetChecksum, target
    {
      Wrote(m.out) && sourceOffset == m.source && targetOffset == m.target
    }

    constructor (adjust: Adjust, patch: seq<Byte>, source: seq<Byte>, target: array<Byte>)
      ensures PatchOk() && patchOffset == 0 && this.patch == patch && At(Machine([], 0, 0))
      ensures this.adjust == adjust && this.source == source && this.target == target && before == target[..]
    {
      before := target[..];
      this.adjust, this.patch, this.source, this.target := adjust, patch, source, target;
      patchOffset, sourceOffset, targetOffset, outputOffset := 0, 0, 0, 0;
      patchChecksum, targetChecksum := ALL_ONES, ALL_ONES;
    }

    /** bps_read */
    method Read() returns (n: Byte)
      requires PatchOk() && Rest() != []
      modifies this`patchOffset, this`patchChecksum
      ensures PatchOk() && old(Rest()) == [n] + Rest()
    {
      n := patch[patchOffset];
      RunningNext(adjust, patch, patchOffset);
      patchOffset := patchOffset + 1;
      patchChecksum := adjust(patchChecksum, n);
    }

    /** bps_write */
    method Write(n: Byte, ghost out: seq<Byte>)
      requires Wrote(out) && |out| < target.Length
      modifies this`outputOffset, this`targetChecksum, target
      ensures Wrote(out + [n])
    {
      target[outputOffset] := n;
      outputOffset := outputOffset + 1;
      targetChecksum := adjust(targetChecksum, n);
      assert (out + [n])[..|out|] == out;
      assert target[..] == out + [n] + before[|out| + 1..];
    }

    /** bps_decode */
    method Decode(ghost code: seq<Byte>, ghost rest: seq<Byte>) returns (data: nat)
      requires PatchOk() && IsCode(code) && Rest() == code + rest
      modifies this`patchOffset, this`patchChecksum
      ensures PatchOk() && Rest() == rest && data == Value(code) % 0x1_0000_0000_0000_0000
    {
      data := 0;
      var shift: nat := 1;
      ghost var k: nat, d: nat, s: nat := 0, 0, 1;
      FirstDigit(code);
      while true
        invariant PatchOk() && Digits(code, k, d, s, data, shift) && Rest() == code[k..] + rest
        decreases |code| - k
      {
        var x := Read();
        assert x == code[k] && Rest() == code[k + 1..] + rest;
        data, d := AddDigit(code, k, d, s, x, data, shift);
        if x >= 0x80 {
          assert code[k + 1..] == [];
          break;
        }
        data, shift, d, s := NextShift(code, k, d, s, data, shift);
        k := k + 1;
      }
    }

    /** A number that fits 64 bits, read back. */
    method DecodeSize(ghost v: nat, ghost rest: seq<Byte>) returns (data: nat)
      requires PatchOk() && Rest() == Encode(v) + rest && v < U64
      modifies this`patchOffset, this`patchChecksum
      ensures PatchOk() && Rest() == rest && data == v
    {
      ValueOfEncode(v);
      data := Decode(Encode(v), rest);
    }

    /** The signed offset of a copy, through an int. */
    method DecodeDelta(ghost d: int, ghost rest: seq<Byte>) returns (offset: int)
      requires PatchOk() && Rest() == Encode(DeltaCode(d)) + rest && DeltaCode(d) < U64
      modifies this`patchOffset, this`patchChecksum
      ensures PatchOk() && Rest() == rest && offset == Delta(DeltaCode(d))
      ensures offset == d <==> -0x4000_0000 < d < 0x4000_0000
    {
      DeltaIsRight(d);
      var v := DecodeSize(DeltaCode(d), rest);
      offset := ToInt(v);
      var negative := offset % 2 == 1;
      offset := offset / 2;
      if negative {
        offset := -offset;
      }
    }

    /** SOURCE_READ */
    method ReadSource(length: nat, ghost out: seq<Byte>)
      requires Wrote(out) && |out| + length <= |source| && |out| + length <= |before|
      modifies this`outputOffset, this`targetChecksum, target
      ensures Wrote(out + source[|out|..|out| + length])
    {
      var left := length;
      ghost var sofar := out;
      while left > 0
        invariant 0 <= left <= length && Wrote(sofar)
        invariant sofar == out + source[|out|..|out| + length - left]
      {
        Write(source[outputOffset], sofar);
        sofar := sofar + [source[|sofar|]];
        left := left - 1;
      }
    }

    /** TARGET_READ */
    method ReadTarget(length: nat, ghost data: seq<Byte>, ghost rest: seq<Byte>, ghost out: seq<Byte>)
      requires Wrote(out) && |out| + length <= |before|
      requires PatchOk() && Rest() == data + rest && |data| == length
      modifies this`outputOffset, this`targetChecksum, target, this`patchOffset, this`patchChecksum
      ensures Wrote(out + data) && PatchOk() && Rest() == rest
    {
      var left := length;
      ghost var k: nat := 0;
      assert out + data[..0] == out;
      while left > 0
        invariant left == length - k >= 0 && Wrote(out + data[..k]) && PatchOk() && Rest() == data[k..] + rest
      {
        var n := Read();
        assert n == data[k] && Rest() == data[k + 1..] + rest;
        assert out + data[..k] + [n] == out + data[..k + 1];
        Write(n, out + data[..k]);
        left, k := left - 1, k + 1;
      }
      assert data[..k] == data;
    }

    /** SOURCE_COPY */
    method CopySource(length: nat, ghost out: seq<Byte>)
      requires Wrote(out) && |out| + length <= |before| && sourceOffset + length <= |source|
      modifies this`outputOffset, this`targetChecksum, target, this`sourceOffset
      ensures Wrote(out + source[old(sourceOffset)..old(sourceOffset) + length])
      ensures sourceOffset == old(sourceOffset) + length
    {
      var left := length;
      ghost var at, sofar := sourceOffset, out;
      while left > 0
        invariant 0 <= left <= length && sourceOffset == at + length - left && Wrote(sofar)
        invariant sofar == out + source[at..sourceOffset]
      {
        Write(source[sourceOffset], sofar);
        sofar := sofar + [source[sourceOffset]];
        sourceOffset := sourceOffset + 1;
        left := left - 1;
      }
    }

    /** TARGET_COPY */
    method CopyTarget(length: nat, ghost out: seq<Byte>)
      requires Wrote(out) && |out| + length <= |before| && targetOffset < |out|
      modifies this`outputOffset, this`targetChecksum, target, this`targetOffset
      ensures Wrote(out + Repeated(out, old(targetOffset), length))
      ensures targetOffset == old(targetOffset) + length
    {
      var left := length;
      ghost var at, sofar := targetOffset, out;
      assert out == out + Repeated(out, at, 0);
      while left > 0
        invariant 0 <= left <= length && targetOffset == at + length - left && Wrote(sofar)
        invariant sofar == out + Repeated(out, at, length - left)
      {
        RepeatedNext(out, at, length - left);
        assert target[..][targetOffset] == sofar[targetOffset];
        Write(target[targetOffset], sofar);
        sofar := sofar + [sofar[targetOffset]];
        targetOffset := targetOffset + 1;
        left := left - 1;
      }
    }

    /** source_offset += offset */
    method MoveSource(offset: int)
      requires 0 <= sourceOffset + offset < U64
      modifies this`sourceOffset
      ensures sourceOffset == old(sourceOffset) + offset
    {
      sourceOffset := (sourceOffset + offset) % U64;
    }

    /** target_offset += offset */
    method MoveTarget(offset: int)
      requires 0 <= targetOffset + offset < U64
      modifies this`targetOffset
      ensures targetOffset == old(targetOffset) + offset
    {
      targetOffset := (targetOffset + offset) % U64;
    }

    /** What follows the head of an action. */
    static ghost function Tail(a: Action, rest: seq<Byte>): seq<Byte> {
      match a
      case SourceRead(_) => rest
      case TargetRead(d) => d + rest
      case SourceCopy(d, _) => Encode(DeltaCode(d)) + rest
      case TargetCopy(d, _) => Encode(DeltaCode(d)) + rest
    }

    method ReadHead(ghost a: Action, ghost rest: seq<Byte>) returns (mode: nat, length: nat)
      requires PatchOk() && Rest() == ActionBytes(a, rest) && ActionFits(a)
      modifies this`patchOffset, this`patchChecksum
      ensures PatchOk() && Rest() == Tail(a, rest) && mode == Mode(a) && length == Size(a)
    {
      var head := DecodeSize(Head(a), Tail(a, rest));
      HeadIs(a);
      mode, length := head % 4, head / 4 + 1;
    }

    method SourceCopyBy(offset: int, length: nat, ghost a: Action, ghost m: Machine)
      requires 0 < length && a == SourceCopy(offset, length) && At(m) && InReach(a, m, source) && |source| < U64
      requires |m.out| + length <= |before|
      modifies this`outputOffset, this`targetChecksum, target, this`sourceOffset
      ensures At(Step(a, m, source))
    {
      MoveSource(offset);
      CopySource(length, m.out);
    }

    method TargetCopyBy(offset: int, length: nat, ghost a: Action, ghost m: Machine)
      requires 0 < length && a == TargetCopy(offset, length) && At(m) && InReach(a, m, source)
      requires |m.out| + length <= |before| < U64
      modifies this`outputOffset, this`targetChecksum, target, this`targetOffset
      ensures At(Step(a, m, source))
    {
      MoveTarget(offset);
      CopyTarget(length, m.out);
    }

    /** SOURCE_COPY and TARGET_COPY; the machine does what is read. */
    method PerformCopy(mode: nat, length: nat, ghost a: Action, ghost m: Machine, ghost rest: seq<Byte>)
      requires (a.SourceCopy? && mode == 2) || (a.TargetCopy? && mode == 3)
      requires PatchOk() && Rest() == Encode(DeltaCode(a.delta)) + rest && ActionFits(a) && length == a.length
      requires At(m) && InReach(AsRead(a), m, source) && |m.out| + length <= |before| < U64 && |source| < U64
      modifies this`patchOffset, this`patchChecksum
      modifies this`outputOffset, this`targetChecksum, target, this`sourceOffset, this`targetOffset
      ensures PatchOk() && Rest() == rest && At(Step(AsRead(a), m, source))
    {
      ghost var read := AsRead(a);
      var offset := DecodeDelta(a.delta, rest);
      assert read.delta == offset && read.length == length;
      if mode == 2 {
        SourceCopyBy(offset, length, read, m);
      } else {
        TargetCopyBy(offset, length, read, m);
      }
    }

    /** One turn of the loop over the actions. */
    method Perform(ghost a: Action, ghost m: Machine, ghost rest: seq<Byte>)
      requires PatchOk() && Rest() == ActionBytes(a, rest) && ActionFits(a) && |before| < U64 && |source| < U64
      requires At(m) && InReach(AsRead(a), m, source) && |m.out| + Size(a) <= |before|
      modifies this`patchOffset, this`patchChecksum
      modifies this`outputOffset, this`targetChecksum, target, this`sourceOffset, this`targetOffset
      ensures PatchOk() && Rest() == rest && At(Step(AsRead(a), m, source))
    {
      var mode, length := ReadHead(a, rest);
      Act(mode, length, a, m, rest);
    }

    /** The four kinds of action, once the first number is in. */
    method Act(mode: nat, length: nat, ghost a: Action, ghost m: Machine, ghost rest: seq<Byte>)
      requires PatchOk() && Rest() == Tail(a, rest) && mode == Mode(a) && length == Size(a)
      requires ActionFits(a) && |before| < U64 && |source| < U64
      requires At(m) && InReach(AsRead(a), m, source) && |m.out| + length <= |before|
      modifies this`patchOffset, this`patchChecksum
      modifies this`outputOffset, this`targetChecksum, target, this`sourceOffset, this`targetOffset
      ensures PatchOk() && Rest() == rest && At(Step(AsRead(a), m, source))
    {
      if mode == 0 {
        ReadSource(length, m.out);
      } else if mode == 1 {
        ReadTarget(length, a.data, rest, m.out);
      } else {
        PerformCopy(mode, length, a, m, rest);
      }
    }

    /** Before action `i` of the list. */
    ghost predicate Reached(actions: seq<Action>, i: nat, trailer: seq<Byte>)
      reads this`patchOffset, this`patchChecksum
      reads this`outputOffset, this`targetChecksum, target, this`sourceOffset, this`targetOffset
    {
      && i <= |actions| && PatchOk() && Rest() == BodyBytes(actions, i, trailer)
      && InBounds(AllAsRead(actions), i, source) && At(After(AllAsRead(actions), i, source))
    }

    /** That turn, for action `i`. */
    method PerformNext(ghost actions: seq<Action>, ghost i: nat, ghost trailer: seq<Byte>)
      requires Reached(actions, i, trailer) && i < |actions| && ActionFits(actions[i]) && |before| < U64
      requires InBounds(AllAsRead(actions), |actions|, source) && |Output(AllAsRead(actions), source)| <= |before|
      requires |source| < U64
      modifies this`patchOffset, this`patchChecksum
      modifies this`outputOffset, this`targetChecksum, target, this`sourceOffset, this`targetOffset
      ensures Reached(actions, i + 1, trailer)
    {
      ghost var read := AllAsRead(actions);
      ghost var m, a, rest := After(read, i, source), actions[i], BodyBytes(actions, i + 1, trailer);
      StepInside(read, i, source, m, |before|);
      StepSize(read[i], m, source);
      Perform(a, m, rest);
    }

    /** The loop over the actions. */
    method PerformAll(ghost actions: seq<Action>, ghost trailer: seq<Byte>)
      requires Reached(actions, 0, trailer) && |trailer| == 12 <= |patch| && AllFit(actions) && |before| < U64
      requires InBounds(AllAsRead(actions), |actions|, source) && |Output(AllAsRead(actions), source)| <= |before|
      requires |source| < U64
      modifies this`patchOffset, this`patchChecksum
      modifies this`outputOffset, this`targetChecksum, target, this`sourceOffset, this`targetOffset
      ensures PatchOk() && Rest() == trailer && Wrote(Output(AllAsRead(actions), source))
    {
      ghost var i: nat := 0;
      while patchOffset < |patch| - 12
        invariant Reached(actions, i, trailer)
        decreases |actions| - i
      {
        PerformNext(actions, i, trailer);
        i := i + 1;
      }
    }

    /** The four letters at the start. */
    method ReadMagic() returns (ok: bool)
      requires PatchOk() && patchOffset == 0 && |patch| >= 4
      modifies this`patchOffset, this`patchChecksum
      ensures PatchOk() && ok == (patch[..4] == MAGIC) && (ok ==> Rest() == patch[4..])
    {
      for i := 0 to 4
        invariant PatchOk() && Rest() == patch[i..] && patch[..i] == MAGIC[..i]
      {
        var n := Read();
        assert n == patch[i] && Rest() == patch[i + 1..];
        if n != MAGIC[i] {
          return false;
        }
      }
      return true;
    }

    /** The bytes between the sizes and the actions have no meaning. */
    method SkipMarkup(size: nat, ghost markup: seq<Byte>, ghost rest: seq<Byte>)
      requires PatchOk() && Rest() == markup + rest && |markup| == size
      modifies this`patchOffset, this`patchChecksum
      ensures PatchOk() && Rest() == rest
    {
      for i := 0 to size
        invariant PatchOk() && Rest() == markup[i..] + rest
      {
        var n := Read();
        assert Rest() == markup[i + 1..] + rest;
      }
    }

    method ReadSizes(ghost p: Patch) returns (sourceSize: nat, targetSize: nat)
      requires PatchOk() && patch == PatchBytes(p) && Rest() == patch[4..] && Fits(p)
      modifies this`patchOffset, this`patchChecksum
      ensures PatchOk() && Rest() == Body(p) && sourceSize == p.sourceSize && targetSize == p.targetSize
    {
      ghost var third := p.markup + Body(p);
      ghost var second := Encode(|p.markup|) + third;
      ghost var first := Encode(p.targetSize) + second;
      AfterMagic(p, Encode(p.sourceSize) + first);
      sourceSize := DecodeSize(p.sourceSize, first);
      targetSize := DecodeSize(p.targetSize, second);
      var markupSize := DecodeSize(|p.markup|, third);
      SkipMarkup(markupSize, p.markup, Body(p));
    }

    /** The header: four letters, the sizes and the markup. */
    method Open(ghost p: Patch) returns (ok: bool, sourceSize: nat, targetSize: nat)
      requires PatchOk() && patchOffset == 0 && |patch| >= 19
      requires HasHeader(patch) ==> patch == PatchBytes(p) && Fits(p)
      modifies this`patchOffset, this`patchChecksum
      ensures PatchOk() && ok == HasHeader(patch)
      ensures ok ==> Rest() == Body(p) && sourceSize == p.sourceSize && targetSize == p.targetSize
    {
      sourceSize, targetSize := 0, 0;
      ok := ReadMagic();
      if ok {
        sourceSize, targetSize := ReadSizes(p);
      }
    }

    /** Four bytes of the trailer. */
    method ReadSum(ghost four: seq<Byte>, ghost rest: seq<Byte>) returns (sum: nat)
      requires PatchOk() && Rest() == four + rest && |four| == 4
      modifies this`patchOffset, this`patchChecksum
      ensures PatchOk() && Rest() == rest && sum == FromLittleEndian(four)
    {
      sum := 0;
      for i := 0 to 4
        invariant PatchOk() && Rest() == four[i..] + rest && sum == FromLittleEndian(four[..i])
      {
        var n := Read();
        assert n == four[i] && Rest() == four[i + 1..] + rest;
        OneByteMore(four, i);
        sum := sum + n * Pow256(i);
      }
      assert four[..4] == four;
    }

    /** The checks at the end. */
    method Judge(ghost p: Patch, ghost out: seq<Byte>) returns (status: PatchError)
      requires PatchOk() && Rest() == Trailer(p.sums) && Wrote(out) && |patch| >= 12
      modifies this`patchOffset, this`patchChecksum, this`targetChecksum
      ensures status == Verdict(adjust, patch, p, source, out)
    {
      ghost var last := LittleEndian(p.sums.patch, 4);
      var sourceRead := ReadSum(LittleEndian(p.sums.source, 4), LittleEndian(p.sums.target, 4) + last);
      var targetRead := ReadSum(LittleEndian(p.sums.target, 4), last);
      assert patchOffset == |patch| - 4;
      var checksum := Not(patchChecksum);
      assert last == last + [];
      var patchRead := ReadSum(last, []);
      SumRoundTrip(p.sums.source);
      SumRoundTrip(p.sums.target);
      SumRoundTrip(p.sums.patch);
      var sourceChecksum := Sum(adjust, source);
      targetChecksum := Not(targetChecksum);
      if sourceChecksum != sourceRead {
        return SourceChecksumInvalid;
      }
      if targetChecksum != targetRead {
        return TargetChecksumInvalid;
      }
      if checksum != patchRead {
        return PatchChecksumInvalid;
      }
      return Success;
    }

    /** Everything after the size checks. */
    method Run(ghost p: Patch) returns (status: PatchError)
      requires PatchOk() && Rest() == Body(p) && |patch| >= 12 && Fits(p)
      requires At(Machine([], 0, 0)) && Runs(p, source, |before|) && |before| < U64 && |source| < U64
      modifies this`patchOffset, this`patchChecksum
      modifies this`outputOffset, this`targetChecksum, target, this`sourceOffset, this`targetOffset
      ensures var out := Output(AllAsRead(p.actions), source);
        target[..] == out + before[|out|..] && status == Verdict(adjust, patch, p, source, out)
    {
      PerformAll(p.actions, Trailer(p.sums));
      status := Judge(p, Output(AllAsRead(p.actions), source));
    }
  }

  /** bps_apply_patch: `targetLength` is the capacity coming in, `length` what it becomes. A
      patch with the right header is the encoding of `p`; once its sizes are accepted its
      actions stay inside the buffers. */
  method BpsApplyPatch(adjust: Adjust, patch: seq<Byte>, ghost p: Patch, source: seq<Byte>,
                       target: array<Byte>, targetLength: nat) returns (status: PatchError, length: nat)
    requires |source| < U64 && target.Length < U64
    requires HasHeader(patch) ==> patch == PatchBytes(p) && Fits(p)
    requires HasHeader(patch) && p.sourceSize <= |source| && p.targetSize <= targetLength ==>
      Runs(p, source, target.Length)
    modifies target
    ensures Outcome(adjust, patch, p, source, targetLength, old(target[..]), status, length, target[..])
  {
    length := targetLength;
    if |patch| < 19 {
      return PatchTooSmall, length;
    }
    var data := new BpsData(adjust, patch, source, target);
    var ok, sourceSize, targetSize := data.Open(p);
    if !ok {
      return PatchInvalidHeader, length;
    }
    if sourceSize > |source| {
      return SourceTooSmall, length;
    }
    if targetSize > targetLength {
      return TargetTooSmall, length;
    }
    status := data.Run(p);
    if status == Success {
      length := targetSize;
    }
  }
}
