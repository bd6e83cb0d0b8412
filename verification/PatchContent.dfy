/** Patching the content file in memory: a buffer four times as large as the content, and the
    content stays as it is unless the applier reports success. */
module PatchContent {
  import opened Bytes
  import opened NumberCode
  import opened PatchCommon
  import B = BpsFormat
  import U = UpsFormat
  import I = IpsFormat
  import Bps
  import Ups
  import Ips

  /** apply_patch_content with bps_apply_patch: the content is replaced exactly if all three
      checksums and both sizes are right; so a patch from the content to `target` puts `target`
      in its place exactly if that is at most four times as large. */
  method BpsContent(adjust: Adjust, patch: seq<Byte>, ghost p: B.Patch, content: seq<Byte>) returns (result: seq<Byte>)
    requires 4 * |content| < U64
    requires B.HasHeader(patch) ==> patch == B.PatchBytes(p) && B.Fits(p)
    requires B.HasHeader(patch) && p.sourceSize <= |content| && p.targetSize <= 4 * |content| ==>
      B.Runs(p, content, 4 * |content|)
    ensures !B.HasHeader(patch) ==> result == content
    ensures B.HasHeader(patch) && (p.sourceSize > |content| || p.targetSize > 4 * |content|) ==> result == content
    ensures B.HasHeader(patch) && p.sourceSize <= |content| && p.targetSize <= 4 * |content| ==>
      var out := B.Output(B.AllAsRead(p.actions), content);
      if && Sum(adjust, content) == p.sums.source && Sum(adjust, out) == p.sums.target
         && Sum(adjust, patch[..|patch| - 4]) == p.sums.patch
      then |result| == p.targetSize && (out <= result || result <= out)
      else result == content
    ensures forall target :: B.Between(adjust, p, content, target) && patch == B.PatchBytes(p) ==>
      result == if |target| <= 4 * |content| then target else content
  {
    var targetSize := 4 * |content|;
    var patched := new Byte[targetSize];
    ghost var before := patched[..];
    var status, length := Bps.BpsApplyPatch(adjust, patch, p, content, patched, targetSize);
    BpsDecides(adjust, patch, p, content, targetSize, before, status, length, patched[..]);
    result := content;
    if status == Success {
      result := patched[..length];
      assert patched[..][..length] == result;
    }
  }

  /** What success says about a BPS patch. */
  lemma BpsDecides(adjust: Adjust, patch: seq<Byte>, p: B.Patch, content: seq<Byte>, capacity: nat,
                   before: seq<Byte>, status: PatchError, length: nat, after: seq<Byte>)
    requires B.Outcome(adjust, patch, p, content, capacity, before, status, length, after) && |before| == capacity
    ensures status == Success <==>
      && B.HasHeader(patch) && p.sourceSize <= |content| && p.targetSize <= capacity
      && Sum(adjust, content) == p.sums.source
      && Sum(adjust, B.Output(B.AllAsRead(p.actions), content)) == p.sums.target
      && Sum(adjust, patch[..|patch| - 4]) == p.sums.patch
    ensures status == Success ==>
      var out := B.Output(B.AllAsRead(p.actions), content);
      |after| == capacity && length == p.targetSize && (out <= after[..length] || after[..length] <= out)
    ensures forall target :: B.Between(adjust, p, content, target) && patch == B.PatchBytes(p) ==>
      if |target| <= capacity then status == Success && after[..length] == target else status != Success
  {
    B.PatchBytesHaveHeader(p);
  }

  /** The same with ups_apply_patch, for patches from the content and for patches to it: the
      content has to have one size and checksum of the patch, and the result the other. */
  method UpsContent(adjust: Adjust, patch: seq<Byte>, ghost p: U.Patch, content: seq<Byte>) returns (result: seq<Byte>)
    requires |patch| < U32 && 4 * |content| < U32
    requires U.HasHeader(patch) ==> patch == U.PatchBytes(p) && U.Fits(p)
    ensures !U.HasHeader(patch) ==> result == content
    ensures U.HasHeader(patch) ==>
      var length := if |content| == p.sourceSize then p.targetSize else p.sourceSize;
      var other := U.Applied(U.Mask(p.blocks), content, length);
      if && length <= 4 * |content| && Sum(adjust, patch[..|patch| - 4]) == p.sums.patch
         && (|| (&& |content| == p.sourceSize && Sum(adjust, content) == p.sums.source
                 && length == p.targetSize && Sum(adjust, other) == p.sums.target)
             || (&& |content| == p.targetSize && Sum(adjust, content) == p.sums.target
                 && length == p.sourceSize && Sum(adjust, other) == p.sums.source))
      then result == other
      else result == content
    ensures forall other :: Joins(adjust, patch, p, content, other) ==>
      result == if |other| <= 4 * |content| then other else content
  {
    var targetSize := 4 * |content|;
    var patched := new Byte[targetSize];
    ghost var before := patched[..];
    var status, length := Ups.UpsApplyPatch(adjust, patch, p, content, patched, targetSize);
    UpsDecides(adjust, patch, p, content, targetSize, before, status, length, patched[..]);
    UpsReplaces(adjust, patch, p, content, targetSize, before, status, length, patched[..]);
    result := content;
    if status == Success {
      result := patched[..length];
      assert patched[..][..length] == result;
    }
  }

  /** What success says about a UPS patch. */
  lemma UpsDecides(adjust: Adjust, patch: seq<Byte>, p: U.Patch, content: seq<Byte>, capacity: nat,
                   before: seq<Byte>, status: PatchError, length: nat, after: seq<Byte>)
    requires U.Outcome(adjust, patch, p, content, capacity, before, status, length, after) && |before| == capacity
    ensures var size := if |content| == p.sourceSize then p.targetSize else p.sourceSize;
      var other := U.Applied(U.Mask(p.blocks), content, size);
      && (status == Success ==> |after| == capacity >= length == size && after[..length] == other)
      && (status == Success <==>
            && U.HasHeader(patch) && size <= capacity && Sum(adjust, patch[..|patch| - 4]) == p.sums.patch
            && (|| (&& |content| == p.sourceSize && Sum(adjust, content) == p.sums.source
                    && size == p.targetSize && Sum(adjust, other) == p.sums.target)
                || (&& |content| == p.targetSize && Sum(adjust, content) == p.sums.target
                    && size == p.sourceSize && Sum(adjust, other) == p.sums.source)))
  {
  }

  /** The patch is one between the two files, whichever it calls the source. */
  ghost predicate Joins(adjust: Adjust, patch: seq<Byte>, p: U.Patch, content: seq<Byte>, other: seq<Byte>) {
    patch == U.PatchBytes(p) && (U.Between(adjust, p, content, other) || U.Between(adjust, p, other, content))
  }

  /** A patch between two files gives either from the other. */
  lemma UpsReplaces(adjust: Adjust, patch: seq<Byte>, p: U.Patch, content: seq<Byte>, capacity: nat,
                    before: seq<Byte>, status: PatchError, length: nat, after: seq<Byte>)
    requires U.Outcome(adjust, patch, p, content, capacity, before, status, length, after) && |content| <= capacity
    ensures forall other :: Joins(adjust, patch, p, content, other) ==>
      if |other| <= capacity then status == Success && length <= |after| && after[..length] == other
      else status != Success
  {
    U.PatchBytesHaveHeader(p);
    forall other | Joins(adjust, patch, p, content, other)
      ensures if |other| <= capacity then status == Success && length <= |after| && after[..length] == other
              else status != Success
    {
      if |other| <= capacity {
        if U.Between(adjust, p, content, other) {
          U.ThereAndBack(adjust, p, content, other, capacity, before, status, length, after);
        } else {
          U.ThereAndBack(adjust, p, other, content, capacity, before, status, length, after);
        }
      }
    }
  }

  /** A file that the records of `p` have been written over, in a buffer that held the content. */
  ghost predicate Overwritten(result: seq<Byte>, start: seq<Byte>, p: I.Patch, content: seq<Byte>) {
    && content <= start && |start| == 4 * |content| && I.InRoom(p.records, |start|)
    && I.ResultLength(p, |content|) <= |start|
    && result == I.Written(start, p.records, |p.records|)[..I.ResultLength(p, |content|)]
  }

  /** The same with ips_apply_patch, whose records and cut stay inside the buffer. What the buffer
      holds behind the content to begin with is arbitrary. */
  method IpsContent(patch: seq<Byte>, ghost p: I.Patch, content: seq<Byte>) returns (result: seq<Byte>)
    requires |patch| < U32
    requires I.HasHeader(patch) ==>
      && I.IsBody(patch, 5, p, 0) && I.Safe(patch, 5, p, 0, 4 * |content|)
      && I.ResultLength(p, |content|) <= 4 * |content|
    ensures !I.HasHeader(patch) || p.ending.Broken? ==> result == content
    ensures I.HasHeader(patch) && !p.ending.Broken? ==> exists start :: Overwritten(result, start, p, content)
  {
    var targetSize := 4 * |content|;
    var patched := new Byte[targetSize];
    ghost var start := Splice(patched[..], 0, content);
    var status, length := Ips.IpsApplyPatch(patch, p, content, patched, targetSize);
    result := if status == Success then patched[..length] else content;
    if I.HasHeader(patch) && !p.ending.Broken? {
      assert patched[..][..length] == patched[..length];
      assert Overwritten(result, start, p, content);
    }
  }
}
