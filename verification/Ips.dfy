/** The IPS applier. */
module Ips {
  import opened Bytes
  import opened PatchCommon
  import opened IpsFormat

  /** while (length--) targetdata[address++] = patchdata[offset++] */
  method CopyBytes(patch: seq<Byte>, offset: nat, target: array<Byte>, address: nat, length: nat)
    requires offset + length <= |patch| && address + length <= target.Length
    modifies target
    ensures target[..] == Splice(old(target[..]), address, patch[offset..offset + length])
  {
    ghost var was, copied := target[..], [];
    SpliceNone(was, address);
    for k := 0 to length
      invariant copied == patch[offset..offset + k] && target[..] == Splice(was, address, copied)
    {
      SpliceNext(was, address, copied, patch[offset + k]);
      target[address + k] := patch[offset + k];
      copied := copied + [patch[offset + k]];
    }
  }

  /** while (length--) targetdata[address++] = patchdata[offset] */
  method FillBytes(value: Byte, target: array<Byte>, address: nat, length: nat)
    requires address + length <= target.Length
    modifies target
    ensures target[..] == Splice(old(target[..]), address, seq(length, _ => value))
  {
    ghost var was, filled := target[..], [];
    SpliceNone(was, address);
    for k := 0 to length
      invariant filled == seq(k, _ => value) && target[..] == Splice(was, address, filled)
    {
      SpliceNext(was, address, filled, value);
      target[address + k] := value;
      filled := filled + [value];
    }
  }

  /** patchlen - length, in a size_t */
  function Minus(size: nat, length: nat): int {
    if length <= size then size - length else size + SIZE_LIMIT - length
  }

  /** What follows an address: a record is applied, anything else is refused. */
  method ApplyRecord(patch: seq<Byte>, offset: nat, address: nat, ghost r: Record, target: array<Byte>)
      returns (ok: bool, next: nat, end: nat)
    requires 8 <= |patch| && offset <= |patch| && address == r.address
    requires !NoRecord(patch, offset) ==> IsRest(patch, offset, r) && End(r) <= target.Length
    requires NoRecord(patch, offset) && offset + 2 <= |patch| ==> ReadTwo(patch, offset) <= |patch|
    modifies target
    ensures ok <==> !NoRecord(patch, offset)
    ensures ok ==> next == offset - 3 + Size(r) && end == End(r)
    ensures target[..] == if ok then Splice(old(target[..]), r.address, Content(r)) else old(target[..])
  {
    next, end := offset, address;
    if next > |patch| - 2 {
      return false, next, end;
    }
    var length := ReadTwo(patch, next);
    next := next + 2;
    if length != 0 {
      if next > Minus(|patch|, length) {
        return false, next, end;
      }
      CopyBytes(patch, next, target, address, length);
      next := next + length;
    } else {
      if next > |patch| - 3 {
        return false, next, end;
      }
      length := ReadTwo(patch, next);
      next := next + 2;
      if length == 0 {
        return false, next, end;
      }
      FillBytes(patch[next], target, address, length);
      next := next + 1;
    }
    return true, next, address + length;
  }

  /** One turn of the loop: the next record, or the end. */
  method Turn(patch: seq<Byte>, offset: nat, ghost p: Patch, ghost i: nat, ghost size: nat,
              ghost start: seq<Byte>, length: nat, target: array<Byte>)
      returns (status: PatchError, done: bool, next: nat, newLength: nat)
    requires 8 <= |patch| && target.Length == |start| && Before(patch, offset, p, i, size, start, target[..], length)
    modifies target
    ensures done <==> i == |p.records|
    ensures done ==> status == if p.ending.Broken? then PatchInvalid else Success
    ensures done ==> newLength == ResultLength(p, size) && target[..] == old(target[..])
    ensures !done ==> Before(patch, next, p, i + 1, size, start, target[..], newLength)
  {
    ghost var now := target[..];
    WhatComes(patch, offset, p, i, size, start, now, length);
    next, newLength := offset, length;
    if offset > |patch| - 3 {
      return PatchInvalid, true, next, newLength;
    }
    var address := ReadThree(patch, next);
    next := next + 3;
    if address == EOF {
      if next == |patch| {
        return Success, true, next, newLength;
      } else if next == |patch| - 3 {
        newLength := ReadThree(patch, next);
        return Success, true, next, newLength;
      }
    }
    ghost var r := if i < |p.records| then p.records[i] else Copy(address, []);
    var ok, end;
    ok, next, end := ApplyRecord(patch, next, address, r, target);
    if !ok {
      return PatchInvalid, true, next, newLength;
    }
    if end > length {
      newLength := end;
    }
    RecordApplied(patch, offset, p, i, size, start, now, length, target[..], newLength);
    return Success, false, next, newLength;
  }

  /** The loop over the records, and the end. */
  method ApplyRecords(patch: seq<Byte>, ghost p: Patch, size: nat, target: array<Byte>)
      returns (status: PatchError, length: nat)
    requires 8 <= |patch| && Before(patch, 5, p, 0, size, target[..], target[..], size)
    modifies target
    ensures InRoom(p.records, target.Length) && length == ResultLength(p, size)
    ensures status == if p.ending.Broken? then PatchInvalid else Success
    ensures target[..] == Written(old(target[..]), p.records, |p.records|)
  {
    ghost var start, i: nat := target[..], 0;
    var offset: nat := 5;
    length := size;
    while true
      invariant target.Length == |start| && Before(patch, offset, p, i, size, start, target[..], length)
      decreases |p.records| - i
    {
      var done;
      status, done, offset, length := Turn(patch, offset, p, i, size, start, length, target);
      if done {
        return;
      }
      i := i + 1;
    }
  }

  /** ips_apply_patch: behind the right header every patch is applied record by record, up to
      the end or to where it is broken off; `p` is what its bytes mean. */
  method IpsApplyPatch(patch: seq<Byte>, ghost p: Patch, source: seq<Byte>, target: array<Byte>,
                       targetLength: nat) returns (status: PatchError, length: nat)
    requires |patch| < 0x1_0000_0000
    requires HasHeader(patch) ==> IsBody(patch, 5, p, 0) && Safe(patch, 5, p, 0, target.Length) && |source| <= target.Length
    modifies target
    ensures !HasHeader(patch) ==> status == PatchInvalid && length == targetLength && target[..] == old(target[..])
    ensures HasHeader(patch) ==>
      && status == (if p.ending.Broken? then PatchInvalid else Success) && length == ResultLength(p, |source|)
      && target[..] == Written(Splice(old(target[..]), 0, source), p.records, |p.records|)
  {
    length := targetLength;
    if |patch| < 8 || patch[0] != MAGIC[0] || patch[1] != MAGIC[1] || patch[2] != MAGIC[2]
        || patch[3] != MAGIC[3] || patch[4] != MAGIC[4] {
      return PatchInvalid, length;
    }
    assert patch[..5] == MAGIC;
    CopyBytes(source, 0, target, 0, |source|);
    assert source[0..|source|] == source;
    status, length := ApplyRecords(patch, p, |source|, target);
  }
}
