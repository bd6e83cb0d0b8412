/** IPS patches: records that overwrite stretches of a file. */
module IpsFormat {
  import opened Bytes

  datatype Record =
    | Copy(address: nat, data: seq<Byte>)
    | Fill(address: nat, count: nat, value: Byte)

  /** The end marker alone, with a size that cuts the result, or bytes that are neither a record
      nor the end. */
  datatype Ending = Plain | Cut(size: nat) | Broken

  datatype Patch = Patch(records: seq<Record>, ending: Ending)

  // ---------------------------------------------------------------- meaning

  function Content(r: Record): seq<Byte> {
    match r
    case Copy(_, d) => d
    case Fill(_, n, v) => seq(n, _ => v)
  }

  function End(r: Record): nat {
    r.address + |Content(r)|
  }

  predicate Covers(r: Record, i: nat) {
    r.address <= i < End(r)
  }

  ghost predicate InRoom(records: seq<Record>, room: nat) {
    forall j :: 0 <= j < |records| ==> End(records[j]) <= room
  }

  /** The first `k` records, written one after the other. */
  function Written(start: seq<Byte>, records: seq<Record>, k: nat): (r: seq<Byte>)
    requires k <= |records| && InRoom(records, |start|)
    ensures |r| == |start|
  {
    if k == 0 then start
    else Splice(Written(start, records, k - 1), records[k - 1].address, Content(records[k - 1]))
  }

  /** The file grows to the end of the record that reaches furthest. */
  function Length(size: nat, records: seq<Record>, k: nat): nat
    requires k <= |records|
  {
    if k == 0 then size
    else
      var before := Length(size, records, k - 1);
      if End(records[k - 1]) > before then End(records[k - 1]) else before
  }

  function ResultLength(p: Patch, size: nat): nat {
    if p.ending.Cut? then p.ending.size else Length(size, p.records, |p.records|)
  }

  /** A byte comes from the last record that covers it; one that no record covers is as it was. */
  lemma {:induction false} LastRecordWins(start: seq<Byte>, records: seq<Record>, k: nat, last: int, i: nat)
    requires k <= |records| && InRoom(records, |start|)
    requires i < |start| && -1 <= last < k && (last >= 0 ==> Covers(records[last], i))
    requires forall j :: last < j < k ==> !Covers(records[j], i)
    ensures Written(start, records, k)[i]
         == if last < 0 then start[i] else Content(records[last])[i - records[last].address]
  {
    if last < k - 1 {
      LastRecordWins(start, records, k - 1, last, i);
      assert !Covers(records[k - 1], i);
    }
  }

  lemma {:induction false} LengthIsFurthest(size: nat, records: seq<Record>, k: nat, n: nat)
    requires k <= |records|
    ensures Length(size, records, k) <= n <==> size <= n && forall j :: 0 <= j < k ==> End(records[j]) <= n
  {
    if k > 0 {
      LengthIsFurthest(size, records, k - 1, n);
    }
  }

  // ---------------------------------------------------------------- bytes

  const MAGIC: seq<Byte> := [0x50, 0x41, 0x54, 0x43, 0x48] // "PATCH"
  const EOF := 0x454F46 // "EOF"

  predicate HasHeader(patch: seq<Byte>) {
    |patch| >= 8 && patch[..5] == MAGIC
  }

  /** Big-endian numbers of two and of three bytes. */
  function ReadTwo(b: seq<Byte>, at: nat): nat
    requires at + 2 <= |b|
  {
    0x100 * (b[at] as int) + b[at + 1]
  }

  function ReadThree(b: seq<Byte>, at: nat): nat
    requires at + 3 <= |b|
  {
    0x1_0000 * (b[at] as int) + 0x100 * (b[at + 1] as int) + b[at + 2]
  }

  /** The end marker, and behind it nothing or a size. An address that spells the marker but is
      followed by anything else is an address. */
  predicate IsEnd(b: seq<Byte>, at: nat)
    requires at + 3 <= |b|
  {
    ReadThree(b, at) == EOF && (|b| == at + 3 || |b| == at + 6)
  }

  /** What follows an address is no record: its lengths or its data are cut off, or a run has
      length zero. */
  predicate NoRecord(b: seq<Byte>, at: nat)
    requires at <= |b|
  {
    || |b| < at + 2
    || (if ReadTwo(b, at) != 0 then |b| < at + 2 + ReadTwo(b, at) else |b| < at + 5 || ReadTwo(b, at + 2) == 0)
  }

  /** The bytes from `at` on make the applier give up. */
  predicate GivesUp(b: seq<Byte>, at: nat)
    requires at <= |b|
  {
    |b| < at + 3 || (!IsEnd(b, at) && NoRecord(b, at + 3))
  }

  /** What follows an address at `at` is the rest of the record. */
  predicate IsRest(b: seq<Byte>, at: nat, r: Record)
    requires at <= |b|
  {
    !NoRecord(b, at) &&
    match r
    case Copy(_, d) => ReadTwo(b, at) == |d| > 0 && b[at + 2..at + 2 + |d|] == d
    case Fill(_, n, v) => ReadTwo(b, at) == 0 && ReadTwo(b, at + 2) == n && b[at + 4] == v
  }

  predicate IsRecord(b: seq<Byte>, at: nat, r: Record) {
    at + 3 <= |b| && !IsEnd(b, at) && ReadThree(b, at) == r.address && IsRest(b, at + 3, r)
  }

  function Size(r: Record): nat {
    match r
    case Copy(_, d) => 5 + |d|
    case Fill(_, _, _) => 8
  }

  predicate IsEnding(b: seq<Byte>, at: nat, e: Ending)
    requires at <= |b|
  {
    match e
    case Plain => |b| == at + 3 && ReadThree(b, at) == EOF
    case Cut(n) => |b| == at + 6 && ReadThree(b, at) == EOF && ReadThree(b, at + 3) == n
    case Broken => GivesUp(b, at)
  }

  /** The bytes from `at` on are the records from record `i` on, and the ending. */
  predicate IsBody(b: seq<Byte>, at: nat, p: Patch, i: nat)
    requires i <= |p.records|
    decreases |p.records| - i
  {
    at <= |b| &&
    if i == |p.records| then IsEnding(b, at, p.ending)
    else IsRecord(b, at, p.records[i]) && IsBody(b, at + Size(p.records[i]), p, i + 1)
  }

  // ---------------------------------------------------------------- every patch has one meaning

  lemma {:induction false} OneRecordMore(b: seq<Byte>, at: nat, q: Patch, p: Patch, i: nat)
    requires i <= |q.records| && IsBody(b, at, q, i)
    requires |p.records| == |q.records| + 1 && p.ending == q.ending
    requires forall k :: 0 <= k < |q.records| ==> q.records[k] == p.records[k + 1]
    ensures IsBody(b, at, p, i + 1)
    decreases |q.records| - i
  {
    if i < |q.records| {
      OneRecordMore(b, at + Size(q.records[i]), q, p, i + 1);
    }
  }

  lemma FirstRecord(b: seq<Byte>, at: nat) returns (r: Record)
    requires at <= |b| && !GivesUp(b, at) && !IsEnd(b, at)
    ensures IsRecord(b, at, r) && at + Size(r) <= |b|
  {
    var n := ReadTwo(b, at + 3);
    if n != 0 {
      r := Copy(ReadThree(b, at), b[at + 5..at + 5 + n]);
    } else {
      r := Fill(ReadThree(b, at), ReadTwo(b, at + 5), b[at + 7]);
    }
  }

  /** Whatever bytes follow the five letters, they are records and an ending. */
  lemma {:induction false} EveryBodyIsOne(b: seq<Byte>, at: nat) returns (p: Patch)
    requires at <= |b|
    ensures IsBody(b, at, p, 0)
    decreases |b| - at
  {
    if GivesUp(b, at) {
      p := Patch([], Broken);
    } else if IsEnd(b, at) {
      p := Patch([], if |b| == at + 3 then Plain else Cut(ReadThree(b, at + 3)));
    } else {
      var r := FirstRecord(b, at);
      var q := EveryBodyIsOne(b, at + Size(r));
      p := Patch([r] + q.records, q.ending);
      OneRecordMore(b, at + Size(r), q, p, 0);
    }
  }

  lemma RecordIsUnique(b: seq<Byte>, at: nat, r: Record, s: Record)
    requires IsRecord(b, at, r) && IsRecord(b, at, s)
    ensures r == s
  {
  }

  /** And only in one way. */
  lemma {:induction false} BodyIsUnique(b: seq<Byte>, at: nat, p: Patch, q: Patch, i: nat)
    requires i <= |p.records| && i <= |q.records| && IsBody(b, at, p, i) && IsBody(b, at, q, i)
    ensures p.records[i..] == q.records[i..] && p.ending == q.ending
    decreases |p.records| - i
  {
    if i < |p.records| && i < |q.records| {
      RecordIsUnique(b, at, p.records[i], q.records[i]);
      BodyIsUnique(b, at + Size(p.records[i]), p, q, i + 1);
      assert p.records[i..] == [p.records[i]] + p.records[i + 1..];
      assert q.records[i..] == [q.records[i]] + q.records[i + 1..];
    }
  }

  // ---------------------------------------------------------------- writing a patch

  /** The numbers of a record fit three and two bytes, and no record is empty. */
  predicate RecordFits(r: Record) {
    r.address < 0x100_0000 && 0 < |Content(r)| < 0x1_0000
  }

  ghost predicate Fits(p: Patch) {
    !p.ending.Broken? && (p.ending.Cut? ==> p.ending.size < 0x100_0000) &&
    forall r :: r in p.records ==> RecordFits(r)
  }

  /** An address or a size, its highest byte first. */
  function Three(n: nat): (r: seq<Byte>)
    requires n < 0x100_0000
  {
    [n / 0x1_0000, n / 0x100 % 0x100, n % 0x100]
  }

  /** A length, its highest byte first. */
  function Two(n: nat): (r: seq<Byte>)
    requires n < 0x1_0000
  {
    [n / 0x100, n % 0x100]
  }

  /** Address, length and data; a length of zero announces a run and a length of its own. */
  function RecordBytes(r: Record): seq<Byte>
    requires RecordFits(r)
  {
    match r
    case Copy(address, data) => Three(address) + Two(|data|) + data
    case Fill(address, count, value) => Three(address) + Two(0) + Two(|Content(r)|) + [value]
  }

  function EndingBytes(e: Ending): seq<Byte>
    requires !e.Broken? && (e.Cut? ==> e.size < 0x100_0000)
  {
    [0x45, 0x4F, 0x46] + (if e.Cut? then Three(e.size) else [])
  }

  /** The records from record `i` on, and the ending. */
  ghost function BodyBytes(p: Patch, i: nat): seq<Byte>
    requires Fits(p) && i <= |p.records|
    decreases |p.records| - i
  {
    if i == |p.records| then EndingBytes(p.ending) else RecordBytes(p.records[i]) + BodyBytes(p, i + 1)
  }

  lemma ThreeIsRead(b: seq<Byte>, at: nat, n: nat)
    requires n < 0x100_0000 && at + 3 <= |b| && b[at..at + 3] == Three(n)
    ensures ReadThree(b, at) == n
  {
    var t := b[at..at + 3];
    assert t[0] == b[at] && t[1] == b[at + 1] && t[2] == b[at + 2];
    assert n / 0x1_0000 == n / 0x100 / 0x100;
  }

  lemma TwoIsRead(b: seq<Byte>, at: nat, n: nat)
    requires n < 0x1_0000 && at + 2 <= |b| && b[at..at + 2] == Two(n)
    ensures ReadTwo(b, at) == n
  {
    var t := b[at..at + 2];
    assert t[0] == b[at] && t[1] == b[at + 1];
  }

  /** A part of what stands at `at`. */
  lemma Part(b: seq<Byte>, at: nat, all: seq<Byte>, i: nat, part: seq<Byte>)
    requires at + |all| <= |b| && b[at..at + |all|] == all && i + |part| <= |all| && all[i..i + |part|] == part
    ensures b[at + i..at + i + |part|] == part
  {
    forall k | 0 <= k < |part| ensures b[at + i + k] == part[k] {
      assert b[at..at + |all|][i + k] == all[i..i + |part|][k];
    }
  }

  /** The bytes of a record are read as that record, even if its address spells the end marker:
      what follows it is always longer than a size. */
  lemma RecordIsRead(b: seq<Byte>, at: nat, r: Record, rest: seq<Byte>)
    requires RecordFits(r) && at <= |b| && b[at..] == RecordBytes(r) + rest && |rest| >= 3
    ensures IsRecord(b, at, r) && at + Size(r) <= |b| && b[at + Size(r)..] == rest
  {
    var all := RecordBytes(r);
    assert |all| == Size(r);
    Behind(b, at, all, rest);
    match r
    case Copy(address, d) => CopyIsRead(b, at, address, d);
    case Fill(address, n, v) =>
      assert all == Three(address) + Two(0) + Two(n) + [v];
      FillIsRead(b, at, address, n, v);
  }

  lemma Behind(b: seq<Byte>, at: nat, all: seq<Byte>, rest: seq<Byte>)
    requires at <= |b| && b[at..] == all + rest
    ensures at + |all| <= |b| && b[at..at + |all|] == all && b[at + |all|..] == rest
  {
    assert b[at..][..|all|] == all && b[at..][|all|..] == rest;
  }

  lemma CopyIsRead(b: seq<Byte>, at: nat, address: nat, d: seq<Byte>)
    requires RecordFits(Copy(address, d)) && at + 8 + |d| <= |b|
    requires b[at..at + 5 + |d|] == Three(address) + Two(|d|) + d
    ensures IsRecord(b, at, Copy(address, d))
  {
    var all := Three(address) + Two(|d|) + d;
    Part(b, at, all, 0, Three(address));
    ThreeIsRead(b, at, address);
    Part(b, at, all, 3, Two(|d|));
    TwoIsRead(b, at + 3, |d|);
    Part(b, at, all, 5, d);
  }

  lemma FillIsRead(b: seq<Byte>, at: nat, address: nat, n: nat, v: Byte)
    requires RecordFits(Fill(address, n, v)) && at + 11 <= |b| && 0 < n < 0x1_0000
    requires b[at..at + 8] == Three(address) + Two(0) + Two(n) + [v]
    ensures IsRecord(b, at, Fill(address, n, v))
  {
    var all := Three(address) + Two(0) + Two(n) + [v];
    Part(b, at, all, 0, Three(address));
    ThreeIsRead(b, at, address);
    Part(b, at, all, 3, Two(0));
    TwoIsRead(b, at + 3, 0);
    Part(b, at, all, 5, Two(n));
    TwoIsRead(b, at + 5, n);
    Part(b, at, all, 7, [v]);
    assert b[at + 7..at + 8][0] == v;
  }

  /** Round trip: records and ending written out in bytes are read back as they were. */
  lemma {:induction false} WrittenIsRead(p: Patch, b: seq<Byte>, at: nat, i: nat)
    requires Fits(p) && i <= |p.records| && at <= |b| && b[at..] == BodyBytes(p, i)
    ensures |BodyBytes(p, i)| >= 3 && IsBody(b, at, p, i)
    decreases |p.records| - i
  {
    if i < |p.records| {
      var r, rest := p.records[i], BodyBytes(p, i + 1);
      assert r in p.records;
      AtLeastAnEnd(p, i + 1);
      RecordIsRead(b, at, r, rest);
      WrittenIsRead(p, b, at + Size(r), i + 1);
    } else {
      EndingIsRead(b, at, p.ending);
    }
  }

  lemma EndingIsRead(b: seq<Byte>, at: nat, e: Ending)
    requires !e.Broken? && (e.Cut? ==> e.size < 0x100_0000) && at <= |b| && b[at..] == EndingBytes(e)
    ensures IsEnding(b, at, e)
  {
    var all := b[at..];
    assert b[at] == all[0] && b[at + 1] == all[1] && b[at + 2] == all[2];
    if e.Cut? {
      Part(b, at, all, 3, Three(e.size));
      ThreeIsRead(b, at + 3, e.size);
    }
  }

  lemma {:induction false} AtLeastAnEnd(p: Patch, i: nat)
    requires Fits(p) && i <= |p.records|
    ensures |BodyBytes(p, i)| >= 3
    decreases |p.records| - i
  {
    if i < |p.records| {
      AtLeastAnEnd(p, i + 1);
    }
  }

  /** A whole patch file. */
  ghost function PatchBytes(p: Patch): seq<Byte>
    requires Fits(p)
  {
    [0x50, 0x41, 0x54, 0x43, 0x48] + BodyBytes(p, 0)
  }

  /** Behind the five letters such a file means exactly the records it was written from. */
  lemma PatchIsRead(p: Patch, q: Patch)
    requires Fits(p)
    ensures HasHeader(PatchBytes(p)) && IsBody(PatchBytes(p), 5, p, 0)
    ensures IsBody(PatchBytes(p), 5, q, 0) ==> q.records == p.records && q.ending == p.ending
  {
    var b := PatchBytes(p);
    assert b[..5] == MAGIC && b[5..] == BodyBytes(p, 0);
    WrittenIsRead(p, b, 5, 0);
    if IsBody(b, 5, q, 0) {
      BodyIsUnique(b, 5, p, q, 0);
      assert q.records[0..] == q.records && p.records[0..] == p.records;
    }
  }

  // ---------------------------------------------------------------- what the applier relies on

  /** The length of a record that is cut off is not larger than the whole patch, so that the
      test for it does not wrap around. */
  predicate NoWrap(b: seq<Byte>, at: nat, p: Patch, i: nat)
    requires i <= |p.records|
    decreases |p.records| - i
  {
    if i == |p.records| then p.ending.Broken? && at + 5 <= |b| ==> ReadTwo(b, at + 3) <= |b|
    else NoWrap(b, at + Size(p.records[i]), p, i + 1)
  }

  ghost predicate Safe(b: seq<Byte>, at: nat, p: Patch, i: nat, room: nat)
    requires i <= |p.records|
  {
    InRoom(p.records, room) && NoWrap(b, at, p, i)
  }

  /** Where the applier stands before record `i`, or before the end. */
  ghost predicate Before(patch: seq<Byte>, offset: nat, p: Patch, i: nat, size: nat, start: seq<Byte>,
                         now: seq<Byte>, length: nat) {
    && i <= |p.records| && Safe(patch, offset, p, i, |start|) && offset <= |patch| && IsBody(patch, offset, p, i)
    && now == Written(start, p.records, i) && length == Length(size, p.records, i)
  }

  /** Applying a record leads from before it to behind it. */
  lemma RecordApplied(patch: seq<Byte>, offset: nat, p: Patch, i: nat, size: nat, start: seq<Byte>,
                      now: seq<Byte>, length: nat, after: seq<Byte>, newLength: nat)
    requires Before(patch, offset, p, i, size, start, now, length) && i < |p.records|
    requires |now| == |start| && after == Splice(now, p.records[i].address, Content(p.records[i]))
    requires newLength == if End(p.records[i]) > length then End(p.records[i]) else length
    ensures Before(patch, offset + Size(p.records[i]), p, i + 1, size, start, after, newLength)
  {
  }

  /** What the bytes at the applier's place are. */
  lemma WhatComes(patch: seq<Byte>, offset: nat, p: Patch, i: nat, size: nat, start: seq<Byte>,
                  now: seq<Byte>, length: nat)
    requires Before(patch, offset, p, i, size, start, now, length)
    ensures i < |p.records| ==> IsRecord(patch, offset, p.records[i]) && End(p.records[i]) <= |start| == |now|
    ensures i == |p.records| ==> IsEnding(patch, offset, p.ending) && length == Length(size, p.records, i)
    ensures i == |p.records| && p.ending.Broken? && offset + 5 <= |patch| ==> ReadTwo(patch, offset + 3) <= |patch|
  {
  }
}
