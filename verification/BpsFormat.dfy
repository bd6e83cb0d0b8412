/** BPS patches: a list of actions of a small copy machine, and what it writes. */
module BpsFormat {
  import opened Bytes
  import opened NumberCode
  import opened PatchCommon
  import opened RingPointers

  type Count = x: int | 1 <= x witness 1
  type Data = s: seq<Byte> | s != [] witness [0]

  datatype Action =
    | SourceRead(length: Count)
    | TargetRead(data: Data)
    | SourceCopy(delta: int, length: Count)
    | TargetCopy(delta: int, length: Count)

  /** What has been written, and the two relative offsets. */
  datatype Machine = Machine(out: seq<Byte>, source: int, target: int)

  datatype Patch = Patch(sourceSize: nat, targetSize: nat, markup: seq<Byte>, actions: seq<Action>, sums: Sums)

  // ---------------------------------------------------------------- meaning

  /** `count` bytes that repeat what is written from `at` on. */
  function Repeated(out: seq<Byte>, at: nat, count: nat): (r: seq<Byte>)
    requires at < |out|
    ensures |r| == count
  {
    seq(count, j requires 0 <= j < count => out[at + j % (|out| - at)])
  }

  predicate InReach(a: Action, m: Machine, source: seq<Byte>) {
    match a
    case SourceRead(n) => |m.out| + n <= |source|
    case TargetRead(_) => true
    case SourceCopy(d, n) => 0 <= m.source + d && m.source + d + n <= |source|
    case TargetCopy(d, n) => 0 <= m.target + d < |m.out|
  }

  function Step(a: Action, m: Machine, source: seq<Byte>): Machine
    requires InReach(a, m, source)
  {
    match a
    case SourceRead(n) => m.(out := m.out + source[|m.out|..|m.out| + n])
    case TargetRead(d) => m.(out := m.out + d)
    case SourceCopy(d, n) =>
      var at := m.source + d;
      m.(out := m.out + source[at..at + n], source := at + n)
    case TargetCopy(d, n) =>
      var at := m.target + d;
      m.(out := m.out + Repeated(m.out, at, n), target := at + n)
  }

  /** The first `k` actions stay inside the source and what has been written. */
  ghost predicate InBounds(actions: seq<Action>, k: nat, source: seq<Byte>)
    requires k <= |actions|
    decreases k, 0
  {
    k == 0 || (InBounds(actions, k - 1, source) && InReach(actions[k - 1], After(actions, k - 1, source), source))
  }

  /** The machine after the first `k` actions. */
  ghost function After(actions: seq<Action>, k: nat, source: seq<Byte>): Machine
    requires k <= |actions| && InBounds(actions, k, source)
    decreases k, 1
  {
    if k == 0 then Machine([], 0, 0) else Step(actions[k - 1], After(actions, k - 1, source), source)
  }

  ghost function Output(actions: seq<Action>, source: seq<Byte>): seq<Byte>
    requires InBounds(actions, |actions|, source)
  {
    After(actions, |actions|, source).out
  }

  /** An overlapping copy is written byte by byte from what it has itself written: the next
      byte of the repetition is always the one at the moving offset. */
  lemma RepeatedNext(out: seq<Byte>, at: nat, k: nat)
    requires at < |out|
    ensures Repeated(out, at, k + 1) == Repeated(out, at, k) + [(out + Repeated(out, at, k))[at + k]]
  {
    var period, all := |out| - at, out + Repeated(out, at, k);
    if k < period {
      ModOf(k, 0, k, period);
      assert all[at + k] == out[at + k];
    } else {
      var j := k - period;
      assert all[at + k] == Repeated(out, at, k)[j] == out[at + j % period];
      var q, r := j / period, j % period;
      assert j == period * q + r;
      assert k == period * (q + 1) + r;
      ModOf(k, q + 1, r, period);
    }
    assert Repeated(out, at, k + 1)[k] == all[at + k];
  }

  /** Every later byte of an overlapping copy equals the one a period before it; nothing
      already written changes. */
  lemma OverlapIsPeriodic(m: Machine, a: Action, source: seq<Byte>, i: nat)
    requires a.TargetCopy? && InReach(a, m, source)
    requires |m.out| <= i < |m.out| + a.length
    ensures m.out <= Step(a, m, source).out
    ensures var at := m.target + a.delta; var out := Step(a, m, source).out;
      i < |out| && out[i] == out[i - (|m.out| - at)]
  {
    var at := m.target + a.delta;
    var k := i - |m.out|;
    RepeatedNext(m.out, at, k);
    var out := Step(a, m, source).out;
    var r := Repeated(m.out, at, a.length);
    assert r[..k + 1] == Repeated(m.out, at, k + 1) && r[..k] == Repeated(m.out, at, k);
    assert out[..|m.out| + k] == m.out + Repeated(m.out, at, k);
    assert out[i] == r[k] == out[at + k];
  }

  /** How far an action moves the source or the target offset. */
  function MovedBy(a: Action, fromSource: bool): int {
    match a
    case SourceCopy(d, n) => if fromSource then d + n else 0
    case TargetCopy(d, n) => if fromSource then 0 else d + n
    case _ => 0
  }

  /** Every delta and every byte copied by the first `k` actions. */
  ghost function Moved(actions: seq<Action>, k: nat, fromSource: bool): int
    requires k <= |actions|
  {
    if k == 0 then 0 else Moved(actions, k - 1, fromSource) + MovedBy(actions[k - 1], fromSource)
  }

  function Size(a: Action): nat {
    match a
    case TargetRead(d) => |d|
    case SourceRead(n) => n
    case SourceCopy(_, n) => n
    case TargetCopy(_, n) => n
  }

  ghost function TotalSize(actions: seq<Action>, k: nat): nat
    requires k <= |actions|
  {
    if k == 0 then 0 else TotalSize(actions, k - 1) + Size(actions[k - 1])
  }

  /** Relative offsets accumulate, and every action appends exactly its length to an output
      that is never rewritten. */
  lemma {:induction false} OffsetsAccumulate(actions: seq<Action>, j: nat, k: nat, source: seq<Byte>)
    requires j <= k <= |actions| && InBounds(actions, k, source)
    ensures InBounds(actions, j, source)
    ensures After(actions, k, source).source == Moved(actions, k, true)
    ensures After(actions, k, source).target == Moved(actions, k, false)
    ensures |After(actions, k, source).out| == TotalSize(actions, k)
    ensures After(actions, j, source).out <= After(actions, k, source).out
  {
    if j < k {
      OffsetsAccumulate(actions, j, k - 1, source);
    } else if k > 0 {
      OffsetsAccumulate(actions, k - 1, k - 1, source);
    }
  }

  lemma StepSize(a: Action, m: Machine, source: seq<Byte>)
    requires InReach(a, m, source)
    ensures |Step(a, m, source).out| == |m.out| + Size(a)
  {
  }

  /** The next action of a list that stays inside the buffers. */
  lemma StepInside(actions: seq<Action>, i: nat, source: seq<Byte>, m: Machine, room: nat)
    requires i < |actions| && InBounds(actions, |actions|, source) && |Output(actions, source)| <= room
    requires InBounds(actions, i, source) && m == After(actions, i, source)
    ensures InReach(actions[i], m, source) && |Step(actions[i], m, source).out| <= room
    ensures InBounds(actions, i + 1, source) && After(actions, i + 1, source) == Step(actions[i], m, source)
  {
    OffsetsAccumulate(actions, i + 1, |actions|, source);
  }

  // ---------------------------------------------------------------- numbers

  /** A delta with its sign in the low bit. */
  function DeltaCode(d: int): nat {
    if d < 0 then 2 * -d + 1 else 2 * d
  }

  /** The value of an `int` that a 64-bit number is assigned to. */
  function ToInt(v: nat): int {
    if v % U32 < U32 / 2 then v % U32 else v % U32 - U32
  }

  /** What the decoder makes of a number. */
  function Delta(v: nat): int {
    var offset := ToInt(v);
    if offset % 2 == 1 then -(offset / 2) else offset / 2
  }

  const REACH := 0x4000_0000 // 2^30

  /** Offsets pass through a 32-bit int: a delta survives exactly when it is below 2^30. */
  lemma DeltaIsRight(d: int)
    ensures Delta(DeltaCode(d)) == d <==> -0x4000_0000 < d < 0x4000_0000
  {
    var v := DeltaCode(d);
    if -REACH < d < REACH {
      assert v < U32 / 2;
      assert v % U32 == v;
    } else if v % U32 < U32 / 2 {
      assert -REACH < Delta(v) < REACH;
    } else {
      assert v % 2 == v % U32 % 2;
    }
  }

  /** An action as the decoder reads it. */
  function AsRead(a: Action): Action {
    match a
    case SourceCopy(d, n) => SourceCopy(Delta(DeltaCode(d)), n)
    case TargetCopy(d, n) => TargetCopy(Delta(DeltaCode(d)), n)
    case _ => a
  }

  predicate DeltaInReach(a: Action) {
    match a
    case SourceCopy(d, _) => -REACH < d < REACH
    case TargetCopy(d, _) => -REACH < d < REACH
    case _ => true
  }

  function AllAsRead(actions: seq<Action>): (r: seq<Action>)
    ensures |r| == |actions|
  {
    seq(|actions|, i requires 0 <= i < |actions| => AsRead(actions[i]))
  }

  /** The decoder reads an action list as it was meant exactly if every delta is below 2^30. */
  lemma ReadAsMeant(actions: seq<Action>)
    ensures AllAsRead(actions) == actions <==> forall a :: a in actions ==> DeltaInReach(a)
  {
    forall i | 0 <= i < |actions| ensures AllAsRead(actions)[i] == actions[i] <==> DeltaInReach(actions[i]) {
      match actions[i]
      case SourceCopy(d, _) => DeltaIsRight(d);
      case TargetCopy(d, _) => DeltaIsRight(d);
      case _ =>
    }
  }

  // ---------------------------------------------------------------- bytes

  /** The first number of an action: its length less one, and its kind. */
  function Head(a: Action): nat {
    match a
    case SourceRead(n) => 4 * (n - 1)
    case TargetRead(d) => 4 * (|d| - 1) + 1
    case SourceCopy(_, n) => 4 * (n - 1) + 2
    case TargetCopy(_, n) => 4 * (n - 1) + 3
  }

  function Mode(a: Action): nat {
    match a
    case SourceRead(_) => 0
    case TargetRead(_) => 1
    case SourceCopy(_, _) => 2
    case TargetCopy(_, _) => 3
  }

  lemma HeadIs(a: Action)
    ensures Head(a) % 4 == Mode(a) && Head(a) / 4 + 1 == Size(a)
  {
  }

  /** The bytes of an action, before whatever follows it. */
  function ActionBytes(a: Action, rest: seq<Byte>): seq<Byte> {
    match a
    case SourceRead(_) => Encode(Head(a)) + rest
    case TargetRead(d) => Encode(Head(a)) + (d + rest)
    case SourceCopy(d, _) => Encode(Head(a)) + (Encode(DeltaCode(d)) + rest)
    case TargetCopy(d, _) => Encode(Head(a)) + (Encode(DeltaCode(d)) + rest)
  }

  /** What an action of kind `k` does that writes `n` bytes and moves an offset by `d` first: kind 0
      copies from the same place of the source, 1 from the patch, which has `data`, 2 from the
      source and 3 from what has been written, byte by byte, each on from where the last such
      copy ended. */
  ghost predicate Does(k: nat, n: nat, d: int, data: seq<Byte>, m: Machine, next: Machine, source: seq<Byte>) {
    var at := |m.out|;
    && |next.out| == at + n && next.out[..at] == m.out
    && next.source == (if k == 2 then m.source + d + n else m.source)
    && next.target == (if k == 3 then m.target + d + n else m.target)
    && (k == 0 ==> at + n <= |source| && next.out[at..] == source[at..at + n])
    && (k == 1 ==> next.out[at..] == data)
    && (k == 2 ==> 0 <= m.source + d && next.source <= |source| && next.out[at..] == source[m.source + d..next.source])
    && (k == 3 ==> 0 <= m.target + d < at && forall i :: at <= i < at + n ==> next.out[i] == next.out[i - at + m.target + d])
  }

  lemma CopyDoes(delta: int, n: Count, m: Machine, source: seq<Byte>)
    requires InReach(TargetCopy(delta, n), m, source)
    ensures Does(3, n, delta, [], m, Step(TargetCopy(delta, n), m, source), source)
  {
    var a := TargetCopy(delta, n);
    var next, at := Step(a, m, source), |m.out|;
    assert |next.out| == at + n && next.out[..at] == m.out;
    forall i | at <= i < at + n ensures next.out[i] == next.out[i - at + m.target + delta] {
      OverlapIsPeriodic(m, a, source, i);
    }
  }

  lemma SourceReadDoes(n: Count, m: Machine, source: seq<Byte>)
    requires InReach(SourceRead(n), m, source)
    ensures Does(0, n, 0, [], m, Step(SourceRead(n), m, source), source)
  {
  }

  lemma TargetReadDoes(data: Data, m: Machine, source: seq<Byte>)
    ensures Does(1, |data|, 0, data, m, Step(TargetRead(data), m, source), source)
  {
  }

  lemma SourceCopyDoes(delta: int, n: Count, m: Machine, source: seq<Byte>)
    requires InReach(SourceCopy(delta, n), m, source)
    ensures Does(2, n, delta, [], m, Step(SourceCopy(delta, n), m, source), source)
  {
  }

  /** The low two bits of an action's first number are its kind, the others one less than the
      bytes it writes; the second number of a copy has the offset's sign in its lowest bit. */
  lemma NumberDecides(a: Action, rest: seq<Byte>, m: Machine, source: seq<Byte>)
      returns (k: nat, n: nat, d: int, data: seq<Byte>)
    requires InReach(a, m, source)
    ensures k < 4 && 0 < n && Does(k, n, d, data, m, Step(a, m, source), source)
    ensures k < 2 ==> ActionBytes(a, rest) == Encode(4 * (n - 1) + k) + (data + rest)
    ensures k >= 2 ==>
      ActionBytes(a, rest)
        == Encode(4 * (n - 1) + k) + (Encode(2 * (if d < 0 then -d else d) + (if d < 0 then 1 else 0)) + rest)
    ensures k == 0 ==> data == []
  {
    d, data := 0, [];
    match a
    case SourceRead(length) =>
      k, n := 0, length;
      SourceReadDoes(n, m, source);
      assert data + rest == rest;
    case TargetRead(bytes) =>
      k, n, data := 1, |bytes|, bytes;
      TargetReadDoes(bytes, m, source);
    case SourceCopy(delta, length) =>
      k, n, d := 2, length, delta;
      SourceCopyDoes(delta, n, m, source);
    case TargetCopy(delta, length) =>
      k, n, d := 3, length, delta;
      CopyDoes(delta, n, m, source);
  }

  function BodyBytes(actions: seq<Action>, i: nat, trailer: seq<Byte>): (r: seq<Byte>)
    requires i <= |actions|
    ensures |r| >= |trailer| + (if i < |actions| then 1 else 0)
    decreases |actions| - i
  {
    if i == |actions| then trailer else ActionBytes(actions[i], BodyBytes(actions, i + 1, trailer))
  }

  const MAGIC: seq<Byte> := [0x42, 0x50, 0x53, 0x31] // "BPS1"

  function Body(p: Patch): seq<Byte> {
    BodyBytes(p.actions, 0, Trailer(p.sums))
  }

  function PatchBytes(p: Patch): seq<Byte> {
    MAGIC + (Encode(p.sourceSize) + (Encode(p.targetSize) + (Encode(|p.markup|) + (p.markup + Body(p)))))
  }

  lemma {:induction false} BodyEnds(actions: seq<Action>, i: nat, trailer: seq<Byte>)
    requires i <= |actions|
    ensures var b := BodyBytes(actions, i, trailer); b[|b| - |trailer|..] == trailer
    decreases |actions| - i
  {
    if i < |actions| {
      var rest := BodyBytes(actions, i + 1, trailer);
      BodyEnds(actions, i + 1, trailer);
      var b := ActionBytes(actions[i], rest);
      assert b[|b| - |rest|..] == rest;
      assert b[|b| - |trailer|..] == rest[|rest| - |trailer|..];
    }
  }

  /** How a patch begins and ends: four letters, three numbers, the markup; and the checksums. */
  lemma Layout(p: Patch) returns (source: seq<Byte>, target: seq<Byte>, markup: seq<Byte>, body: seq<Byte>)
    ensures PatchBytes(p) == [0x42, 0x50, 0x53, 0x31] + (source + (target + (markup + (p.markup + body))))
    ensures IsCode(source) && IsCode(target) && IsCode(markup)
    ensures Value(source) == p.sourceSize && Value(target) == p.targetSize && Value(markup) == |p.markup|
    ensures |body| >= 12 && body[|body| - 12..] == Trailer(p.sums)
  {
    source, target, markup, body := Encode(p.sourceSize), Encode(p.targetSize), Encode(|p.markup|), Body(p);
    ValueOfEncode(p.sourceSize);
    ValueOfEncode(p.targetSize);
    ValueOfEncode(|p.markup|);
    BodyEnds(p.actions, 0, Trailer(p.sums));
  }

  /** The numbers of an action fit 64 bits. */
  predicate ActionFits(a: Action) {
    Head(a) < U64 && match a
      case SourceCopy(d, _) => DeltaCode(d) < U64
      case TargetCopy(d, _) => DeltaCode(d) < U64
      case _ => true
  }

  ghost predicate AllFit(actions: seq<Action>) {
    forall i :: 0 <= i < |actions| ==> ActionFits(actions[i])
  }

  /** Sizes and lengths fit 64 bits. */
  ghost predicate Fits(p: Patch) {
    p.sourceSize < U64 && p.targetSize < U64 && |p.markup| < U64 && AllFit(p.actions)
  }

  // ---------------------------------------------------------------- outcomes

  predicate HasHeader(patch: seq<Byte>) {
    |patch| >= 19 && patch[..4] == MAGIC
  }

  lemma AfterMagic(p: Patch, rest: seq<Byte>)
    requires rest == Encode(p.sourceSize) + (Encode(p.targetSize) + (Encode(|p.markup|) + (p.markup + Body(p))))
    ensures PatchBytes(p)[4..] == rest && PatchBytes(p)[..4] == MAGIC
  {
  }

  lemma PatchBytesHaveHeader(p: Patch)
    ensures HasHeader(PatchBytes(p))
  {
    assert |Encode(p.sourceSize)| >= 1 && |Encode(p.targetSize)| >= 1 && |Encode(|p.markup|)| >= 1;
    assert PatchBytes(p)[..4] == MAGIC;
  }

  predicate Intact(adjust: Adjust, patch: seq<Byte>, p: Patch)
    requires |patch| >= 4
  {
    Sum(adjust, patch[..|patch| - 4]) == p.sums.patch
  }

  /** What the appliers of a patch may rely on once its sizes have been accepted. */
  ghost predicate Runs(p: Patch, source: seq<Byte>, room: nat) {
    var read := AllAsRead(p.actions);
    InBounds(read, |read|, source) && |Output(read, source)| <= room
  }

  function Verdict(adjust: Adjust, patch: seq<Byte>, p: Patch, source: seq<Byte>, out: seq<Byte>): PatchError
    requires |patch| >= 4
  {
    if Sum(adjust, source) != p.sums.source then SourceChecksumInvalid
    else if Sum(adjust, out) != p.sums.target then TargetChecksumInvalid
    else if !Intact(adjust, patch, p) then PatchChecksumInvalid
    else Success
  }

  /** Everything a call of the applier does: its status, the length it reports and the
      contents of the target buffer, which is written even when a checksum is wrong. */
  ghost predicate Outcome(adjust: Adjust, patch: seq<Byte>, p: Patch, source: seq<Byte>, capacity: nat,
                          before: seq<Byte>, status: PatchError, length: nat, after: seq<Byte>) {
    if |patch| < 19 then status == PatchTooSmall && length == capacity && after == before
    else if patch[..4] != MAGIC then status == PatchInvalidHeader && length == capacity && after == before
    else if p.sourceSize > |source| then status == SourceTooSmall && length == capacity && after == before
    else if p.targetSize > capacity then status == TargetTooSmall && length == capacity && after == before
    else
      && Runs(p, source, |before|)
      && var out := Output(AllAsRead(p.actions), source);
      && after == out + before[|out|..]
      && status == Verdict(adjust, patch, p, source, out)
      && length == if status == Success then p.targetSize else capacity
  }

  /** Which call ends with which error, in the order of the checks. */
  lemma WhichError(adjust: Adjust, patch: seq<Byte>, p: Patch, source: seq<Byte>, capacity: nat,
                   before: seq<Byte>, status: PatchError, length: nat, after: seq<Byte>)
    requires Outcome(adjust, patch, p, source, capacity, before, status, length, after)
    ensures status == PatchTooSmall <==> |patch| < 19
    ensures status == PatchInvalidHeader <==> |patch| >= 19 && patch[..4] != [0x42, 0x50, 0x53, 0x31]
    ensures |patch| >= 19 && patch[..4] == [0x42, 0x50, 0x53, 0x31] ==>
      && (status == SourceTooSmall <==> p.sourceSize > |source|)
      && (status == TargetTooSmall <==> p.sourceSize <= |source| && p.targetSize > capacity)
      && (p.sourceSize <= |source| && p.targetSize <= capacity ==>
            var out := Output(AllAsRead(p.actions), source);
            var right, made := Sum(adjust, source) == p.sums.source, Sum(adjust, out) == p.sums.target;
            var intact := Sum(adjust, patch[..|patch| - 4]) == p.sums.patch;
            && |out| <= |after| == |before| && after[..|out|] == out && after[|out|..] == before[|out|..]
            && (status == SourceChecksumInvalid <==> !right)
            && (status == TargetChecksumInvalid <==> right && !made)
            && (status == PatchChecksumInvalid <==> right && made && !intact)
            && (status == Success <==> right && made && intact))
  {
  }

  /** A patch that encodes an action list from source to target, with their checksums. The
      deltas are as the decoder reads them. */
  ghost predicate Between(adjust: Adjust, p: Patch, source: seq<Byte>, target: seq<Byte>) {
    && p.sourceSize == |source| && p.sums.source == Sum(adjust, source)
    && p.targetSize == |target| && p.sums.target == Sum(adjust, target)
    && InBounds(p.actions, |p.actions|, source) && Output(p.actions, source) == target
    && AllAsRead(p.actions) == p.actions
    && Intact(adjust, PatchBytes(p), p)
  }

  /** Everything but the last checksum. */
  function Front(p: Patch): seq<Byte> {
    MAGIC + (Encode(p.sourceSize) + (Encode(p.targetSize) + (Encode(|p.markup|) + (p.markup +
      (BodyBytes(p.actions, 0, []) + (LittleEndian(p.sums.source, 4) + LittleEndian(p.sums.target, 4)))))))
  }

  lemma {:induction false} BodyBeforeTrailer(actions: seq<Action>, i: nat, trailer: seq<Byte>)
    requires i <= |actions|
    ensures BodyBytes(actions, i, trailer) == BodyBytes(actions, i, []) + trailer
    decreases |actions| - i
  {
    if i < |actions| {
      var rest, short := BodyBytes(actions, i + 1, trailer), BodyBytes(actions, i + 1, []);
      BodyBeforeTrailer(actions, i + 1, trailer);
      assert ActionBytes(actions[i], rest) == ActionBytes(actions[i], short) + trailer;
    }
  }

  lemma FrontOf(p: Patch)
    ensures PatchBytes(p)[..|PatchBytes(p)| - 4] == Front(p)
  {
    BodyBeforeTrailer(p.actions, 0, Trailer(p.sums));
    var last := LittleEndian(p.sums.patch, 4);
    assert PatchBytes(p) == Front(p) + last;
  }

  /** Actions that write `target`. */
  ghost predicate Produces(actions: seq<Action>, source: seq<Byte>, target: seq<Byte>) {
    InBounds(actions, |actions|, source) && Output(actions, source) == target
  }

  /** For any actions that write one file from another there is a patch between the two. */
  lemma ActionsMakeAPatch(adjust: Adjust, actions: seq<Action>, source: seq<Byte>, target: seq<Byte>) returns (p: Patch)
    requires Produces(actions, source, target)
    requires AllFit(actions) && |source| < U64 && |target| < U64 && forall a :: a in actions ==> DeltaInReach(a)
    ensures Between(adjust, p, source, target) && Fits(p) && p.actions == actions
  {
    var draft := Patch(|source|, |target|, [], actions, Sums(Sum(adjust, source), Sum(adjust, target), 0));
    p := draft.(sums := draft.sums.(patch := Sum(adjust, Front(draft))));
    FrontOf(p);
    assert Front(p) == Front(draft);
    ReadAsMeant(actions);
  }

  /** So any two files have one. */
  lemma EveryPairHasAPatch(adjust: Adjust, source: seq<Byte>, target: seq<Byte>) returns (p: Patch)
    requires |source| < U64 && 4 * |target| < U64
    ensures Between(adjust, p, source, target) && Fits(p)
  {
    var actions := if target == [] then [] else [TargetRead(target)];
    assert InBounds(actions, 0, source) && After(actions, 0, source) == Machine([], 0, 0);
    if target != [] {
      assert actions[0] == TargetRead(target) && InBounds(actions, 1, source);
      assert After(actions, 1, source).out == [] + target;
    }
    p := ActionsMakeAPatch(adjust, actions, source, target);
  }

  /** Applying the encoding of an action list writes exactly what the list means, and says so. */
  lemma PatchGivesTarget(adjust: Adjust, p: Patch, source: seq<Byte>, target: seq<Byte>, capacity: nat,
                         before: seq<Byte>, status: PatchError, length: nat, after: seq<Byte>)
    requires Between(adjust, p, source, target) && |target| <= capacity
    requires Outcome(adjust, PatchBytes(p), p, source, capacity, before, status, length, after)
    ensures status == Success && length == |target| && after == target + before[|target|..]
  {
    PatchBytesHaveHeader(p);
  }
}
