/** The rewind buffer: a byte ring of backward deltas that behaves like a stack of
    states which may lose its oldest members. */
module Rewind {
  import opened Bytes
  import opened Delta
  import opened Codec
  import opened DeltaCodec
  import opened RingHistory
  import opened RingBytes
  import opened RingDepth

  /** maxcompsize: the largest patch between two links. */
  function MaxCompSize(size: nat): nat {
    RawMaxSize(size) + 2 * SIZE_BYTES
  }

  /** The capacity below which push_do gives up. */
  predicate StoresNothing(size: nat, capacity: nat) {
    capacity < SIZE_BYTES + MaxCompSize(size)
  }

  /** The capacity from which on a ring with a single entry never wraps onto it. */
  predicate Roomy(size: nat, capacity: nat) {
    capacity >= 2 * SIZE_BYTES + 2 * MaxWords(size) + MaxCompSize(size)
  }

  /** Both limits in bytes: the guard lets a ring store states if three links and one largest
      patch fit into it, counted in words of at most 16 bits and the two fields of each 65535. */
  lemma LimitsInBytes(size: nat, capacity: nat)
    requires size % 4 == 0 || size % 4 == 3
    ensures var words := (size + 1) / 2; var largest := 2 * (3 + words + 2 * ((words + 65534) / 65535));
      && MaxCompSize(size) == 16 + largest + (if size % 4 == 0 then 1 else 0)
      && (StoresNothing(size, capacity) <==> capacity < 24 + largest + (if size % 4 == 0 then 1 else 0))
      && (Roomy(size, capacity) <==> capacity >= 32 + 2 * largest + (if size % 4 == 0 then 1 else 0))
  {
    RawMaxSizeIsMaxWords(size);
  }

  /** A bound in entries of maxcompsize, in words of the state. */
  lemma LossInWords(size: nat, entries: nat, capacity: nat)
    requires size % 4 == 0 || size % 4 == 3
    requires entries * MaxCompSize(size) >= capacity - 2 * SIZE_BYTES
    ensures entries * (2 * MaxWords(size) + 17) >= capacity - 16
  {
    RawMaxSizeIsMaxWords(size);
    var slack := 2 * MaxWords(size) + 17 - MaxCompSize(size);
    assert entries * (2 * MaxWords(size) + 17) == entries * MaxCompSize(size) + entries * slack;
  }

  /** No smaller maxcompsize would do, but for the byte that the rounding adds: the entry that
      leads from a state to one that differs everywhere takes it up. */
  lemma LargestEntryIsReached(size: nat, u: Word, v: Word) returns (src: State, dst: State)
    requires u != v && (size % 4 == 0 || size % 4 == 3)
    ensures IsState(size, src) && IsState(size, dst)
    ensures Encodable(StatePatch(size, src, dst, u, v))
    ensures var entry := SIZE_BYTES + 2 * |Encode(StatePatch(size, src, dst, u, v))| + SIZE_BYTES;
      entry <= MaxCompSize(size) <= entry + 1
  {
    src, dst := AllChangedPair(size, u, v);
    SizeBound(size, src, dst, u, v);
    RawMaxSizeIsMaxWords(size);
  }

  /** How many of the oldest states are lost after a push: discards make room for the
      largest entry, and an entry that ends at the start of the ring also pushes out the
      one that begins there. */
  ghost function LostAfter(h: History, d: Patch, capacity: nat, maxcomp: nat): nat
    requires h.WellFormed() && 0 < capacity
  {
    var k := FirstFit(h.pos, h.first, capacity, maxcomp);
    KeptFrom(h.Discard(k), LinkAt(h.Head(), Body(d), capacity, maxcomp))
  }

  /** Only as many entries are lost as have to be: as long as the bytes between the head and the
      tail, less a link, do not hold the largest entry, and one more if it begins where the new
      entry has to end. */
  lemma LossIsNeeded(h: History, d: Patch, capacity: nat, maxcomp: nat)
    requires h.WellFormed() && Placed(h, capacity, maxcomp) && SIZE_BYTES < maxcomp
    requires maxcomp + SIZE_BYTES <= capacity
    ensures var lost, head := LostAfter(h, d, capacity, maxcomp), h.Head();
      exists k | h.first <= k <= |h.patches| ::
        && lost == (if head + Body(d) + maxcomp > capacity && h.pos[k] == SIZE_BYTES then k + 1 else k)
        && (forall j :: h.first <= j < k ==> !Spare(h, j, capacity, maxcomp))
        && (k < |h.patches| ==> Spare(h, k, capacity, maxcomp))
  {
    var k := FirstFit(h.pos, h.first, capacity, maxcomp);
    FirstFitIsFirst(h.pos, h.first, capacity, maxcomp);
    FirstFitFits(h.pos, h.first, capacity, maxcomp);
    forall j | h.first <= j <= k
      ensures Spare(h, j, capacity, maxcomp) <==> Remaining(h.pos[j], h.Head(), capacity) > maxcomp
    {
      DiscardPlaced(h, j, capacity, maxcomp);
      RemainingIs(h.Discard(j), capacity, maxcomp);
    }
    assert Room(h, k, capacity, maxcomp) && Room(h, |h.patches|, capacity, maxcomp);
  }

  /** With entry `j` as the oldest, the free bytes hold the largest entry: those between head and
      tail if the ring has wrapped, otherwise those behind the head and before the tail. */
  ghost predicate Spare(h: History, j: nat, capacity: nat, maxcomp: nat)
    requires h.WellFormed() && j < |h.pos|
  {
    h.pos[j] - SIZE_BYTES - h.Head() + (if j < h.wrap then 0 else capacity) > maxcomp
  }

  /** A push that loses states leaves nearly as many as entries of the largest size would
      fill the ring with. */
  lemma LossLeavesMany(h: History, d: Patch, capacity: nat, maxcomp: nat)
    requires h.WellFormed() && Placed(h, capacity, maxcomp) && SIZE_BYTES < maxcomp
    requires maxcomp + SIZE_BYTES <= capacity && Body(d) + SIZE_BYTES <= maxcomp
    requires LostAfter(h, d, capacity, maxcomp) <= |h.patches|
    ensures var lost := LostAfter(h, d, capacity, maxcomp);
      lost > h.first ==> (|h.patches| - lost + 3) * maxcomp >= capacity - 2 * SIZE_BYTES
  {
    var k := FirstFit(h.pos, h.first, capacity, maxcomp);
    DiscardsLeaveMany(h, capacity, maxcomp);
    if LostAfter(h, d, capacity, maxcomp) == k + 1 {
      DiscardPlaced(h, k, capacity, maxcomp);
      assert Room(h, |h.patches|, capacity, maxcomp);
      StartLeavesMany(h.Discard(k), capacity, maxcomp, Body(d));
    }
  }

  /** The history after a push with room for the largest entry, and that the ring will hold it
      once the entry is written. */
  lemma AppendPlan(size: nat, buf: seq<Byte>, h: History, maxcomp: nat, d: Patch, state: State, at: nat)
      returns (after: History)
    requires GoodSize(size) && maxcomp == MaxCompSize(size) && Roomy(size, |buf|) && |buf| < SIZE_LIMIT
    requires Retained(buf, h, maxcomp) && Remaining(h.Tail(), h.Head(), |buf|) > maxcomp
    requires Encodable(d) && EncodedSize(d) <= MaxWords(size)
    requires Fits(d, 0, |state|) && Apply(d, state, 0) == h.states[|h.patches|]
    requires at == LinkAt(h.Head(), Body(d), |buf|, maxcomp)
    ensures KeptFrom(h, at) <= |h.patches| && after == h.Discard(KeptFrom(h, at)).Push(at + SIZE_BYTES, state, d)
    ensures SIZE_BYTES <= h.Head() && h.Head() + Body(d) <= |buf| && at + SIZE_BYTES <= |buf|
    ensures h.Head() + Body(d) + maxcomp > |buf| && h.Tail() == SIZE_BYTES ==> h.Tail() + SIZE_BYTES <= h.Head()
    ensures Retained(Written(buf, h.Head(), at, Encode(d)), after, maxcomp) && after.Head() == at + SIZE_BYTES
    ensures after.Tail() == if at == 0 && h.Tail() == SIZE_BYTES then SizeAt(buf, h.Tail()) else h.Tail()
  {
    var largest := SIZE_BYTES + 2 * MaxWords(size);
    RawMaxSizeIsMaxWords(size);
    RoomToAppend(h, |buf|, maxcomp, Body(d), largest);
    AppendRing(buf, h, maxcomp, largest, d, state, at, at + SIZE_BYTES);
    after := h.Discard(KeptFrom(h, at)).Push(at + SIZE_BYTES, state, d);
  }

  class StateManager {
    const stateSize: nat
    const capacity: nat
    const maxcompsize: nat
    const data: array<Byte>
    var head: nat
    var tail: nat
    var thisblock: array<Word>
    var nextblock: array<Word>
    var entries: nat
    var thisblockValid: bool

    /** The contents of `data`. */
    ghost var bytes: seq<Byte>
    /** Where the entries lie and what they lead back to. */
    ghost var history: History

    ghost predicate RingOk()
      reads this`head, this`tail, this`history, this`bytes, data
    {
      && GoodSize(stateSize) && capacity == data.Length < SIZE_LIMIT && maxcompsize == MaxCompSize(stateSize)
      && data[..] == bytes
      && history.WellFormed() && head == history.Head() && tail == history.Tail()
      && if StoresNothing(stateSize, capacity) then |history.patches| == 0
         else Roomy(stateSize, capacity) && Retained(bytes, history, maxcompsize)
    }

    ghost predicate BlocksOk()
      reads this`thisblock, this`nextblock, thisblock, nextblock
    {
      && thisblock != nextblock && thisblock as object != data as object && nextblock as object != data as object
      && GoodSize(stateSize)
      && Guarded(thisblock[..], nextblock[..], StateWords(stateSize), CodedWords(stateSize))
      && Guarded(nextblock[..], thisblock[..], StateWords(stateSize), CodedWords(stateSize))
    }

    /** The state held in a block. */
    ghost function StateIn(block: array<Word>): State
      requires StateWords(stateSize) <= block.Length
      reads block
    {
      block[..StateWords(stateSize)]
    }

    /** The plain stack the ring stands for: every state pushed and not yet popped. */
    ghost function Pushed(): seq<State>
      requires history.WellFormed()
      reads this`history, this`thisblockValid
    {
      if thisblockValid then history.states else history.states[..|history.patches|]
    }

    /** How many of those states, the oldest ones, are lost. */
    ghost function Lost(): nat
      reads this`history
    {
      history.first
    }

    /** The newest state of the history is the one in `thisblock`. */
    ghost predicate StatesOk()
      reads this`head, this`tail, this`history, this`bytes, this`thisblock, this`nextblock, data, thisblock, nextblock
    {
      && RingOk() && BlocksOk()
      && history.states[|history.patches|] == StateIn(thisblock)
    }

    /** `entries` may exceed the number of retained states: an entry pushed out at the
        start of the ring is not subtracted from it. */
    ghost predicate Valid()
      reads this, data, thisblock, nextblock
    {
      && StatesOk()
      && entries + Lost() >= |Pushed()|
    }

    /** state_manager_new, for allocations that succeed: an empty stack. For the sizes that the
        codec handles, and a ring that is roomy or stores nothing, it behaves like one. */
    constructor (size: nat, bufferSize: nat)
      ensures stateSize == size && capacity == data.Length == bufferSize && maxcompsize == MaxCompSize(size)
      ensures history.WellFormed() && Pushed() == [] && Lost() == 0 && entries == 0 && !thisblockValid
      ensures head == tail == SIZE_BYTES
      ensures thisblock[..] == Block(size, seq(StateWords(size), _ => 0), 0)
      ensures nextblock[..] == Block(size, seq(StateWords(size), _ => 0), 1)
      ensures GoodSize(size) && bufferSize < SIZE_LIMIT && (StoresNothing(size, bufferSize) || Roomy(size, bufferSize)) ==>
        Valid()
      ensures fresh(data) && fresh(thisblock) && fresh(nextblock)
    {
      stateSize, capacity, maxcompsize := size, bufferSize, MaxCompSize(size);
      var ring := new Byte[bufferSize];
      var zeros := Block(size, seq(StateWords(size), _ => 0), 0);
      var ones := Block(size, seq(StateWords(size), _ => 0), 1);
      var this0 := new Word[AllocWords(size)](i requires 0 <= i < AllocWords(size) => zeros[i]);
      var next0 := new Word[AllocWords(size)](i requires 0 <= i < AllocWords(size) => ones[i]);
      data, thisblock, nextblock := ring, this0, next0;
      head, tail := SIZE_BYTES, SIZE_BYTES;
      entries, thisblockValid := 0, false;
      history := History([SIZE_BYTES], [seq(StateWords(size), _ => 0)], [], 0, 0);
      bytes := ring[..];
      new;
      assert thisblock[..] == zeros && nextblock[..] == ones;
      if GoodSize(size) {
        GuardedBlocks(size, seq(StateWords(size), _ => 0), seq(StateWords(size), _ => 0), 0, 1);
        GuardedBlocks(size, seq(StateWords(size), _ => 0), seq(StateWords(size), _ => 0), 1, 0);
        assert StateIn(thisblock) == seq(StateWords(size), _ => 0);
      }
    }

    /** state_manager_pop: hands out the newest retained state, in `thisblock`. It fails
        exactly when every pushed state is lost or popped. */
    method Pop() returns (ok: bool)
      requires Valid()
      modifies this, thisblock
      ensures Valid() && thisblock == old(thisblock) && nextblock == old(nextblock)
      ensures ok <==> old(Lost()) < |old(Pushed())|
      ensures old(Pushed()) == if ok then Pushed() + [StateIn(thisblock)] else Pushed()
      ensures Lost() == old(Lost()) && !thisblockValid
      ensures nextblock[..] == old(nextblock[..])
      ensures !ok ==> history.Empty()
    {
      if thisblockValid {
        thisblockValid := false;
        entries := entries - 1;
        return true;
      }
      EmptyIffHeadIsTail();
      if head == tail {
        return false;
      }
      PopEntry();
      entries := entries - 1;
      return true;
    }

    /** The chain of entries is empty exactly when head and tail meet. */
    lemma EmptyIffHeadIsTail()
      requires RingOk()
      ensures head == tail <==> history.Empty()
    {
      var m, first := |history.patches|, history.first;
      if !StoresNothing(stateSize, capacity) && first < m {
        assert Ordered(history, first, m);
      }
    }

    /** Follows the back link and decompresses onto `thisblock`. */
    method PopEntry()
      requires StatesOk() && !history.Empty()
      modifies this`head, this`history, thisblock
      ensures StatesOk() && history == old(history).Pop()
    {
      PopRing(bytes, history, maxcompsize);
      ghost var d := history.patches[|history.patches| - 1];
      var start := ReadSize(data, head - SIZE_BYTES);
      head := start;
      Decompress(data, start + SIZE_BYTES, thisblock, d, StateWords(stateSize));
      history := history.Pop();
    }

    /** state_manager_push_where: makes sure `thisblock` holds the newest retained state
        and hands out `nextblock` for the caller to fill. */
    method PushWhere()
      requires Valid()
      modifies this, thisblock
      ensures Valid() && thisblock == old(thisblock) && nextblock == old(nextblock)
      ensures Pushed() == old(Pushed()) && Lost() == old(Lost())
      ensures thisblockValid || history.Empty()
      ensures nextblock[..] == old(nextblock[..])
    {
      if !thisblockValid {
        var ok := Pop();
        if ok {
          Revalidate();
        }
      }
    }

    /** The state just popped goes back onto the stack. */
    method Revalidate()
      requires Valid() && !thisblockValid
      modifies this`thisblockValid, this`entries
      ensures Valid() && thisblockValid && Pushed() == old(Pushed()) + [StateIn(thisblock)]
    {
      assert history.states == history.states[..|history.patches|] + [StateIn(thisblock)];
      thisblockValid := true;
      entries := entries + 1;
    }

    /** state->tail = state->data + read_size_t(state->tail) */
    method EvictOldest()
      requires RingOk() && !history.Empty()
      modifies this`tail, this`history
      ensures RingOk() && history == old(history).Discard(old(history).first + 1)
    {
      EvictRing(bytes, history, maxcompsize);
      tail := ReadSize(data, tail);
      history := history.Discard(history.first + 1);
    }

    /** The loop at recheckcapacity. */
    method Discard()
      requires RingOk() && !StoresNothing(stateSize, capacity)
      requires entries + history.first > |history.patches|
      modifies this`tail, this`history, this`entries
      ensures RingOk()
      ensures history == old(history).Discard(FirstFit(old(history).pos, old(history).first, capacity, maxcompsize))
      ensures Remaining(tail, head, capacity) > maxcompsize
      ensures entries + history.first == old(entries) + old(history).first
    {
      while Remaining(tail, head, capacity) <= maxcompsize
        invariant RingOk() && history == old(history).(first := history.first)
        invariant old(history).first <= history.first
        invariant FirstFit(history.pos, history.first, capacity, maxcompsize)
               == FirstFit(old(history).pos, old(history).first, capacity, maxcompsize)
        invariant entries + history.first == old(entries) + old(history).first
        decreases |history.patches| - history.first
      {
        RemainingIs(history, capacity, maxcompsize);
        EvictOldest();
        entries := entries - 1;
      }
    }

    /** If the largest entry would not fit behind this one, it ends at the start of the ring, and
        the entry that begins there is given up. */
    method WrapIfLate(end: nat, ghost patch: seq<Word>) returns (at: nat, newTail: nat)
      requires capacity == data.Length && end == head + SIZE_BYTES + 2 * |patch| <= |bytes| == capacity
      requires data[..] == Splice(bytes, head + SIZE_BYTES, WordBytes(patch))
      requires end + maxcompsize > capacity && tail == SIZE_BYTES ==> tail + SIZE_BYTES <= head
      ensures at == LinkAt(head, SIZE_BYTES + 2 * |patch|, capacity, maxcompsize)
      ensures newTail == if at == 0 && tail == SIZE_BYTES then SizeAt(bytes, tail) else tail
    {
      at, newTail := end, tail;
      if end + maxcompsize > capacity {
        at := 0;
        if tail == SIZE_BYTES {
          SpliceElsewhere(bytes, head + SIZE_BYTES, WordBytes(patch), tail, tail + SIZE_BYTES);
          assert data[tail..tail + SIZE_BYTES] == data[..][tail..tail + SIZE_BYTES];
          newTail := ReadSize(data, tail);
        }
      }
    }

    /** The writes of push_do: the patch, the link back to the old head, and the link
        forward from it. Returns the new head and tail. */
    method StoreEntry(patch: seq<Word>) returns (newHead: nat, newTail: nat)
      requires capacity == data.Length && data[..] == bytes && SIZE_BYTES <= head
      requires head + SIZE_BYTES + 2 * |patch| <= capacity && SIZE_BYTES <= capacity
      requires LinkAt(head, SIZE_BYTES + 2 * |patch|, capacity, maxcompsize) + SIZE_BYTES <= capacity
      requires head + SIZE_BYTES + 2 * |patch| + maxcompsize > capacity && tail == SIZE_BYTES ==> tail + SIZE_BYTES <= head
      modifies data
      ensures var at := LinkAt(head, SIZE_BYTES + 2 * |patch|, capacity, maxcompsize);
        && data[..] == Written(bytes, head, at, patch) && newHead == at + SIZE_BYTES
        && newTail == if at == 0 && tail == SIZE_BYTES then SizeAt(bytes, tail) else tail
    {
      var compressed := head + SIZE_BYTES;
      StoreWords(data, compressed, patch);
      compressed, newTail := WrapIfLate(compressed + 2 * |patch|, patch);
      WriteSize(data, compressed, head);
      newHead := compressed + SIZE_BYTES;
      WriteSize(data, head, newHead);
    }

    /** Adds the entry whose patch turns `state` back into the newest state. */
    method Append(patch: seq<Word>, ghost d: Patch, ghost state: State)
      requires RingOk() && !StoresNothing(stateSize, capacity) && Remaining(tail, head, capacity) > maxcompsize
      requires Encodable(d) && patch == Encode(d) && EncodedSize(d) <= MaxWords(stateSize)
      requires Fits(d, 0, |state|) && Apply(d, state, 0) == history.states[|history.patches|]
      modifies data, this`head, this`tail, this`history, this`bytes
      ensures RingOk() && KeptFrom(old(history), LinkAt(old(head), Body(d), capacity, maxcompsize)) <= |old(history).patches|
      ensures history == old(history).Discard(KeptFrom(old(history), LinkAt(old(head), Body(d), capacity, maxcompsize)))
                                     .Push(head, state, d)
    {
      ghost var at := LinkAt(head, Body(d), capacity, maxcompsize);
      ghost var after := AppendPlan(stateSize, bytes, history, maxcompsize, d, state, at);
      var newHead, newTail := StoreEntry(patch);
      bytes := data[..];
      head, tail := newHead, newTail;
      history := after;
    }

    /** The patch push_do stores: it turns the state in `nextblock` back into the one in
        `thisblock`. */
    ghost function NextPatch(): Patch
      requires BlocksOk()
      reads this`thisblock, this`nextblock, thisblock, nextblock
    {
      Diff(thisblock[..], nextblock[..], 0, CodedWords(stateSize))
    }

    lemma NextPatchWorks()
      requires BlocksOk()
      ensures Encodable(NextPatch()) && EncodedSize(NextPatch()) <= MaxWords(stateSize)
      ensures Fits(NextPatch(), 0, StateWords(stateSize))
      ensures Apply(NextPatch(), StateIn(nextblock), 0) == StateIn(thisblock)
    {
      var a, b, s, n := thisblock[..], nextblock[..], StateWords(stateSize), CodedWords(stateSize);
      DiffEncodable(a, b, 0, n);
      DiffSize(a, b, s, n);
      DiffUndoes(a, b, s, n, 0);
      UndoesRestores(Diff(a, b, 0, n), a, b, 0, s);
      assert Mixed(a, b, 0, s) == StateIn(nextblock) && Mixed(a, b, s, s) == StateIn(thisblock);
    }

    /** The part of push_do that compresses: room is made, then the entry is added. */
    method PushEntry()
      requires StatesOk() && !StoresNothing(stateSize, capacity) && entries + history.first > |history.patches|
      modifies data, this`head, this`tail, this`history, this`bytes, this`entries
      ensures RingOk() && BlocksOk()
      ensures |history.states| == |old(history).states| + 1
      ensures history.states == old(history).states + [StateIn(nextblock)]
      ensures history.first == LostAfter(old(history), NextPatch(), capacity, maxcompsize) <= |old(history).patches|
      ensures entries + FirstFit(old(history).pos, old(history).first, capacity, maxcompsize)
           == old(entries) + old(history).first
      ensures history.first > old(history).first ==>
        (|history.states| - history.first + 1) * (2 * MaxWords(stateSize) + 17) >= capacity - 16
    {
      NextPatchWorks();
      ghost var d := NextPatch();
      Discard();
      var patch := Compress(thisblock[..], nextblock[..], CodedWords(stateSize), StateWords(stateSize));
      Append(patch, d, StateIn(nextblock));
      RawMaxSizeIsMaxWords(stateSize);
      LossLeavesMany(old(history), d, capacity, maxcompsize);
      if history.first > old(history).first {
        LossInWords(stateSize, |history.states| - history.first + 1, capacity);
      }
    }

    /** The part of push_do for a stack with nothing to compress against. */
    method PushFirst()
      requires StatesOk() && history.Empty() && !thisblockValid
      modifies this`history, this`thisblockValid
      ensures RingOk() && BlocksOk() && thisblockValid && history.first == old(history).first
      ensures |history.states| == |old(history).states| && history.patches == old(history).patches
      ensures history.states == old(history).states[..|old(history).patches|] + [StateIn(nextblock)]
    {
      thisblockValid := true;
      if !StoresNothing(stateSize, capacity) {
        ReplaceKeeps(bytes, history, StateIn(nextblock), maxcompsize);
      }
      history := history.(states := history.states[..|history.patches|] + [StateIn(nextblock)]);
    }

    /** state_manager_push_do: what the caller left in `nextblock` becomes the newest
        state. Only the oldest states are lost, and only as many as room is needed for;
        never the state that was the newest. A ring that stores nothing refuses the push
        unless it is the first. */
    method PushDo()
      requires Valid() && (thisblockValid || history.Empty())
      modifies this, data
      ensures Valid()
      ensures old(thisblockValid) && StoresNothing(stateSize, capacity) ==>
        && Pushed() == old(Pushed()) && Lost() == old(Lost()) && thisblockValid
        && thisblock == old(thisblock) && nextblock == old(nextblock)
      ensures !(old(thisblockValid) && StoresNothing(stateSize, capacity)) ==>
        && Pushed() == old(Pushed()) + [StateIn(old(nextblock))] && thisblockValid
        && thisblock == old(nextblock) && nextblock == old(thisblock)
      ensures old(thisblockValid) && !StoresNothing(stateSize, capacity) ==>
        Lost() == LostAfter(old(history), old(NextPatch()), capacity, maxcompsize) <= |old(Pushed())| - 1
      ensures !old(thisblockValid) ==> Lost() == old(Lost())
      ensures Lost() >= old(Lost())
      ensures Lost() > old(Lost()) ==> (|Pushed()| - Lost() + 1) * (2 * MaxWords(stateSize) + 17) >= capacity - 16
      ensures Pushed() == old(Pushed()) + [StateIn(old(nextblock))] <==>
        !old(thisblockValid) || capacity >= 24 + 2 * MaxWords(stateSize) + (if stateSize % 4 == 0 then 1 else 0)
    {
      LimitsInBytes(stateSize, capacity);
      if thisblockValid {
        if capacity < SIZE_BYTES + maxcompsize {
          return;
        }
        PushEntry();
      } else {
        PushFirst();
      }
      SwapBlocks();
    }

    /** The end of push_do: what was pushed becomes the block to compress against. */
    method SwapBlocks()
      requires RingOk() && BlocksOk() && thisblockValid
      requires history.states[|history.patches|] == StateIn(nextblock)
      requires entries + 1 + Lost() >= |Pushed()|
      modifies this`thisblock, this`nextblock, this`entries
      ensures Valid() && thisblock == old(nextblock) && nextblock == old(thisblock)
    {
      thisblock, nextblock := nextblock, thisblock;
      entries := entries + 1;
    }

    /** What init_rewind and check_rewind do with a frame's state: they ask where to put
        it, serialize into that block, and push it. */
    method PushState(state: seq<Word>)
      requires Valid() && |state| == StateWords(stateSize)
      modifies this, data, thisblock, nextblock
      ensures Valid()
      ensures StoresNothing(stateSize, capacity) && old(Lost()) < |old(Pushed())| ==>
        Pushed() == old(Pushed()) && Lost() == old(Lost())
      ensures !StoresNothing(stateSize, capacity) ==>
        Pushed() == old(Pushed()) + [state] && old(Lost()) <= Lost() < |Pushed()|
      ensures !StoresNothing(stateSize, capacity) && old(Lost()) < |old(Pushed())| ==> Lost() + 1 < |Pushed()|
      ensures old(Lost()) < |old(Pushed())| ==>
        (Pushed() == old(Pushed()) + [state] <==>
          capacity >= 24 + 2 * MaxWords(stateSize) + (if stateSize % 4 == 0 then 1 else 0))
      ensures Lost() > old(Lost()) ==> (|Pushed()| - Lost() + 1) * (2 * MaxWords(stateSize) + 17) >= capacity - 16
      ensures {thisblock, nextblock} == old({thisblock, nextblock})
    {
      PushWhere();
      Serialize(state);
      PushDo();
    }

    /** pretro_serialize, into the block that push_where handed out. */
    method Serialize(state: seq<Word>)
      requires Valid() && |state| == StateWords(stateSize)
      modifies nextblock
      ensures Valid() && StateIn(nextblock) == state
    {
      ghost var was := nextblock[..];
      for i := 0 to |state|
        invariant nextblock[..i] == state[..i]
        invariant forall k :: |state| <= k < nextblock.Length ==> nextblock[k] == was[k]
        invariant forall k :: 0 <= k < thisblock.Length ==> thisblock[k] == old(thisblock[k])
      {
        nextblock[i] := state[i];
      }
      assert data[..] == bytes;
      assert thisblock[..] == old(thisblock[..]);
    }
  }

  // ---------------------------------------------------------------- exactly enough capacity

  /** A push of the patch `d` onto this history follows a forward link that no push has
      written: all entries have been discarded and still the largest one does not fit, or the
      new entry has to end at the start of the ring and push out one that is not there. */
  ghost predicate FollowsUnwrittenLink(h: History, d: Patch, capacity: nat, maxcomp: nat)
    requires h.WellFormed() && 0 < capacity
  {
    var kept := h.Discard(FirstFit(h.pos, h.first, capacity, maxcomp));
    || Remaining(kept.Tail(), kept.Head(), capacity) <= maxcomp
    || LostAfter(h, d, capacity, maxcomp) > |h.patches|
  }

  /** The history of a ring that has been given its first state. */
  function FirstHistory(state: State): (h: History)
    ensures h.WellFormed()
  {
    History([SIZE_BYTES], [state], [], 0, 0)
  }

  /** In a roomy ring no push does, whatever has been pushed and popped before. */
  lemma RoomyNeverFollows(size: nat, h: History, d: Patch, capacity: nat)
    requires GoodSize(size) && Roomy(size, capacity) && h.WellFormed() && Placed(h, capacity, MaxCompSize(size))
    requires EncodedSize(d) <= MaxWords(size)
    ensures !FollowsUnwrittenLink(h, d, capacity, MaxCompSize(size))
  {
    var maxcomp := MaxCompSize(size);
    RawMaxSizeIsMaxWords(size);
    var k := FirstFit(h.pos, h.first, capacity, maxcomp);
    var kept := h.Discard(k);
    DiscardPlaced(h, k, capacity, maxcomp);
    RemainingIs(kept, capacity, maxcomp);
    FirstFitFits(h.pos, h.first, capacity, maxcomp);
    RoomToAppend(kept, capacity, maxcomp, Body(d), SIZE_BYTES + 2 * MaxWords(size));
  }

  /** A ring that stores anything is safe from this for every pair of first states exactly if
      it is roomy. */
  lemma RoomyIsExact(size: nat, capacity: nat, u: Word, v: Word)
    requires u != v && GoodSize(size) && !StoresNothing(size, capacity)
    ensures Roomy(size, capacity) <==>
      forall src, dst | IsState(size, src) && IsState(size, dst) ::
        !FollowsUnwrittenLink(FirstHistory(src), StatePatch(size, src, dst, u, v), capacity, MaxCompSize(size))
  {
    var maxcomp := MaxCompSize(size);
    RawMaxSizeIsMaxWords(size);
    if Roomy(size, capacity) {
      forall src, dst | IsState(size, src) && IsState(size, dst)
        ensures !FollowsUnwrittenLink(FirstHistory(src), StatePatch(size, src, dst, u, v), capacity, maxcomp)
      {
        SizeBound(size, src, dst, u, v);
        var h := FirstHistory(src);
        assert Room(h, 0, capacity, maxcomp);
        RoomyNeverFollows(size, h, StatePatch(size, src, dst, u, v), capacity);
      }
    } else {
      var src, dst := AllChangedPair(size, u, v);
      var h, d := FirstHistory(src), StatePatch(size, src, dst, u, v);
      assert FirstFit(h.pos, 0, capacity, maxcomp) == 0 && h.Discard(0) == h;
      assert SIZE_BYTES + Body(d) + maxcomp > capacity;
      assert LostAfter(h, d, capacity, maxcomp) == 1;
    }
  }
}
