# Verified models of RetroArch's hardest state machines

A Dafny model of four parts of RetroArch in which a fast, stateful piece of C code stands for
something much simpler, and proofs that it does:

* **Rewind** (`rewind.c`). Save states are kept as backward deltas in a byte ring. The ring is proved to be
  a plain stack that loses nothing but its oldest members, down to the link bytes, the wrap and
  the eviction at the tail; the delta codec is proved to be a round trip with a tight size bound,
  although its scans have no bounds checks.
* **Netplay** (`netplay.c`). Two peers run ahead on predicted input and replay frames when real
  input contradicts a prediction. One peer is proved to be, after every frame, where plain
  re-execution would have it; two peers over a network that loses, duplicates and reorders
  packets are proved to agree on every frame both have confirmed, and to have reached it with the
  buttons that both users held.
* **Patches** (`patch.c`). The UPS, BPS and IPS appliers are proved to compute what the patches mean,
  with their exact status codes.
* **Movies and standard input** (`movie.c`, `runloop.c`, `command.c`). A movie's file position and
  the rewind buffer go back together; lines on standard input do not depend on how the reads
  split the stream.

Where the C changes fields and arrays step by step, the model is a class or a method with loops
over arrays; each of those is proved against functions on sequences, and the promises are lemmas
about these functions. Buffers that a function only reads (a patch, a source file, the two blocks
being compared) are sequences. `dafny verify dfyconfig.toml` checks everything.

## How the files fit together

| files | content |
|---|---|
| `Bytes.dfy` | bytes, 16-bit words, little-endian numbers, `write_size_t` and `read_size_t` |
| `Delta.dfy`, `Codec.dfy` | what a backward delta is; round trip, guards, size bound, exact conditions |
| `DeltaScan.dfy`, `DeltaCodec.dfy` | the block-wise scans, the compressing and the decompressing loop |
| `RingHistory.dfy`, `RingBytes.dfy`, `RingDepth.dfy` | the byte ring as a history of entries, its arithmetic, how many states it keeps |
| `Rewind.dfy` | class `StateManager` |
| `NetplayLog.dfy`, `NetplayRing.dfy`, `RingPointers.dfy` | plain re-execution, the ring of delta frames against it, pointers modulo a size |
| `Netplay.dfy` | class `Netplay`: one peer |
| `NetplaySystem.dfy`, `NetplayTheorems.dfy`, `NetplayLimits.dfy` | two peers and a network, what holds in every run, exact limits |
| `NetplayHeld.dfy` | from the buttons both users hold to the states both cores reach |
| `Bits.dfy`, `NumberCode.dfy`, `PatchCommon.dfy` | bits, the base-128 number code, checksums, error codes |
| `UpsFormat.dfy`, `Ups.dfy`, `BpsFormat.dfy`, `Bps.dfy`, `IpsFormat.dfy`, `Ips.dfy` | meaning and application of the three patch formats |
| `PatchContent.dfy` | patching the content file in memory |
| `Movie.dfy`, `RunLoop.dfy`, `RewindEpisodes.dfy` | the ring of file positions, the frame loop that drives it together with the rewind ring, several rewinds in a row |
| `StdinLines.dfy`, `StdinPoll.dfy` | the lines of a stream, and the poll that puts them together |

## Where the code and its documentation disagree

The model follows the code.

* `rewind.h:57` says that compressing creates a patch that turns `src` into `dst`. The code stores the words of `src`
  (`rewind.c:271`), so the patch turns `dst` back into `src`.
* `rewind.c:70` asks for sizes rounded to 16 bits, but the mask is `& ~sizeof(uint16_t)`, which clears bit 1 instead of
  bit 0. States whose size is 1 or 2 modulo 4 do not survive; `Codec.RoundTripIffGoodSize` gives the exact sizes.
* The guard at `rewind.c:487` lets rings through that are too small for a second entry; `Rewind.RoomyIsExact` gives the
  exact capacity from which no unwritten link is followed. `entries` is only an upper bound of the number of states.
* A BPS offset goes through an `int` (`patch.c:151`), so it is right exactly below 2^30: `BpsFormat.DeltaIsRight`.
* The movie's position ring is said to be good for about a million frames. After exactly 2^20 frames slot 0 still holds
  the position of the movie's start, and the first step of a rewind goes all the way back: `Movie.BsvMovie.FrameRewind`.
* A second rewind in the same movie is one frame out of step once it goes back past the end of the first:
  `RewindEpisodes.SecondRewindInStep`.
* Two netplay peers with the largest ring (17 slots each) can be asked to flip players too late, after which one of them reads
  a frame of its window from the wrong side; and packets of sixteen frames do not always hold the frame the partner lacks.
  `NetplayLimits` gives both limits exactly.
* A netplay peer whose blocking poll fails between two packets goes on as if the input had arrived:
  `Netplay.Netplay.Settle`.

## Model

| member | source | states |
|---|---|---|
| Delta.GuardedBlocks | rewind.c:78-98 | Two blocks allocated with different unique words form a guard behind the state: equal words, then a sentinel that differs, for every size that is 0 or 3 modulo 4 |
| DeltaScan.FindChangeSse2 | rewind.c:129-151 | The SSE2 scan stops exactly at the first differing word, although it compares sixteen bytes at a time and checks no bound |
| DeltaScan.FindChangeSize | rewind.c:153-183 | So does the scan that compares a size_t at a time and then word by word, with and without the prologue for builds that need aligned access |
| DeltaScan.FindSame | rewind.c:186-224 | The x86 scan for the end of a run stops where `SameStop` says, without leaving the block |
| Delta.SameStopGuarded | rewind.c:186-224 | That stop lies behind the run's first word, inside the block and never behind the state's words, wherever the run starts; two consecutive words agree there |
| Delta.SameStopWithinThree | rewind.c:198-206 | The scan may run over two equal words but never over three in a row |
| Delta.ScansInsideGuarded | rewind.c:226-284 | No scan of a whole compression leaves its block when the sentinels are in place |
| Delta.StoredForm | rewind.c:46-64 | A stored patch is a sequence of runs, each with the number of words it changes and the number it skips, of 32-bit skips with the low half first, and of a skip of zero at the end |
| DeltaCodec.Compress | rewind.c:226-284 | The loop of scans, length escapes and copied runs writes exactly the encoding of the delta between the two blocks |
| DeltaCodec.Decompress | rewind.c:286-325 | Decoding a stored delta onto an array applies it to the words of the state and touches nothing else |
| Codec.RoundTrip | rewind.c:226-325 | For all pairs of states of a good size, decompressing compress(old, new) onto new gives old, including runs over 65535 words and long skips |
| Codec.RoundTripIffGoodSize | rewind.c:66-98 | The round trip holds for all pairs of states exactly if the size is 0 or 3 modulo 4 and makes at most 2^32 words |
| Codec.LastByteLost | rewind.c:80 | Sizes 1 modulo 4: the last byte is not compared, with a pair of states that is not restored |
| Codec.SentinelMissed | rewind.c:80 | Sizes 2 modulo 4: a run starting at the last word steps over the sentinel |
| Codec.FarJumpTooShort | rewind.c:249-255 | Above 2^32 words the clamped jump is too short |
| Codec.SizeBound | rewind.c:66-76 | What compression writes is never larger than state_manager_raw_maxsize |
| Codec.SizeBoundReached | rewind.c:66-76 | The bound is tight: states that differ everywhere need the last word of it |
| Delta.DiffSize | rewind.c:226-284 | Only the first block and blocks after a run cut at 65535 words can follow a skip below two, so the blocks number no more than the formula allows |
| RingHistory.PushKeeps | rewind.c:478-534 | An entry written into free bytes of the ring leaves every retained entry and both its links as they were |
| RingBytes.AppendRing | rewind.c:504-524 | A push with room for the largest entry stays in bounds, wraps only when the tail is not above the head, and its links and patch are those of the new entry |
| RingBytes.RoomToAppend | rewind.c:490-518 | The space test at recheckcapacity implies all that the writes rely on: the patch fits, the head never meets the tail, and a tail at the start has an entry to give up |
| RingBytes.PopRing | rewind.c:441-452 | The back link before the head leads to the newest entry, and its patch can be applied |
| RingBytes.EvictRing | rewind.c:499 | The forward link at the tail leads to the next entry |
| Rewind.StateManager.constructor | rewind.c:387-414 | Any size and capacity give an empty stack, two blocks with different sentinels and head and tail behind the first link; for the sizes that survive and a ring that is roomy or stores nothing, all the other operations may rely on it |
| Rewind.StateManager.Pop | rewind.c:427-457 | Hands out the most recent retained state, word for word; fails exactly if nothing is retained |
| Rewind.StateManager.PopEntry | rewind.c:441-452 | Follows the back link and restores the state before the newest entry |
| Rewind.StateManager.PushWhere | rewind.c:459-476 | Leaves the stack as it is and makes its newest state the one to compress against |
| Rewind.StateManager.Discard | rewind.c:490-502 | The discarding loop stops at the first tail that leaves room for the largest entry |
| Rewind.StateManager.StoreEntry | rewind.c:504-524 | The patch, the link back and the link forward are written at the places the wrap decides |
| Rewind.StateManager.PushDo | rewind.c:478-534 | The state in nextblock becomes the newest, exactly if there is nothing to compress against or the capacity is at least 24 bytes and the largest patch for the size of the state; only the oldest states are lost, as many as needed, and a push that loses any leaves nearly as many as such patches fill the ring with |
| Rewind.StateManager.PushState | rewind.c:552-597 | Serializing into the block handed out and pushing it puts that state on the stack, under the same condition on the capacity |
| Rewind.LimitsInBytes | rewind.c:66-76 | maxcompsize, the guard of push_do and the capacity of a roomy ring as numbers of bytes, from the size of the state alone |
| Rewind.LargestEntryIsReached | rewind.c:394-397 | maxcompsize is no larger than needed, but for one byte: a state that differs everywhere makes an entry of that size |
| Rewind.LossIsNeeded | rewind.c:490-518 | Exactly the entries that leave no room for the largest one are lost, and one more if the new entry has to end where it begins |
| Rewind.LossLeavesMany | rewind.c:490-518 | Entries are dropped only when the ring is nearly as full as entries of the largest size make it |
| RingDepth.SpareRoom | rewind.c:492-497 | The free space and the retained entries together always account for the whole ring |
| Rewind.RoomyIsExact | rewind.c:487-518 | Among rings that store anything, pushing a second state never makes push_do discard or push out an entry that is not there, exactly from this capacity on |
| Rewind.RoomyNeverFollows | rewind.c:490-518 | From that capacity on no push does so, whatever has been pushed and popped before |
| Netplay.Netplay.constructor | netplay.c:1159-1230 | At most sixteen frames of lag, one slot more, and a core at its start |
| Netplay.Netplay.GetSelfInputState | netplay.c:184-221 | The last entry of the packet is this frame and the word of the buttons held, zero for the first frame, behind the fifteen entries before; the slot of the frame gets its low sixteen bits; a peer that cannot send gives up and records nothing |
| Netplay.Netplay.ParsePacket | netplay.c:363-384 | Takes from a packet the entries that continue what has arrived, up to the frame being played |
| NetplayLog.AcceptNext | netplay.c:370-381 | A packet adds an entry, cut to sixteen bits, exactly if it is for the frame awaited by then and the frame being played has not arrived |
| NetplayLog.AcceptAllNext | netplay.c:443-458 | A packet is read exactly if the frame being played has not arrived before it |
| NetplayLog.RunIsTaken | netplay.c:370-384 | All consecutive entries of a packet from the awaited frame on are taken, wherever they stand in it |
| Netplay.Netplay.GetCmd | netplay.c:244-294 | A flip not before the last one is taken over and acknowledged, another is refused; if it comes before its frame and the window has passed the last one, everything recorded stays right |
| Netplay.Netplay.Receive | netplay.c:442-458 | The receiving loop takes all packets of the poll in order, until the frame's input is there; a packet that cannot be received ends the connection |
| Netplay.Netplay.Listen | netplay.c:432-468 | Which polls end the connection: a failed one, a silent one in a full window, and a failed receive without the input of the frame; and what the others bring |
| Netplay.Netplay.Settle | netplay.c:470-473 | The frame gets the real input if it has arrived and otherwise the newest that has; in a full window without progress it is marked as real though nothing has arrived |
| Netplay.Netplay.Simulate | netplay.c:387-396 | The prediction is the newest input that has arrived |
| Netplay.Netplay.Poll | netplay.c:408-476 | For every behaviour of the network, in terms of the counters and of what arrives: an open window never disconnects, a full one does if it is silent, goes on if the awaited frame comes, and stalls if other packets do; the word sent is the one read, and the prediction is the newest input |
| Netplay.Netplay.PollEnds | netplay.c:432-473 | How a poll ends, from the counters and the packets alone |
| Netplay.Netplay.PointerTestIsExact | netplay.c:456-473 | read_ptr == self_ptr tells whether the input has arrived exactly if the window is not full without progress |
| Netplay.Netplay.FullWindow | netplay.c:434 | other_ptr == self_ptr holds exactly if the window is full |
| Netplay.Netplay.PreFrame | netplay.c:1344-1351 | The state before the frame is saved in a slot outside the window, then input is polled, with the same outcomes |
| Netplay.Netplay.InputState | netplay.c:540-556 | A port reads the slot of the frame being run or replayed: from the last but one flip on, the own input or the other user's by the parity of the flips up to that frame |
| Netplay.Netplay.SkipConfirmed | netplay.c:1528-1539 | Frames predicted rightly are confirmed without changing the core's state, up to the first wrong one |
| Netplay.Netplay.Replay | netplay.c:1541-1572 | The replay ends in the state of plain re-execution with every input received, and every saved state on the way is that of its frame |
| Netplay.Netplay.PostFrame | netplay.c:1520-1573 | After every frame, replayed or not, the core is where a run from the start with real inputs and the recorded predictions would have it |
| Netplay.Netplay.FlipUsers | netplay.c:1253-1300 | The host flips 32 frames ahead, and not within 32 frames of the last flip |
| NetplayLog.FlipPortIs | netplay.c:527-538 | The two remembered fields decide the sides of every frame from the last but one flip on |
| NetplayLog.SwappedIsOdd | netplay.c:527-538 | The sides are changed in a frame exactly if an odd number of flips lies at or before it |
| NetplayLog.FlipMovesOn | netplay.c:527-538 | Changing (flip, F) to (not flip, F') keeps the owner of exactly the frames from F up to F' |
| NetplayRing.SaveFrame | netplay.c:184-221 | Saving a frame into the ring keeps every slot of the window |
| NetplayRing.AcceptFrame | netplay.c:375-381 | Accepting an input changes the slot of the awaited frame only |
| NetplayRing.SettleFrame | netplay.c:387-396 | The prediction that is used is the one that will be compared |
| NetplayRing.ReplayFrame | netplay.c:1553-1567 | A replayed frame's slot gets the state of plain re-execution |
| NetplaySystem.StepKeeps | netplay.c:408-476 | The window invariant of both peers and what is in the network survive every step, for all ring sizes |
| NetplaySystem.WaitingIsOrderly | netplay.c:1271-1276 | A flip lies ahead of both peers and both windows have passed the last one, for all ring sizes, if the host has waited for as many frames as both rings hold, less one |
| NetplaySystem.FlipIsOrderly | netplay.c:1271-1276 | The host's 32 frames are enough for rings of at most 33 slots together |
| NetplayTheorems.LogsAgree | netplay.c:1520-1573 | In every run, for all ring sizes, re-execution of a frame both peers have confirmed agrees and follows from both users' real inputs |
| NetplayTheorems.PeersAgree | netplay.c:1520-1573 | In every run whose flips are in order, for all ring sizes, the states of a frame both peers have confirmed are equal and follow from both users' real inputs, and the flip fields give both peers the right sides for every frame they may still run or replay |
| NetplayTheorems.SmallRingsAgree | netplay.c:1520-1573 | With rings of at most 33 slots together this holds in every run |
| NetplayTheorems.SavedStatesAgree | netplay.c:1520-1573 | The state that a peer's ring or core really holds for the frame up to which it has confirmed everything is the one the real inputs lead to, and equal for two peers that have confirmed equally many frames |
| NetplayTheorems.OrderlyFlipsAreInOrder | netplay.c:264-284 | An orderly flip of the system is one that a client object takes over in order |
| NetplayHeld.ReadButtons | netplay.c:192-204 | The word has one bit for each button that is held |
| NetplayHeld.ButtonsArrive | netplay.c:540-556 | Of the buttons in a word exactly the first sixteen are seen by the core |
| NetplayHeld.SentIsHeld | netplay.c:192-211 | In every run, each side has sent what its own user held, frame by frame, but for a zero in the first |
| NetplayHeld.ConfirmedIsPlayed | netplay.c:1520-1573 | In every run, for all ring sizes, re-execution of a frame that either side has confirmed is the core run on the buttons both users held, whatever was lost or predicted on the way |
| NetplayHeld.SavedIsPlayed | netplay.c:1520-1573 | The same for the state that a peer's ring or core really holds |
| NetplayTheorems.ReceptionInOrder | netplay.c:363-384 | In every run, for all ring sizes, what has arrived is the low sixteen bits of the partner's first words, each once and in order, never beyond the frame being played |
| NetplayTheorems.Skew | netplay.c:1212 | In every run, for all ring sizes, no peer is further ahead of what its partner has received than both rings are large |
| NetplayTheorems.NewestBringsOn | netplay.c:206-209 | If both rings fit a packet, the newest packet brings a waiting partner on |
| NetplayTheorems.NotBothStuck | netplay.c:432-458 | Then two blocked peers cannot both stay blocked when packets arrive |
| NetplayTheorems.PollIsSteps | netplay.c:408-476 | What the class does to its log in one frame is a sequence of the system's steps |
| NetplayLimits.CoverageIsExact | netplay.c:206-209 | For all ring sizes: sixteen frames per packet always hold the frame either peer lacks exactly if both rings have at most sixteen slots together |
| NetplayLimits.LateFlip | netplay.c:1271-1276 | A run with the largest rings in which a flip comes before the window has passed the last one, and after which a peer's fields give the wrong side for a frame of its window |
| NetplayLimits.FlipGuardIsExact | netplay.c:1271-1276 | The host's 32-frame guard keeps flips orderly in every run exactly if both rings have at most 33 slots together |
| NetplayLimits.SidesKnownIsExact | netplay.c:527-538 | And exactly then does netplay_flip_port give every frame of every window its right side in every run |
| NumberCode.ValueOfEncode | patch.c:62-77 | Encoding any number and reading it back gives the number |
| NumberCode.EncodeOfValue | patch.c:62-77 | Every complete code is the encoding of its value |
| NumberCode.CodesAreUnique | patch.c:62-77 | No two codes share a value |
| NumberCode.ValueIsSum | patch.c:62-77 | A number ends with the first byte whose high bit is set, and is the sum of its seven-bit digits, each but the first counting from one |
| NumberCode.AddDigit | patch.c:68-71 | The decoder's registers, modulo 2^64, stand for the digits read so far |
| NumberCode.NextShift | patch.c:72-73 | The carry into the next digit keeps that |
| PatchCommon.TrailerIs | patch.c:178-186 | The checksums of source, target and patch stand in this order, lowest byte first |
| PatchCommon.SumIs | patch.c:111-192 | A checksum is the complement of a register that starts with all ones and takes in byte after byte |
| Ups.UpsData.PatchRead | patch.c:216-227 | Reads and sums the next byte, zero past the end |
| Ups.UpsData.SourceRead | patch.c:229-240 | The same for the source |
| Ups.UpsData.TargetWrite | patch.c:242-254 | Appends to the target, drops what lies past its end |
| Ups.UpsData.Decode | patch.c:256-270 | Decodes a number modulo 2^64 and consumes exactly its bytes |
| Ups.UpsData.ApplyBlocks | patch.c:316-328 | After the blocks, source_offset is min(target_offset, source_length) and every byte written is the exclusive or of the padded source and the mask |
| Ups.UpsData.Tail | patch.c:330-333 | The rest of the source is read, and the target filled up |
| Ups.UpsData.Judge | patch.c:336-368 | The three checksums decide the status, whichever side the source was |
| Ups.UpsApplyPatch | patch.c:272-369 | Status, length and target contents of every call, with the errors in the code's order |
| UpsFormat.WhichError | patch.c:298-368 | Which error a call ends with: the patch's own checksum comes first, then the source has to have one size and checksum of the patch, and the result the other |
| UpsFormat.Layout | patch.c:298-313 | A patch begins with four letters and the two sizes, and ends with the checksums |
| UpsFormat.MaskPlaces | patch.c:316-328 | Each xor of a block falls behind the bytes the blocks before it take and those it skips, and the byte behind the xors is left as it is |
| UpsFormat.BothWays | patch.c:316-333 | A patch leads from the source to the target and back exactly if its mask is the exclusive or of both, padded with zeros |
| UpsFormat.ThereAndBack | patch.c:351-366 | Applied to either file, a patch between two files succeeds and gives the other |
| UpsFormat.EveryPairHasAPatch | patch.c:316-368 | For any two files there is such a patch |
| UpsFormat.XorLaws | patch.c:324 | Exclusive or is commutative, has the unit zero and undoes itself |
| UpsFormat.XorIsBitwise | patch.c:324 | Each bit of it is the sum of the two bits modulo 2 |
| Bps.BpsData.Decode | patch.c:62-77 | Decodes a number modulo 2^64 and consumes exactly its bytes |
| Bps.BpsData.DecodeDelta | patch.c:151-157 | Every signed offset, cut to an int; it is the one that was written exactly if it is below 2^30 |
| BpsFormat.DeltaIsRight | patch.c:151-157 | A delta survives the 32-bit int exactly if it is below 2^30 |
| BpsFormat.ReadAsMeant | patch.c:151-157 | An action list is read as it was written exactly if all its deltas are below 2^30 |
| Bps.BpsData.CopyTarget | patch.c:166-170 | The byte-wise copy within the target writes the repetition of what it copies from |
| BpsFormat.RepeatedNext | patch.c:166-170 | The next byte of a repetition is the one at the moving offset, even if the copy wrote it itself |
| BpsFormat.OverlapIsPeriodic | patch.c:166-170 | An overlapping copy is periodic and changes nothing already written |
| BpsFormat.OffsetsAccumulate | patch.c:150-172 | Relative offsets are the sum of all deltas and copied bytes; the output only ever grows, by each action's length |
| Bps.BpsData.Perform | patch.c:129-175 | One turn of the loop consumes an action's bytes and takes the copy machine one step |
| BpsFormat.NumberDecides | patch.c:129-175 | The low two bits of an action's first number say which of the four copies it is, the others how many bytes it writes, and the lowest bit of a copy's second number is the sign of its offset |
| Bps.BpsData.PerformAll | patch.c:129-175 | Applying the encoding of an action list writes exactly what the list, as it is read, means |
| Bps.BpsData.Judge | patch.c:178-204 | The checksums of source, target and patch are compared in this order |
| Bps.BpsApplyPatch | patch.c:90-205 | Status, length and target contents of every call |
| BpsFormat.WhichError | patch.c:105-202 | Which error a call ends with, in the order of the checks |
| BpsFormat.Layout | patch.c:114-121 | A patch begins with four letters, two sizes and the markup with its length, and ends with the checksums |
| BpsFormat.PatchGivesTarget | patch.c:90-205 | A patch that encodes an action list from one file to another succeeds and gives the other |
| BpsFormat.ActionsMakeAPatch | patch.c:90-205 | Any actions with offsets below 2^30 that write one file from another make a patch between the two |
| BpsFormat.EveryPairHasAPatch | patch.c:90-205 | So any two files have one |
| Ips.ApplyRecord | patch.c:416-445 | A copied or a run-length record overwrites its stretch of the target; a record that is cut off or empty changes nothing |
| Ips.IpsApplyPatch | patch.c:371-452 | Behind the right header every patch is applied record by record up to its end or to where it breaks off, which is an error; the length is the furthest end or the cut |
| IpsFormat.EveryBodyIsOne | patch.c:390-449 | Any bytes are records and an ending; an address that spells the end marker is one unless nothing or just a size follows |
| IpsFormat.BodyIsUnique | patch.c:390-449 | And in one way only |
| IpsFormat.WrittenIsRead | patch.c:403-445 | Round trip: records and an ending written out with the highest bytes first are read back as they were |
| IpsFormat.PatchIsRead | patch.c:382-445 | And such a file means nothing else, even if an address in it spells the end marker |
| IpsFormat.LastRecordWins | patch.c:422-445 | A byte comes from the last record that covers it, and is otherwise as it was |
| IpsFormat.LengthIsFurthest | patch.c:447-448 | The length is the smallest that holds the source and every record |
| PatchContent.BpsContent | patch.c:454-516 | The content is replaced exactly if both sizes and all three checksums are right; a BPS patch from the content to a target puts the target in its place exactly if that is at most four times as large |
| PatchContent.UpsContent | patch.c:454-516 | The same for UPS patches, in both directions |
| PatchContent.IpsContent | patch.c:454-516 | An unbroken IPS patch replaces the content by what its records leave; a broken one changes nothing |
| Movie.BsvMovie.constructor | movie.c:169-191 | The movie starts at its first frame, behind the header and the state |
| Movie.BsvMovie.SetFrameStart | movie.c:198-203 | The frame's position goes into its slot and the last 2^20 positions stay |
| Movie.BsvMovie.SetFrameEnd | movie.c:205-214 | The pointer stays the frame number modulo 2^20, and only a rewind's first step counts as first |
| Movie.BsvMovie.FrameRewind | movie.c:216-254 | Each step of an uninterrupted rewind seeks to where the frame before began, unless the movie has a multiple of 2^20 frames and its first slot still holds the start; then the first step is wrong |
| Movie.BeginningIsRight | movie.c:220-225 | The shortcut at the beginning is right in every other case |
| Movie.SlotsNext | movie.c:198-203 | Recording a frame overwrites only the position of the frame 2^20 before |
| RunLoop.Runner.constructor | rewind.c:593-596 | The state the movie starts from is saved |
| RunLoop.Runner.CheckRewind | runloop.c:146-209 | Step i of one uninterrupted rewind after n frames succeeds exactly if frame n - i is retained; it restores the state before that frame and seeks to its position |
| RunLoop.Runner.Frame | runloop.c:1182-1217 | A frame adds its state and position unless it is one that was rewound to |
| RewindEpisodes.SecondRewindInStep | runloop.c:167-204 | After a first rewind and more frames, a second rewind restores and seeks the same frame exactly as long as it does not go back past the end of the first; beyond that the movie is one frame ahead |
| RewindEpisodes.OneRewindInStep | runloop.c:167-204 | A single rewind of any length stays in step |
| RewindEpisodes.NothingStored | rewind.c:487-488 | With a ring that stores nothing, a rewind is in step exactly after one frame |
| StdinPoll.Command.LastNewline | command.c:505 | Finds the last newline before any NUL |
| StdinPoll.Command.ParseMsg | command.c:325-335 | The tokens are the non-empty lines up to the cut |
| StdinPoll.Command.Poll | command.c:488-528 | However the reads split the stream, the lines handed on and the bytes kept are those of taking it byte by byte |
| StdinLines.ChunkIsFed | command.c:500-527 | One poll over any chunk equals its bytes fed singly, NULs and overlong lines included |
| StdinLines.HandedOnIsLines | command.c:507-519 | The lines handed on are the non-empty lines of the stream exactly if each, with its newline, has at most 4095 bytes and no NUL |
| StdinLines.NonEmptyKeeps | command.c:325-335 | Leaving out empty lines keeps the others in their order |
| StdinLines.SplitIsSplit | command.c:325-335 | Splitting a stream loses nothing and splits at every newline |
| StdinPoll.Command.LinesOfStream | command.c:488-528 | The same, over all polls of a run |

## What is taken as given

* Rewind: an x86 build (`CPU_X86`, little-endian, 8-byte `size_t`) and allocations that succeed. States are sequences of
  16-bit words; the odd last byte of a state is the low half of a word.
* Netplay: the core is any function of its state and two inputs, and saving and restoring is faithful. A flip reaches both
  peers in one step, while the client polls. Frame numbers are natural numbers. The word given to a poll is what the loop over
  the local user's buttons makes of them, or zero while input is blocked.
* Patches: the step of the CRC is a parameter, and nothing is claimed about which data share a checksum. BPS and UPS patches
  with the right header are well formed. Sizes and lengths are those the variables of the C hold.
* Movie: a movie from its start, with one state pushed per frame.
* Standard input: one poll gets what its reads return, up to the free space of the buffer.

## Left out

- DeltaScan.FindSame: only the x86 path; with `NO_UNALIGNED_MEM` the scan stops after a single equal word, and the size bound is not claimed for it.
- state_manager_capacity and state_manager_free: statistics and deallocation.
- check_rewind without a movie: `rewind_granularity` then only decides how often a state is pushed; the stack is the same.
- Netplay.Netplay.Poll: what a peer does after it has acknowledged a flip that comes too early or too late for its window is not followed any further; the system model shows that such flips occur with the largest rings and which frames are then misread.
- Netplay.Netplay.PreFrame: the same as for the poll it makes.
- Netplay.Netplay.GetCmd: at most one command is read in a frame, and only flips; others close the connection.
- Sockets, retries, handshake, nicknames, SRAM exchange and spectator mode: input and output.
- 32-bit wrap-around of netplay's frame counters: the model counts in natural numbers.
- Ups.UpsApplyPatch: sizes of 2^32 and more, which the decoder's unsigned fields truncate, and malformed bodies, on which the decoder need not end, are outside its precondition.
- Bps.BpsApplyPatch: malformed bodies, which are read without bounds, are outside its precondition; builds without zlib, which always report a wrong checksum, are not modelled.
- Ips.IpsApplyPatch: patches of 2^32 bytes and more, records outside the target, and a cut-off record whose length is larger than the whole patch, for which the bounds test wraps around, are outside its precondition.
- Patch creation and the choice of a patch file: the repository only applies patches, and the choice is glue.
- RunLoop.Runner.constructor: the ring stores states and is roomy; `RewindEpisodes.NothingStored` says what a ring that stores nothing does to a movie.
- RunLoop.Runner.CheckRewind: one rewind per movie, on the real ring and the real movie; several in a row are followed on frame numbers in `RewindEpisodes`.
- RunLoop.Runner.Frame: the frame that runs after a rewind step that found nothing retained (`runloop.c:181-184`) is not followed.
- The contents of a movie file: only positions matter here; the rewritten start state of a recording is not modelled.
- stdin_cmd_poll on Windows and the network command socket: other sources of the same bytes.
- parse_sub_msg: a table lookup of one line.
- Autosave, playlists, cheats, options, configuration, drivers and user interface: bookkeeping or glue.
