/** What one netplay peer knows, frame by frame, and the core state that follows from
    it by plain re-execution. The ring of delta frames in module Netplay is measured
    against this. */
module NetplayLog {
  /** uint16_t input_state */
  type Input = x: int | 0 <= x < 0x1_0000

  /** The emulated core: its state when play starts and what one frame does to it. */
  datatype Core<!S> = Core(start: S, step: (S, Input, Input) -> S)

  /** One entry of a packet: a frame number and the 32-bit input word of that frame. */
  datatype Entry = Entry(frame: nat, state: nat)
  type Packet = seq<Entry>

  const UDP_FRAME_PACKETS := 16

  /** The 16 bits of an input word that the delta frames keep. */
  function Low16(state: nat): Input {
    state % 0x1_0000
  }

  /** `port` is netplay->port: the port the other user controls is port 1. `mine` are the
      input words sent so far, `theirs` the other user's inputs as they arrived, `guess`
      what was used for the other user when a frame was first run, `flips` the frames at
      which the users change sides. */
  datatype Log = Log(port: bool, mine: seq<nat>, theirs: seq<Input>, guess: seq<Input>, flips: seq<nat>)

  /** Whether the users have changed sides an odd number of times up to frame `f`. */
  function Swapped(flips: seq<nat>, f: nat): bool {
    if flips == [] then false
    else (flips[|flips| - 1] <= f) != Swapped(flips[..|flips| - 1], f)
  }

  /** The users have changed sides if an odd number of flips lies at or before the frame. */
  lemma {:induction false} SwappedIsOdd(flips: seq<nat>, f: nat)
    ensures Swapped(flips, f) <==> |set i | 0 <= i < |flips| && flips[i] <= f| % 2 == 1
  {
    if flips != [] {
      var n := |flips| - 1;
      var before := flips[..n];
      SwappedIsOdd(before, f);
      var past, now := set i | 0 <= i < |before| && before[i] <= f, set i | 0 <= i < |flips| && flips[i] <= f;
      assert now == if flips[n] <= f then past + {n} else past;
    }
  }

  /** The other user's input of frame `f` when the first `o` frames are confirmed. */
  function Theirs(l: Log, o: nat, f: nat): Input
    requires o <= |l.theirs| && (f < o || f < |l.guess|)
  {
    if f < o then l.theirs[f] else l.guess[f]
  }

  /** The input of a port in frame `f`. */
  function PortInput(l: Log, o: nat, port: bool, f: nat): Input
    requires o <= |l.theirs| && f < |l.mine| && (f < o || f < |l.guess|)
  {
    if l.port == (port != Swapped(l.flips, f)) then Theirs(l, o, f) else Low16(l.mine[f])
  }

  /** Plain re-execution: the core state before frame `k`, from the real inputs of the
      first `o` frames and the recorded predictions for the others. */
  function StateAt<S>(core: Core<S>, l: Log, o: nat, k: nat): S
    requires o <= |l.theirs| && k <= |l.mine| && (k <= o || k <= |l.guess|)
  {
    if k == 0 then core.start
    else core.step(StateAt(core, l, o, k - 1), PortInput(l, o, false, k - 1), PortInput(l, o, true, k - 1))
  }

  /** Both ports get the same input in frame `f`. */
  ghost predicate SameInputs(l: Log, o: nat, m: Log, p: nat, f: nat) {
    && o <= |l.theirs| && f < |l.mine| && (f < o || f < |l.guess|)
    && p <= |m.theirs| && f < |m.mine| && (f < p || f < |m.guess|)
    && PortInput(l, o, false, f) == PortInput(m, p, false, f)
    && PortInput(l, o, true, f) == PortInput(m, p, true, f)
  }

  lemma {:induction false} SameStates<S>(core: Core<S>, l: Log, o: nat, m: Log, p: nat, k: nat)
    requires o <= |l.theirs| && k <= |l.mine| && (k <= o || k <= |l.guess|)
    requires p <= |m.theirs| && k <= |m.mine| && (k <= p || k <= |m.guess|)
    requires forall f :: 0 <= f < k ==> SameInputs(l, o, m, p, f)
    ensures StateAt(core, l, o, k) == StateAt(core, m, p, k)
  {
    if k > 0 {
      SameStates(core, l, o, m, p, k - 1);
      assert SameInputs(l, o, m, p, k - 1);
    }
  }

  /** Confirming a frame that was predicted correctly changes no state. */
  lemma ConfirmGuessed<S>(core: Core<S>, l: Log, o: nat, k: nat)
    requires o < |l.theirs| && o < |l.guess| && k <= |l.mine| && k <= |l.guess|
    requires l.theirs[o] == l.guess[o]
    ensures StateAt(core, l, o, k) == StateAt(core, l, o + 1, k)
  {
    var p := o + 1;
    forall f | 0 <= f < k ensures SameInputs(l, o, l, p, f) {
    }
    SameStates(core, l, o, l, p, k);
  }

  /** `m` extends `l`: same past, and any further flip lies at frame `k` or later. */
  ghost predicate Extends(l: Log, m: Log, k: nat) {
    && m.port == l.port && l.mine <= m.mine && l.theirs <= m.theirs && l.guess <= m.guess
    && forall f :: 0 <= f < k ==> SameSide(l.flips, m.flips, f)
  }

  ghost predicate SameSide(flips: seq<nat>, later: seq<nat>, f: nat) {
    Swapped(later, f) == Swapped(flips, f)
  }

  lemma ExtendedState<S>(core: Core<S>, l: Log, m: Log, o: nat, k: nat)
    requires Extends(l, m, k) && o <= |l.theirs| && k <= |l.mine| && (k <= o || k <= |l.guess|)
    ensures StateAt(core, l, o, k) == StateAt(core, m, o, k)
  {
    forall f | 0 <= f < k ensures SameInputs(l, o, m, o, f) {
      assert SameSide(l.flips, m.flips, f);
    }
    SameStates(core, l, o, m, o, k);
  }

  // ---------------------------------------------------------------- receiving

  /** parse_packet from entry `i` on: an entry is taken if it is the next frame and not
      beyond `limit`. */
  function Accept(theirs: seq<Input>, limit: nat, packet: Packet, i: nat): (r: seq<Input>)
    requires i <= |packet|
    ensures |theirs| <= |r| && (|theirs| <= limit + 1 ==> |r| <= limit + 1)
    decreases |packet| - i
  {
    if i == |packet| || |theirs| > limit then theirs
    else if packet[i].frame != |theirs| then Accept(theirs, limit, packet, i + 1)
    else Accept(theirs + [Low16(packet[i].state)], limit, packet, i + 1)
  }

  /** The receiving loop of netplay_poll, from packet `i` on: packets are read until the
      frame being played has arrived or there are no more of them. */
  function AcceptAll(theirs: seq<Input>, limit: nat, packets: seq<Packet>, i: nat): (r: seq<Input>)
    requires i <= |packets|
    ensures |theirs| <= |r| && (|theirs| <= limit + 1 ==> |r| <= limit + 1)
    decreases |packets| - i
  {
    if i == |packets| || |theirs| > limit then theirs
    else AcceptAll(Accept(theirs, limit, packets[i], 0), limit, packets, i + 1)
  }

  /** The last entry of a packet is added if it is the frame awaited by then, cut to sixteen
      bits, and the frame being played has not arrived yet; otherwise it changes nothing. */
  lemma {:induction false} AcceptNext(theirs: seq<Input>, limit: nat, packet: Packet, e: Entry, i: nat)
    requires i <= |packet|
    ensures var got := Accept(theirs, limit, packet, i);
      Accept(theirs, limit, packet + [e], i)
        == if |got| <= limit && e.frame == |got| then got + [e.state % 0x1_0000] else got
    decreases |packet| - i
  {
    if i < |packet| {
      assert (packet + [e])[i] == packet[i];
      if |theirs| <= limit {
        AcceptNext(if packet[i].frame == |theirs| then theirs + [Low16(packet[i].state)] else theirs, limit, packet, e, i + 1);
      }
    }
  }

  /** A further packet is read unless the frame being played has arrived. */
  lemma {:induction false} AcceptAllNext(theirs: seq<Input>, limit: nat, packets: seq<Packet>, packet: Packet, i: nat)
    requires i <= |packets|
    ensures var got := AcceptAll(theirs, limit, packets, i);
      AcceptAll(theirs, limit, packets + [packet], i) == if |got| <= limit then Accept(got, limit, packet, 0) else got
    decreases |packets| - i
  {
    if i < |packets| {
      assert (packets + [packet])[i] == packets[i];
      if |theirs| <= limit {
        AcceptAllNext(Accept(theirs, limit, packets[i], 0), limit, packets, packet, i + 1);
      }
    }
  }

  /** Consecutive frames in a packet, from the awaited one on, are all taken up to the frame
      being played. */
  lemma {:induction false} RunIsTaken(theirs: seq<Input>, limit: nat, packet: Packet, at: nat, n: nat)
    requires at + n <= |packet| && |theirs| + n <= limit + 1
    requires forall j :: at <= j < at + n ==> packet[j].frame == |theirs| + j - at
    ensures |theirs| + n <= |Accept(theirs, limit, packet, 0)|
  {
    AcceptKeeps(theirs, limit, packet, at + n, 0);
    var part := packet[..at + n];
    assert part[..at + n] == part;
    RunUpTo(theirs, limit, part, at, n);
  }

  lemma {:induction false} RunUpTo(theirs: seq<Input>, limit: nat, part: Packet, at: nat, n: nat)
    requires at + n == |part| && |theirs| + n <= limit + 1
    requires forall j :: at <= j < at + n ==> part[j].frame == |theirs| + j - at
    ensures |theirs| + n <= |Accept(theirs, limit, part, 0)|
    decreases n
  {
    if n > 0 {
      var before, last := part[..at + n - 1], part[at + n - 1];
      RunUpTo(theirs, limit, before, at, n - 1);
      assert part == before + [last];
      AcceptNext(theirs, limit, before, last, 0);
    }
  }

  /** Later entries take nothing back. */
  lemma {:induction false} AcceptKeeps(theirs: seq<Input>, limit: nat, packet: Packet, k: nat, i: nat)
    requires i <= k <= |packet|
    ensures Accept(theirs, limit, packet[..k], i) <= Accept(theirs, limit, packet, i)
    decreases |packet| - k
  {
    if k == |packet| {
      assert packet[..k] == packet;
    } else {
      AcceptKeeps(theirs, limit, packet, k + 1, i);
      assert packet[..k + 1] == packet[..k] + [packet[k]];
      AcceptNext(theirs, limit, packet[..k], packet[k], i);
    }
  }

  /** An entry of the awaited frame is taken, wherever in the packet it stands. */
  lemma {:induction false} AwaitedIsTaken(theirs: seq<Input>, limit: nat, packet: Packet, i: nat, at: nat)
    requires i <= at < |packet| && packet[at].frame == |theirs| <= limit
    ensures |Accept(theirs, limit, packet, i)| > |theirs|
    decreases |packet| - i
  {
    if packet[i].frame != |theirs| {
      AwaitedIsTaken(theirs, limit, packet, i + 1, at);
    }
  }

  /** One of the packets has an entry for frame `f`. */
  ghost predicate Brings(packets: seq<Packet>, f: nat) {
    exists j, k :: 0 <= j < |packets| && 0 <= k < |packets[j]| && packets[j][k].frame == f
  }

  /** Packets with the awaited frame bring something. */
  lemma {:induction false} AwaitedArrives(theirs: seq<Input>, limit: nat, packets: seq<Packet>, i: nat)
    requires i <= |packets| && Brings(packets[i..], |theirs|) && |theirs| <= limit
    ensures |AcceptAll(theirs, limit, packets, i)| > |theirs|
    decreases |packets| - i
  {
    var j, k :| 0 <= j < |packets[i..]| && 0 <= k < |packets[i..][j]| && packets[i..][j][k].frame == |theirs|;
    var got := Accept(theirs, limit, packets[i], 0);
    if j == 0 {
      AwaitedIsTaken(theirs, limit, packets[i], 0, k);
    } else if |got| == |theirs| {
      AcceptPrefix(theirs, limit, packets[i], 0);
      assert got == theirs;
      assert packets[i + 1..][j - 1] == packets[i..][j];
      AwaitedArrives(theirs, limit, packets, i + 1);
    }
  }

  /** What has arrived stays. */
  lemma {:induction false} AcceptPrefix(theirs: seq<Input>, limit: nat, packet: Packet, i: nat)
    requires i <= |packet|
    ensures theirs <= Accept(theirs, limit, packet, i)
    decreases |packet| - i
  {
    if i < |packet| && |theirs| <= limit {
      AcceptPrefix(if packet[i].frame == |theirs| then theirs + [Low16(packet[i].state)] else theirs, limit, packet, i + 1);
    }
  }

  /** Packets without the awaited frame bring nothing. */
  lemma {:induction false} NothingAwaited(theirs: seq<Input>, limit: nat, packet: Packet, i: nat)
    requires i <= |packet| && forall j :: 0 <= j < |packet| ==> packet[j].frame != |theirs|
    ensures Accept(theirs, limit, packet, i) == theirs
    decreases |packet| - i
  {
    if i < |packet| {
      NothingAwaited(theirs, limit, packet, i + 1);
    }
  }

  lemma {:induction false} NothingArrives(theirs: seq<Input>, limit: nat, packets: seq<Packet>, i: nat)
    requires i <= |packets|
    requires !Brings(packets, |theirs|)
    ensures AcceptAll(theirs, limit, packets, i) == theirs
    decreases |packets| - i
  {
    if i < |packets| {
      NothingAwaited(theirs, limit, packets[i], 0);
      NothingArrives(theirs, limit, packets, i + 1);
    }
  }

  /** Entries of other frames than the one being played do not bring that frame. */
  lemma {:induction false} NotBrought(theirs: seq<Input>, limit: nat, packet: Packet, i: nat)
    requires i <= |packet| && |theirs| <= limit && forall j :: 0 <= j < |packet| ==> packet[j].frame != limit
    ensures |Accept(theirs, limit, packet, i)| <= limit
    decreases |packet| - i
  {
    if i < |packet| {
      NotBrought(if packet[i].frame == |theirs| then theirs + [Low16(packet[i].state)] else theirs, limit, packet, i + 1);
    }
  }

  lemma {:induction false} NoneBrought(theirs: seq<Input>, limit: nat, packets: seq<Packet>, i: nat)
    requires i <= |packets| && |theirs| <= limit && !Brings(packets, limit)
    ensures |AcceptAll(theirs, limit, packets, i)| <= limit
    decreases |packets| - i
  {
    if i < |packets| {
      NotBrought(theirs, limit, packets[i], 0);
      NoneBrought(Accept(theirs, limit, packets[i], 0), limit, packets, i + 1);
    }
  }

  /** packet_buffer: the newest sixteen frames, zeros before the first. */
  function NewestPacket(mine: seq<nat>): (p: Packet)
    ensures |p| == UDP_FRAME_PACKETS
  {
    seq(UDP_FRAME_PACKETS, i requires 0 <= i < UDP_FRAME_PACKETS =>
      var f := |mine| - UDP_FRAME_PACKETS + i;
      if f < 0 then Entry(0, 0) else Entry(f, mine[f]))
  }

  /** Every entry is a word the peer sent for that frame. */
  ghost predicate Genuine(packet: Packet, sent: seq<nat>) {
    forall i :: 0 <= i < |packet| ==> GenuineEntry(packet[i], sent)
  }

  ghost predicate GenuineEntry(e: Entry, sent: seq<nat>) {
    e.frame > 0 ==> e.frame < |sent| && e.state == sent[e.frame]
  }

  /** netplay_flip_port */
  function FlipPort(flip: bool, flipFrame: nat, port: bool, f: nat): bool {
    if flipFrame == 0 then port else (port != flip) != (f < flipFrame)
  }

  /** Flips are asked for at later and later frames. */
  ghost predicate FlipsOk(flips: seq<nat>) {
    forall i :: 0 <= i < |flips| ==> FlipOk(flips, i)
  }

  ghost predicate FlipOk(flips: seq<nat>, i: nat)
    requires i < |flips|
  {
    0 < flips[i] && (0 < i ==> flips[i - 1] <= flips[i])
  }

  /** netplay->flip_frame and the value it had before the last flip. */
  function LastFlip(flips: seq<nat>): nat {
    if flips == [] then 0 else flips[|flips| - 1]
  }

  function PreviousFlip(flips: seq<nat>): nat {
    if |flips| < 2 then 0 else flips[|flips| - 2]
  }

  lemma FlipsGrow(flips: seq<nat>, at: nat) returns (later: seq<nat>)
    requires FlipsOk(flips) && LastFlip(flips) <= at && 0 < at
    ensures later == flips + [at] && FlipsOk(later)
    ensures LastFlip(later) == at && PreviousFlip(later) == LastFlip(flips)
    ensures (|later| % 2 == 1) == !(|flips| % 2 == 1)
  {
    later := flips + [at];
    assert |flips| > 0 ==> FlipOk(flips, |flips| - 1);
    forall i | 0 <= i < |later| ensures FlipOk(later, i) {
      assert i < |flips| ==> FlipOk(flips, i);
    }
  }

  lemma FlipsSameBefore(flips: seq<nat>, at: nat, f: nat)
    requires f < at
    ensures SameSide(flips, flips + [at], f)
  {
    var later := flips + [at];
    assert later[..|later| - 1] == flips;
  }

  lemma {:induction false} AllFlipped(flips: seq<nat>, f: nat)
    requires forall i :: 0 <= i < |flips| ==> flips[i] <= f
    ensures Swapped(flips, f) <==> |flips| % 2 == 1
  {
    if flips != [] {
      AllFlipped(flips[..|flips| - 1], f);
    }
  }

  /** The two fields that remember the last flip decide the sides of every frame from the
      flip before that on. */
  lemma FlipPortIs(flips: seq<nat>, port: bool, f: nat)
    requires FlipsOk(flips) && PreviousFlip(flips) <= f
    ensures FlipPort(|flips| % 2 == 1, LastFlip(flips), port, f) == (port != Swapped(flips, f))
  {
    if flips != [] {
      var n := |flips| - 1;
      var before := flips[..n];
      assert FlipOk(flips, n);
      forall i | 0 <= i < n ensures before[i] <= f {
        EarlierIsEarlier(flips, i, n - 1);
      }
      AllFlipped(before, f);
    }
  }

  lemma {:induction false} EarlierIsEarlier(flips: seq<nat>, i: nat, j: nat)
    requires FlipsOk(flips) && i <= j < |flips|
    ensures flips[i] <= flips[j]
    decreases j - i
  {
    if i < j {
      EarlierIsEarlier(flips, i, j - 1);
      assert FlipOk(flips, j);
    }
  }

  /** Changing (flip, F) to (!flip, F') keeps every frame's owner from F up to F' and
      swaps all frames from F' on; it would also swap the frames before F. */
  lemma FlipMovesOn(flip: bool, flipFrame: nat, later: nat, port: bool, f: nat)
    requires flipFrame <= later && 0 < later && (flipFrame == 0 ==> !flip)
    ensures FlipPort(!flip, later, port, f) == FlipPort(flip, flipFrame, port, f) <==> flipFrame <= f < later
  {
  }
}
