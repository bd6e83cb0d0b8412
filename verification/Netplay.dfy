/** One netplay peer: it runs ahead on predicted input, keeps delta frames in a ring, and
    replays frames when real input contradicts a prediction. */
module Netplay {
  import opened NetplayLog
  import opened NetplayRing
  import opened RingPointers

  const MAX_LAG_FRAMES := UDP_FRAME_PACKETS

  /** What may arrive on the command connection while input is polled. */
  datatype Command = NoCommand | FlipPlayers(frame: nat)

  /** What the network does while one frame is polled: whether our packet can be sent, whether
      the first poll fails outright, the command that arrives, the packets the polls deliver,
      and whether receiving the one after them fails. */
  datatype Network = Network(sends: bool, hangup: bool, command: Command, packets: seq<Packet>, broken: bool)

  /** How netplay_poll ends. A stalled poll was blocked, got packets without the awaited frame,
      and then nothing. */
  datatype PollEnd = Disconnects | Stalls | Proceeds

  /** The input word sent for a frame; the first frame always sends zero. */
  function SentWord(f: nat, raw: nat): nat {
    if f > 0 then raw else 0
  }

  /** The flips after a command has been handled (or refused as lying in the past). */
  function FlipsAfter(flips: seq<nat>, command: Command): seq<nat> {
    if command.FlipPlayers? && LastFlip(flips) <= command.frame then flips + [command.frame] else flips
  }

  /** What netplay_poll adds to the log of frame `f` once our input is in: what has arrived, and
      what will be used for the other user. The first frame's input is known beforehand. */
  function Answered(l: Log, f: nat, command: Command, packets: seq<Packet>): (m: Log)
    requires l.theirs == [] ==> f == 0
  {
    var theirs := if f == 0 then [0] else AcceptAll(l.theirs, f, packets, 0);
    var flips := if f == 0 then l.flips else FlipsAfter(l.flips, command);
    var m := l.(theirs := theirs, flips := flips);
    m.(guess := l.guess + [Prediction(m, f)])
  }

  /** All that netplay_poll adds to the log. */
  function Polled(l: Log, raw: nat, command: Command, packets: seq<Packet>): (m: Log)
    requires l.theirs == [] ==> l.mine == []
  {
    Answered(l.(mine := l.mine + [SentWord(|l.mine|, raw)]), |l.mine|, command, packets)
  }

  /** The first poll of a frame fails: outright, or because a blocked peer gets nothing. */
  predicate Deaf(net: Network, blocked: bool) {
    net.hangup || (blocked && net.packets == [] && !net.broken)
  }

  /** How the polls of frame `f` end for a peer that has received `theirs`. */
  function EndOf(net: Network, theirs: seq<Input>, f: nat, blocked: bool): PollEnd {
    var got := AcceptAll(theirs, f, net.packets, 0);
    if Deaf(net, blocked) || (net.broken && |got| <= f) then Disconnects
    else if blocked && |got| == |theirs| then Stalls
    else Proceeds
  }

  class Netplay<S> {
    const core: Core<S>
    const port: bool
    const bufferSize: nat
    const buffer: array<DeltaFrame<S>>
    /** The state of the running core. */
    var state: S

    var selfPtr: nat
    var otherPtr: nat
    var readPtr: nat
    var tmpPtr: nat
    var frameCount: nat
    var readFrameCount: nat
    var otherFrameCount: nat
    var tmpFrameCount: nat
    var isReplay: bool
    var packetBuffer: seq<Entry>
    var flip: bool
    var flipFrame: nat
    var hasConnection: bool

    ghost var log: Log
    ghost var slots: seq<DeltaFrame<S>>

    /** Each ring pointer is its frame counter modulo the buffer size, the counters are
        in order, and no frame of the window lies before the last but one flip. */
    ghost predicate Counters()
      reads this`selfPtr, this`otherPtr, this`readPtr, this`readFrameCount, this`otherFrameCount, this`isReplay,
            this`flip, this`flipFrame, this`log, this`slots, buffer
    {
      && 0 < bufferSize == |slots| <= MAX_LAG_FRAMES + 1 && buffer[..] == slots
      && log.port == port && readFrameCount == |log.theirs| && !isReplay
      && selfPtr == |log.mine| % bufferSize
      && readPtr == readFrameCount % bufferSize
      && otherPtr == otherFrameCount % bufferSize
      && otherFrameCount <= readFrameCount <= |log.mine| <= otherFrameCount + bufferSize
      && FlipsKnown() && PreviousFlip(log.flips) <= otherFrameCount
    }

    ghost predicate Pointers()
      reads this`selfPtr, this`otherPtr, this`readPtr, this`readFrameCount, this`otherFrameCount, this`isReplay,
            this`packetBuffer, this`flip, this`flipFrame, this`log, this`slots, buffer
    {
      Counters() && packetBuffer == NewestPacket(log.mine)
    }

    /** Between frames: everything received is confirmed, the window leaves a slot free,
        and the core is where plain re-execution would have it. */
    ghost predicate Idle()
      reads this`selfPtr, this`otherPtr, this`readPtr, this`readFrameCount, this`otherFrameCount, this`isReplay,
            this`packetBuffer, this`flip, this`flipFrame, this`frameCount, this`state, this`log, this`slots, buffer
    {
      IdleBut() && packetBuffer == NewestPacket(log.mine)
    }

    /** The same but for the packet buffer. */
    ghost predicate IdleBut()
      reads this`selfPtr, this`otherPtr, this`readPtr, this`readFrameCount, this`otherFrameCount, this`isReplay,
            this`flip, this`flipFrame, this`frameCount, this`state, this`log, this`slots, buffer
    {
      && Counters() && frameCount == |log.mine| == |log.guess| && otherFrameCount == readFrameCount
      && frameCount < otherFrameCount + bufferSize && (frameCount > 0 ==> readFrameCount > 0)
      && Window(core, log, otherFrameCount, slots, frameCount, frameCount)
      && state == StateAt(core, log, otherFrameCount, frameCount)
    }

    /** While input is polled: our own input is in. */
    ghost predicate Polling()
      reads this`selfPtr, this`otherPtr, this`readPtr, this`readFrameCount, this`otherFrameCount, this`isReplay,
            this`packetBuffer, this`flip, this`flipFrame, this`frameCount, this`state, this`log, this`slots, buffer
    {
      && Pointers() && frameCount + 1 == |log.mine| && frameCount == |log.guess| && otherFrameCount <= frameCount
      && (frameCount > 0 ==> readFrameCount > 0)
      && Window(core, log, otherFrameCount, slots, frameCount + 1, frameCount)
      && state == StateAt(core, log, otherFrameCount, frameCount)
    }

    /** When the frame can run, and, once it `ran`, when it has run. */
    ghost predicate Ready(ran: bool)
      reads this`selfPtr, this`otherPtr, this`readPtr, this`readFrameCount, this`otherFrameCount, this`isReplay,
            this`packetBuffer, this`flip, this`flipFrame, this`frameCount, this`state, this`log, this`slots, buffer
    {
      && Pointers() && frameCount + 1 == |log.mine| == |log.guess| && readFrameCount > 0 && otherFrameCount <= frameCount
      && (frameCount + 1 == otherFrameCount + bufferSize ==> readFrameCount > otherFrameCount)
      && (frameCount < readFrameCount ==> log.guess[frameCount] == log.theirs[frameCount])
      && Window(core, log, otherFrameCount, slots, frameCount + 1, frameCount + 1)
      && state == StateAt(core, log, otherFrameCount, if ran then frameCount + 1 else frameCount)
    }

    /** netplay_new: the host governs user 2 with the other peer's input, the client user 1. */
    constructor (core: Core<S>, host: bool, frames: nat)
      ensures Idle() && this.core == core && port == host && log == Log(host, [], [], [], []) && hasConnection
      ensures bufferSize == (if frames > 16 then 16 else frames) + 1
    {
      var n := (if frames > MAX_LAG_FRAMES then MAX_LAG_FRAMES else frames) + 1;
      var blank := DeltaFrame(core.start, 0, 0, 0, true, false);
      var ring := new DeltaFrame<S>[n](_ => blank);
      this.core, port, bufferSize, buffer := core, host, n, ring;
      state := core.start;
      selfPtr, otherPtr, readPtr, tmpPtr := 0, 0, 0, 0;
      frameCount, readFrameCount, otherFrameCount, tmpFrameCount := 0, 0, 0, 0;
      isReplay, flip, flipFrame, hasConnection := false, false, 0, true;
      packetBuffer := seq(UDP_FRAME_PACKETS, _ => Entry(0, 0));
      log, slots := Log(host, [], [], [], []), ring[..];
    }

    /** get_self_input_state: queues our input word behind the last fifteen, sends them,
        and records the word in the frame's slot; a peer that cannot send gives up. */
    method GetSelfInputState(raw: nat, sends: bool) returns (ok: bool, sent: Packet)
      requires Idle() && Slot(slots, frameCount).state == state
      modifies this`packetBuffer, this`selfPtr, this`hasConnection, this`log, this`slots, buffer
      ensures ok == sends && hasConnection == (old(hasConnection) && sends)
      ensures packetBuffer == old(packetBuffer)[1..] + [Entry(frameCount, SentWord(frameCount, raw))]
      ensures packetBuffer[UDP_FRAME_PACKETS - 1] == Entry(frameCount, if frameCount > 0 then raw else 0)
      ensures ok ==> Polling() && sent == packetBuffer == NewestPacket(log.mine)
      ensures ok ==> log.mine == old(log.mine) + [if frameCount > 0 then raw else 0]
      ensures ok ==> buffer[frameCount % bufferSize].selfState == (if frameCount > 0 then raw else 0) % 0x1_0000
      ensures log == if ok then old(log).(mine := old(log).mine + [SentWord(frameCount, raw)]) else old(log)
      ensures !ok ==> buffer[..] == old(buffer[..]) && selfPtr == old(selfPtr)
    {
      var word := SentWord(frameCount, raw);
      packetBuffer := packetBuffer[1..] + [Entry(frameCount, word)];
      if !sends {
        hasConnection := false;
        return false, [];
      }
      NewestPacketGrows(log.mine, word);
      SaveOwn(word);
      assert Recorded(core, log, otherFrameCount, slots, frameCount);
      assert buffer[frameCount % bufferSize] == Slot(slots, frameCount);
      return true, packetBuffer;
    }

    /** The end of get_self_input_state: the frame's own input goes into its slot. */
    method SaveOwn(word: nat)
      requires IdleBut() && Slot(slots, frameCount).state == state && packetBuffer == NewestPacket(log.mine + [word])
      modifies this`selfPtr, this`log, this`slots, buffer
      ensures Polling() && log == old(log).(mine := old(log).mine + [word])
    {
      ghost var m, now := SaveFrame(core, log, otherFrameCount, slots, frameCount, word);
      assert buffer[selfPtr] == Slot(slots, frameCount);
      Put(selfPtr, buffer[selfPtr].(selfState := Low16(word)));
      assert slots == now;
      NextPtr(frameCount, bufferSize);
      selfPtr := (selfPtr + 1) % bufferSize;
      log := m;
    }

    /** A slot gets new contents. */
    method Put(ptr: nat, frame: DeltaFrame<S>)
      requires ptr < buffer.Length && buffer[..] == slots
      modifies buffer, this`slots
      ensures buffer[..] == slots == old(slots)[ptr := frame]
    {
      buffer[ptr] := frame;
      slots := slots[ptr := frame];
    }

    lemma NewestPacketGrows(mine: seq<nat>, word: nat)
      ensures NewestPacket(mine + [word]) == NewestPacket(mine)[1..] + [Entry(|mine|, word)]
    {
    }

    /** parse_packet */
    method ParsePacket(packet: Packet)
      requires Polling() && frameCount > 0
      modifies this`readPtr, this`readFrameCount, this`log, this`slots, buffer
      ensures Polling()
      ensures log == old(log).(theirs := Accept(old(log).theirs, frameCount, packet, 0))
    {
      var i := 0;
      while i < |packet| && readFrameCount <= frameCount
        invariant i <= |packet| && Polling()
        invariant log == old(log).(theirs := log.theirs)
        invariant Accept(log.theirs, frameCount, packet, i) == Accept(old(log).theirs, frameCount, packet, 0)
        decreases |packet| - i
      {
        if packet[i].frame == readFrameCount {
          TakeInput(packet[i].state);
        }
        i := i + 1;
      }
    }

    /** The body of that loop for the entry of the awaited frame. */
    method TakeInput(word: nat)
      requires Polling() && frameCount > 0 && readFrameCount <= frameCount
      modifies this`readPtr, this`readFrameCount, this`log, this`slots, buffer
      ensures Polling() && log == old(log).(theirs := old(log).theirs + [Low16(word)])
    {
      ghost var m, now := AcceptFrame(core, log, otherFrameCount, slots, frameCount, Low16(word));
      assert buffer[readPtr] == Slot(slots, readFrameCount);
      Put(readPtr, buffer[readPtr].(isSimulated := false, realInput := Low16(word)));
      assert slots == now;
      NextPtr(readFrameCount, bufferSize);
      readPtr, readFrameCount := (readPtr + 1) % bufferSize, readFrameCount + 1;
      log := m;
    }

    /** netplay_get_cmd: a flip that does not lie before the last one is taken over and
        acknowledged. The log follows if it arrives before its frame and after the window has
        passed the last one. */
    method GetCmd(command: Command) returns (ack: bool)
      requires Polling()
      modifies this`flip, this`flipFrame, this`log
      ensures ack <==> command.FlipPlayers? && old(flipFrame) <= command.frame
      ensures ack ==> flip == !old(flip) && flipFrame == command.frame
      ensures !ack ==> flip == old(flip) && flipFrame == old(flipFrame)
      ensures !ack || (old(flipFrame) <= otherFrameCount && frameCount < flipFrame) ==>
        Polling() && log == old(log).(flips := FlipsAfter(old(log).flips, command))
    {
      ack := command.FlipPlayers? && flipFrame <= command.frame;
      if ack {
        FollowFlip(command.frame, FlipInOrder(command));
      }
    }

    /** The flip is taken over; the log follows if it is `ordered`. */
    method FollowFlip(at: nat, ghost ordered: bool)
      requires Polling() && flipFrame <= at && (ordered ==> flipFrame <= otherFrameCount && frameCount < at)
      modifies this`flip, this`flipFrame, this`log
      ensures flip == !old(flip) && flipFrame == at
      ensures ordered ==> Polling() && log == old(log).(flips := old(log).flips + [at])
    {
      ghost var m := log;
      if ordered {
        m := FlipAhead(core, log, otherFrameCount, slots, frameCount + 1, frameCount, at, frameCount);
      }
      flip, flipFrame := !flip, at;
      log := m;
    }

    /** The receiving loop of netplay_poll: `packets` are those that the polls of this frame
        deliver. */
    method ReceiveAll(packets: seq<Packet>)
      requires Polling() && 0 < frameCount && readFrameCount <= frameCount
      modifies this`readPtr, this`readFrameCount, this`log, this`slots, buffer
      ensures Polling() && log == old(log).(theirs := AcceptAll(old(log).theirs, frameCount, packets, 0))
    {
      var i := 0;
      while i < |packets| && readFrameCount <= frameCount
        invariant i <= |packets| && Polling()
        invariant log == old(log).(theirs := log.theirs)
        invariant AcceptAll(log.theirs, frameCount, packets, i) == AcceptAll(old(log).theirs, frameCount, packets, 0)
        decreases |packets| - i
      {
        ParsePacket(packets[i]);
        i := i + 1;
      }
    }

    /** The same loop when receiving another packet after them fails if `broken`. */
    method Receive(packets: seq<Packet>, broken: bool) returns (ok: bool)
      requires Polling() && 0 < frameCount && readFrameCount <= frameCount
      modifies this`readPtr, this`readFrameCount, this`hasConnection, this`log, this`slots, buffer
      ensures Polling() && log == old(log).(theirs := AcceptAll(old(log).theirs, frameCount, packets, 0))
      ensures ok <==> !(broken && |log.theirs| <= frameCount)
      ensures broken && !Brings(packets, frameCount) ==> !ok
      ensures hasConnection == (old(hasConnection) && ok)
    {
      if !Brings(packets, frameCount) {
        NoneBrought(log.theirs, frameCount, packets, 0);
      }
      ReceiveAll(packets);
      ok := !(broken && readFrameCount <= frameCount);
      if !ok {
        hasConnection := false;
      }
    }

    /** A full window in which nothing has arrived since the frame began. */
    ghost predicate Stalled()
      reads this`otherFrameCount, this`readFrameCount, this`log
    {
      |log.mine| == otherFrameCount + bufferSize && readFrameCount == otherFrameCount
    }

    /** The end of netplay_poll: simulate_input, or used_real if the input is there. The
        pointers tell the two apart unless the window is stalled; then used_real is set for a
        frame whose input has not arrived. */
    method Settle()
      requires Polling() && readFrameCount > 0
      modifies this`log, this`slots, buffer
      ensures !old(Stalled()) ==> Ready(false)
      ensures !old(Stalled()) ==> log == old(log).(guess := old(log).guess + [Prediction(old(log), frameCount)])
      ensures !old(Stalled()) ==>
        log.guess[frameCount] == log.theirs[if frameCount < |log.theirs| then frameCount else |log.theirs| - 1]
      ensures old(Stalled()) ==> log == old(log) && FalselyReal()
    {
      PrevPtrIs(frameCount, bufferSize);
      PointerTestIsExact();
      if readPtr != selfPtr {
        Simulate();
      } else {
        UseReal();
      }
    }

    /** The slot of the frame about to run says that real input was used, though none has come. */
    ghost predicate FalselyReal()
      reads this`frameCount, this`readFrameCount, buffer
    {
      0 < bufferSize == buffer.Length && readFrameCount <= frameCount && buffer[frameCount % bufferSize].usedReal
    }

    /** simulate_input */
    method Simulate()
      requires Polling() && 0 < readFrameCount <= frameCount && PrevPtr(selfPtr, bufferSize) == frameCount % bufferSize
      requires !Stalled()
      modifies this`log, this`slots, buffer
      ensures Ready(false)
      ensures log == old(log).(guess := old(log).guess + [Prediction(old(log), frameCount)])
      ensures log.guess[frameCount] == log.theirs[|log.theirs| - 1]
    {
      ghost var m, now := SettleFrame(core, log, otherFrameCount, slots, frameCount);
      PrevPtrIs(readFrameCount - 1, bufferSize);
      var ptr, prev := PrevPtr(selfPtr, bufferSize), PrevPtr(readPtr, bufferSize);
      buffer[ptr] := buffer[ptr].(simulatedInput := buffer[prev].realInput, isSimulated := true, usedReal := false);
      log, slots := m, now;
    }

    /** used_real = true */
    method UseReal()
      requires Polling() && 0 < readFrameCount && PrevPtr(selfPtr, bufferSize) == frameCount % bufferSize
      requires Stalled() || readFrameCount == frameCount + 1
      modifies this`log, this`slots, buffer
      ensures readFrameCount == frameCount + 1 ==> Ready(false)
      ensures readFrameCount == frameCount + 1 ==>
        log == old(log).(guess := old(log).guess + [Prediction(old(log), frameCount)])
      ensures readFrameCount <= frameCount ==> log == old(log) && FalselyReal()
    {
      var ptr := PrevPtr(selfPtr, bufferSize);
      ghost var m, now := log, slots;
      if readFrameCount == frameCount + 1 {
        m, now := SettleFrame(core, log, otherFrameCount, slots, frameCount);
      }
      buffer[ptr] := buffer[ptr].(usedReal := true);
      log, slots := m, now;
    }

    /** The polls of netplay_poll and what they bring. */
    method Listen(net: Network) returns (ok: bool)
      requires Polling() && 0 < frameCount && FlipInOrder(net.command) && readFrameCount == otherFrameCount
      modifies this`readPtr, this`readFrameCount, this`flip, this`flipFrame, this`hasConnection,
               this`log, this`slots, buffer
      ensures hasConnection == (old(hasConnection) && ok)
      ensures ok <==> EndOf(net, old(log).theirs, frameCount, Blocked()) != Disconnects
      ensures !net.broken ==>
        (ok <==> !net.hangup && (net.packets != [] || frameCount + 1 < otherFrameCount + bufferSize))
      ensures net.hangup || (net.broken && !Brings(net.packets, frameCount)) ==> !ok
      ensures ok ==> Polling() && log == old(log).(flips := FlipsAfter(old(log).flips, net.command),
        theirs := AcceptAll(old(log).theirs, frameCount, net.packets, 0))
    {
      FullWindow();
      var block := otherPtr == selfPtr;
      var _ := GetCmd(net.command);
      var silent := net.packets == [] && !net.broken;
      if net.hangup || (silent && block) {
        hasConnection := false;
        return false;
      }
      if silent {
        if selfPtr == otherPtr {
          assert false;
        }
        return true;
      }
      ok := Receive(net.packets, net.broken);
    }

    /** The window is full once this frame's input has been sent. */
    ghost predicate Blocked()
      reads this`otherFrameCount, this`frameCount
    {
      0 < frameCount && frameCount + 1 == otherFrameCount + bufferSize
    }

    /** netplay_poll after our own input is out, from the second frame on. */
    method PollLater(net: Network) returns (ok: bool)
      requires Polling() && 0 < frameCount && FlipInOrder(net.command) && readFrameCount == otherFrameCount
      modifies this`readPtr, this`readFrameCount, this`flip, this`flipFrame, this`hasConnection,
               this`log, this`slots, buffer
      ensures hasConnection == (old(hasConnection) && ok)
      ensures ok ==> log.mine == old(log.mine)
      ensures ok && |log.guess| > frameCount && 0 < |log.theirs| ==>
        log.guess[frameCount] == log.theirs[if frameCount < |log.theirs| then frameCount else |log.theirs| - 1]
      ensures var end, was := EndOf(net, old(log).theirs, frameCount, Blocked()), old(log);
        && (ok <==> end != Disconnects)
        && (end == Stalls ==> FalselyReal())
        && (end == Proceeds ==> Ready(false) && log == Answered(was, frameCount, net.command, net.packets))
    {
      ok := Listen(net);
      if ok {
        Settle();
      }
    }

    /** netplay_poll after our own input is out. */
    method PollRest(net: Network) returns (ok: bool)
      requires Polling() && readFrameCount == otherFrameCount
      requires if frameCount == 0 then readFrameCount == 0 else FlipInOrder(net.command)
      modifies this`readPtr, this`readFrameCount, this`flip, this`flipFrame, this`hasConnection,
               this`log, this`slots, buffer
      ensures hasConnection == (old(hasConnection) && ok)
      ensures ok ==> log.mine == old(log.mine)
      ensures ok && |log.guess| > frameCount && 0 < |log.theirs| ==>
        log.guess[frameCount] == log.theirs[if frameCount < |log.theirs| then frameCount else |log.theirs| - 1]
      ensures var end, was :=
          if frameCount == 0 then Proceeds else EndOf(net, old(log).theirs, frameCount, Blocked()), old(log);
        && (ok <==> end != Disconnects)
        && (end == Stalls ==> FalselyReal())
        && (end == Proceeds ==> Ready(false) && log == Answered(was, frameCount, net.command, net.packets))
    {
      if frameCount == 0 {
        TakeFirst();
        ok := true;
      } else {
        ok := PollLater(net);
      }
    }

    /** How the poll of the next frame will end. */
    ghost function Outcome(net: Network): PollEnd
      reads this`otherFrameCount, this`frameCount, this`hasConnection, this`log
    {
      if !hasConnection || !net.sends then Disconnects
      else if frameCount == 0 then Proceeds
      else EndOf(net, log.theirs, frameCount, Blocked())
    }

    /** netplay_poll while there is a connection. */
    method PollConnected(raw: nat, net: Network) returns (ok: bool, sent: Packet)
      requires Idle() && Slot(slots, frameCount).state == state && hasConnection
      requires 0 < frameCount ==> FlipInOrder(net.command)
      modifies this`packetBuffer, this`selfPtr, this`readPtr, this`readFrameCount, this`flip, this`flipFrame,
               this`hasConnection, this`log, this`slots, buffer
      ensures ok ==> log.mine == old(log.mine) + [if frameCount > 0 then raw else 0]
      ensures ok ==> |sent| == 16 && sent[15] == Entry(frameCount, if frameCount > 0 then raw else 0)
      ensures ok && Ready(false) ==>
        log.guess[frameCount] == log.theirs[if frameCount < |log.theirs| then frameCount else |log.theirs| - 1]
      ensures (ok <==> old(Outcome(net)) != Disconnects) && hasConnection == ok
      ensures old(Outcome(net)) == Proceeds ==>
        Ready(false) && log == Polled(old(log), raw, net.command, net.packets) && sent == NewestPacket(log.mine)
      ensures old(Outcome(net)) == Stalls ==> FalselyReal()
    {
      ok, sent := GetSelfInputState(raw, net.sends);
      if ok {
        ok := PollRest(net);
      }
    }

    /** netplay_poll */
    method Poll(raw: nat, net: Network) returns (ok: bool, sent: Packet)
      requires Idle() && Slot(slots, frameCount).state == state
      requires 0 < frameCount ==> FlipInOrder(net.command)
      modifies this`packetBuffer, this`selfPtr, this`readPtr, this`readFrameCount, this`flip, this`flipFrame,
               this`hasConnection, this`log, this`slots, buffer
      ensures ok ==> old(hasConnection) && net.sends
      ensures 0 < frameCount && (net.hangup || (net.broken && !Brings(net.packets, frameCount))) ==> !ok
      ensures 0 < frameCount && frameCount + 1 == otherFrameCount + bufferSize && net.packets == [] ==> !ok
      ensures old(hasConnection) && net.sends && frameCount == 0 ==> ok && Ready(false)
      ensures old(hasConnection) && net.sends && 0 < frameCount && !net.hangup && !net.broken ==>
        && (frameCount + 1 < otherFrameCount + bufferSize ==> ok && Ready(false))
        && (Brings(net.packets, old(readFrameCount)) ==> ok && Ready(false))
        && (frameCount + 1 == otherFrameCount + bufferSize && net.packets != [] && !Brings(net.packets, old(readFrameCount)) ==>
              ok && FalselyReal() && readFrameCount <= frameCount && buffer[frameCount % bufferSize].usedReal)
      ensures ok ==> log.mine == old(log.mine) + [if frameCount > 0 then raw else 0]
      ensures ok ==> |sent| == 16 && sent[15] == Entry(frameCount, if frameCount > 0 then raw else 0)
      ensures ok && Ready(false) ==>
        log.guess[frameCount] == log.theirs[if frameCount < |log.theirs| then frameCount else |log.theirs| - 1]
      ensures ok <==> old(Outcome(net)) != Disconnects
      ensures hasConnection == (old(hasConnection) && ok)
      ensures !old(hasConnection) ==> Idle() && log == old(log)
      ensures old(Outcome(net)) == Proceeds ==>
        Ready(false) && log == Polled(old(log), raw, net.command, net.packets) && sent == NewestPacket(log.mine)
      ensures old(Outcome(net)) == Stalls ==> FalselyReal()
    {
      PollEnds(net);
      if !hasConnection {
        return false, [];
      }
      ok, sent := PollConnected(raw, net);
    }

    /** Which end that is, from the counters and what the network does. */
    lemma PollEnds(net: Network)
      requires Idle()
      ensures !hasConnection || !net.sends ==> Outcome(net) == Disconnects
      ensures hasConnection && net.sends && frameCount == 0 ==> Outcome(net) == Proceeds
      ensures 0 < frameCount && (net.hangup || (net.broken && !Brings(net.packets, frameCount))) ==>
        Outcome(net) == Disconnects
      ensures 0 < frameCount && frameCount + 1 == otherFrameCount + bufferSize && net.packets == [] ==>
        Outcome(net) == Disconnects
      ensures hasConnection && net.sends && 0 < frameCount && !net.hangup && !net.broken ==>
        && (frameCount + 1 < otherFrameCount + bufferSize ==> Outcome(net) == Proceeds)
        && (Brings(net.packets, readFrameCount) ==> Outcome(net) == Proceeds)
        && (frameCount + 1 == otherFrameCount + bufferSize && net.packets != [] && !Brings(net.packets, readFrameCount) ==>
              Outcome(net) == Stalls)
    {
      var theirs, f := log.theirs, frameCount;
      if !Brings(net.packets, f) {
        NoneBrought(theirs, f, net.packets, 0);
      }
      if Brings(net.packets, readFrameCount) {
        assert net.packets[0..] == net.packets;
        AwaitedArrives(theirs, f, net.packets, 0);
      } else {
        NothingArrives(theirs, f, net.packets, 0);
      }
    }

    /** A flip arrives before its frame, and after the window has passed the last one. */
    ghost predicate FlipInOrder(command: Command)
      reads this`flipFrame, this`otherFrameCount, this`frameCount
    {
      command.FlipPlayers? && flipFrame <= command.frame ==>
        flipFrame <= otherFrameCount && frameCount < command.frame
    }

    /** other_ptr == self_ptr says that the window is full. */
    lemma FullWindow()
      requires Pointers() && otherFrameCount < |log.mine|
      ensures otherPtr == selfPtr <==> |log.mine| == otherFrameCount + bufferSize
    {
      var sent := |log.mine|;
      if sent == otherFrameCount + bufferSize {
        var q, r := otherFrameCount / bufferSize, otherFrameCount % bufferSize;
        assert sent == bufferSize * (q + 1) + r;
        ModOf(sent, q + 1, r, bufferSize);
      } else {
        OtherSlot(otherFrameCount, sent, bufferSize);
      }
    }

    /** read_ptr == self_ptr is taken to say that the frame's input has arrived. That is right
        unless the window is full and nothing has arrived for it, which is where a failed
        blocking poll inside the receiving loop leaves the peer. */
    lemma PointerTestIsExact()
      requires Pointers() && otherFrameCount < |log.mine|
      ensures (readPtr == selfPtr <==> readFrameCount == |log.mine|)
         <==> !(|log.mine| == otherFrameCount + bufferSize && readFrameCount == otherFrameCount)
    {
      FullWindow();
      if readFrameCount < |log.mine| < readFrameCount + bufferSize {
        OtherSlot(readFrameCount, |log.mine|, bufferSize);
      }
    }

    /** The first frame counts as received: its input is zero on both sides. */
    method TakeFirst()
      requires Polling() && frameCount == 0 && readFrameCount == 0
      modifies this`readPtr, this`readFrameCount, this`log, this`slots, buffer
      ensures Ready(false)
      ensures log == old(log).(theirs := [0], guess := [0])
    {
      ghost var m, now := AcceptFrame(core, log, otherFrameCount, slots, 0, 0);
      ghost var m', now' := SettleFrame(core, m, otherFrameCount, now, 0);
      buffer[0] := buffer[0].(usedReal := true, isSimulated := false, realInput := 0);
      NextPtr(0, bufferSize);
      readPtr, readFrameCount := (readPtr + 1) % bufferSize, readFrameCount + 1;
      log, slots := m', now';
    }

    /** netplay_pre_frame_net: saves the core's state in the frame's slot and polls. */
    method PreFrame(raw: nat, net: Network) returns (ok: bool, sent: Packet)
      requires Idle() && (0 < frameCount ==> FlipInOrder(net.command))
      modifies this`packetBuffer, this`selfPtr, this`readPtr, this`readFrameCount, this`flip, this`flipFrame,
               this`hasConnection, this`log, this`slots, buffer
      ensures ok ==> old(hasConnection) && net.sends
      ensures 0 < frameCount && (net.hangup || (net.broken && !Brings(net.packets, frameCount))) ==> !ok
      ensures 0 < frameCount && frameCount + 1 == otherFrameCount + bufferSize && net.packets == [] ==> !ok
      ensures old(hasConnection) && net.sends && frameCount == 0 ==> ok && Ready(false)
      ensures old(hasConnection) && net.sends && 0 < frameCount && !net.hangup && !net.broken ==>
        && (frameCount + 1 < otherFrameCount + bufferSize ==> ok && Ready(false))
        && (Brings(net.packets, old(readFrameCount)) ==> ok && Ready(false))
        && (frameCount + 1 == otherFrameCount + bufferSize && net.packets != [] && !Brings(net.packets, old(readFrameCount)) ==>
              ok && FalselyReal() && readFrameCount <= frameCount && buffer[frameCount % bufferSize].usedReal)
      ensures ok ==> log.mine == old(log.mine) + [if frameCount > 0 then raw else 0]
      ensures ok ==> |sent| == 16 && sent[15] == Entry(frameCount, if frameCount > 0 then raw else 0)
      ensures ok && Ready(false) ==>
        log.guess[frameCount] == log.theirs[if frameCount < |log.theirs| then frameCount else |log.theirs| - 1]
      ensures ok <==> old(Outcome(net)) != Disconnects
      ensures hasConnection == (old(hasConnection) && ok)
      ensures !old(hasConnection) ==> Idle() && log == old(log)
      ensures old(Outcome(net)) == Proceeds ==>
        Ready(false) && log == Polled(old(log), raw, net.command, net.packets) && sent == NewestPacket(log.mine)
      ensures old(Outcome(net)) == Stalls ==> FalselyReal()
    {
      ghost var slot := Slot(slots, frameCount).(state := state);
      TouchFree(core, log, otherFrameCount, slots, frameCount, slot);
      buffer[selfPtr] := buffer[selfPtr].(state := state);
      slots := slots[frameCount % bufferSize := slot];
      ok, sent := Poll(raw, net);
    }

    /** netplay_input_state, all sixteen bits of a port at once, from the slot of the frame
        being run or replayed. The two flip fields give the right side from the flip before the
        last one on. */
    method InputState(p: bool, ghost f: nat) returns (input: Input)
      requires 0 < bufferSize == buffer.Length
      requires if isReplay then tmpPtr == f % bufferSize && tmpFrameCount == f
               else selfPtr == (f + 1) % bufferSize && frameCount == f
      ensures input == SlotInput(buffer[f % bufferSize], port == FlipPort(flip, flipFrame, p, f))
      ensures FlipsKnown() && PreviousFlip(log.flips) <= f ==>
        input == SlotInput(buffer[f % bufferSize], port == (p != Swapped(log.flips, f)))
      ensures FlipsKnown() && PreviousFlip(log.flips) <= f ==>
        var slot, flipped := buffer[f % bufferSize], |set i | 0 <= i < |log.flips| && log.flips[i] <= f|;
        input == if port != (p != (flipped % 2 == 1)) then slot.selfState
                 else if slot.isSimulated then slot.simulatedInput else slot.realInput
    {
      if FlipsKnown() && PreviousFlip(log.flips) <= f {
        FlipPortIs(log.flips, p, f);
        SwappedIsOdd(log.flips, f);
      }
      PrevPtrIs(f, bufferSize);
      var ptr := if isReplay then tmpPtr else PrevPtr(selfPtr, bufferSize);
      input := buffer[ptr].selfState;
      if port == FlipPort(flip, flipFrame, p, if isReplay then tmpFrameCount else frameCount) {
        input := if buffer[ptr].isSimulated then buffer[ptr].simulatedInput else buffer[ptr].realInput;
      }
    }

    /** The two fields are those of the last flip. */
    ghost predicate FlipsKnown()
      reads this`flip, this`flipFrame, this`log
    {
      FlipsOk(log.flips) && flip == (|log.flips| % 2 == 1) && flipFrame == LastFlip(log.flips)
    }

    /** pretro_run for the frame that has been polled. */
    method RetroRun()
      requires Ready(false)
      modifies this`state
      ensures Ready(true) && log == old(log)
    {
      ghost var f := frameCount;
      RunFrame(core, log, otherFrameCount, slots, f);
      var in0 := InputState(false, f);
      var in1 := InputState(true, f);
      state := core.step(state, in0, in1);
    }

    /** After the frame has been counted, before everything received is confirmed. */
    ghost predicate Counted()
      reads this`selfPtr, this`otherPtr, this`readPtr, this`readFrameCount, this`otherFrameCount, this`isReplay,
            this`packetBuffer, this`flip, this`flipFrame, this`frameCount, this`log, this`slots, buffer
    {
      && Pointers() && frameCount == |log.mine| == |log.guess| && readFrameCount <= frameCount
      && Window(core, log, otherFrameCount, slots, frameCount, frameCount)
    }

    /** The skipping loop of netplay_post_frame_net: frames whose prediction was right. */
    method SkipConfirmed()
      requires Counted() && state == StateAt(core, log, otherFrameCount, frameCount)
      modifies this`otherPtr, this`otherFrameCount
      ensures Counted() && old(otherFrameCount) <= otherFrameCount
      ensures state == StateAt(core, log, otherFrameCount, frameCount)
      ensures otherFrameCount < readFrameCount ==> log.guess[otherFrameCount] != log.theirs[otherFrameCount]
    {
      while otherFrameCount < readFrameCount
        invariant Counted() && old(otherFrameCount) <= otherFrameCount
        invariant state == StateAt(core, log, otherFrameCount, frameCount)
        decreases readFrameCount - otherFrameCount
      {
        assert Recorded(core, log, otherFrameCount, slots, otherFrameCount) && Guessed(log, slots, otherFrameCount);
        assert buffer[otherPtr] == Slot(slots, otherFrameCount);
        var ptr := buffer[otherPtr];
        if ptr.simulatedInput != ptr.realInput && !ptr.usedReal {
          break;
        }
        Confirm();
      }
    }

    /** One turn of that loop. */
    method Confirm()
      requires Counted() && state == StateAt(core, log, otherFrameCount, frameCount)
      requires otherFrameCount < readFrameCount && log.guess[otherFrameCount] == log.theirs[otherFrameCount]
      modifies this`otherPtr, this`otherFrameCount
      ensures Counted() && otherFrameCount == old(otherFrameCount) + 1
      ensures state == StateAt(core, log, otherFrameCount, frameCount)
    {
      NextPtr(otherFrameCount, bufferSize);
      ghost var p := ConfirmFrame(core, log, otherFrameCount, slots, frameCount);
      otherPtr, otherFrameCount := (otherPtr + 1) % bufferSize, otherFrameCount + 1;
    }

    /** The replay of netplay_post_frame_net: back to the first frame that was predicted
        wrongly, then every frame again up to now. */
    method Replay()
      requires Counted() && otherFrameCount < readFrameCount
      modifies this`otherPtr, this`otherFrameCount, this`tmpPtr, this`tmpFrameCount, this`isReplay, this`state,
               this`slots, buffer
      ensures Counted() && otherFrameCount == readFrameCount
      ensures state == StateAt(core, log, otherFrameCount, frameCount)
    {
      EnterReplay();
      var first := true;
      while first || tmpPtr != selfPtr
        invariant Replaying(tmpFrameCount)
        invariant (first ==> tmpFrameCount == otherFrameCount) && (!first ==> otherFrameCount < tmpFrameCount)
        decreases frameCount - tmpFrameCount
      {
        ReplayEnd();
        ReplayOne();
        first := false;
      }
      ReplayEnd();
      LeaveReplay();
    }

    /** Up to the loop: the core goes back to the first frame that was predicted wrongly. */
    method EnterReplay()
      requires Counted() && otherFrameCount < readFrameCount
      modifies this`tmpPtr, this`tmpFrameCount, this`isReplay, this`state
      ensures Replaying(tmpFrameCount) && tmpFrameCount == otherFrameCount
    {
      isReplay := true;
      tmpPtr, tmpFrameCount := otherPtr, otherFrameCount;
      StartReplay(core, log, otherFrameCount, slots, frameCount);
      assert buffer[otherPtr] == Slot(slots, otherFrameCount);
      state := buffer[otherPtr].state;
    }

    /** After the loop. */
    method LeaveReplay()
      requires Replaying(tmpFrameCount) && tmpFrameCount == frameCount
      modifies this`otherPtr, this`otherFrameCount, this`isReplay
      ensures Counted() && otherFrameCount == readFrameCount
      ensures state == StateAt(core, log, otherFrameCount, frameCount)
    {
      EndReplay(core, log, otherFrameCount, slots, frameCount);
      otherPtr, otherFrameCount := readPtr, readFrameCount;
      isReplay := false;
    }

    /** During a replay that has reached tmp_frame_count and has saved the states of the frames
        before `saved` again. */
    ghost predicate Replaying(saved: nat)
      reads this`selfPtr, this`readPtr, this`readFrameCount, this`otherFrameCount, this`isReplay, this`tmpPtr,
            this`tmpFrameCount, this`packetBuffer, this`flip, this`flipFrame, this`frameCount, this`state, this`log,
            this`slots, buffer
    {
      && 0 < bufferSize == |slots| <= MAX_LAG_FRAMES + 1 && buffer[..] == slots && log.port == port && isReplay
      && frameCount == |log.mine| == |log.guess| && otherFrameCount < readFrameCount == |log.theirs| <= frameCount
      && frameCount <= otherFrameCount + bufferSize && otherFrameCount <= tmpFrameCount <= frameCount
      && tmpPtr == tmpFrameCount % bufferSize && selfPtr == frameCount % bufferSize
      && readPtr == readFrameCount % bufferSize && packetBuffer == NewestPacket(log.mine)
      && FlipsKnown() && PreviousFlip(log.flips) <= otherFrameCount && NewestReal(log, slots)
      && (forall g :: otherFrameCount <= g < frameCount ==> Replayed(core, log, slots, saved, g))
      && state == StateAt(core, log, readFrameCount, tmpFrameCount)
    }

    /** After the first turn, tmp_ptr meets self_ptr exactly when all frames are replayed. */
    lemma ReplayEnd()
      requires Replaying(tmpFrameCount)
      ensures otherFrameCount < tmpFrameCount ==> (tmpPtr == selfPtr <==> tmpFrameCount == frameCount)
    {
      if otherFrameCount < tmpFrameCount < frameCount {
        OtherSlot(tmpFrameCount, frameCount, bufferSize);
      }
    }

    /** One turn of the replay loop: save, run, step the pointer. */
    method ReplayOne()
      requires Replaying(tmpFrameCount) && tmpFrameCount < frameCount
      modifies this`tmpPtr, this`tmpFrameCount, this`state, this`slots, buffer
      ensures Replaying(tmpFrameCount) && tmpFrameCount == old(tmpFrameCount) + 1
    {
      SaveAgain();
      RunAgain();
    }

    /** pretro_serialize into the frame's slot. */
    method SaveAgain()
      requires Replaying(tmpFrameCount) && tmpFrameCount < frameCount
      modifies this`slots, buffer
      ensures Replaying(tmpFrameCount + 1)
    {
      ghost var u, now := ReplayFrame(core, log, otherFrameCount, slots, frameCount, tmpFrameCount);
      assert buffer[tmpPtr] == Slot(slots, tmpFrameCount);
      Put(tmpPtr, buffer[tmpPtr].(state := state));
      assert slots == now;
    }

    /** pretro_run, and the step to the next frame. */
    method RunAgain()
      requires Replaying(tmpFrameCount + 1) && tmpFrameCount < frameCount
      modifies this`tmpPtr, this`tmpFrameCount, this`state
      ensures Replaying(tmpFrameCount) && tmpFrameCount == old(tmpFrameCount) + 1
    {
      ghost var t := tmpFrameCount;
      assert Replayed(core, log, slots, t + 1, t);
      RunReplayed(core, log, slots, t);
      assert buffer[t % bufferSize] == Slot(slots, t);
      var in0 := InputState(false, t);
      var in1 := InputState(true, t);
      state := core.step(state, in0, in1);
      NextPtr(t, bufferSize);
      tmpPtr, tmpFrameCount := (tmpPtr + 1) % bufferSize, tmpFrameCount + 1;
    }

    /** netplay_post_frame_net: whether or not frames are replayed, the core ends up where
        plain re-execution with everything received would have it, and everything
        received is confirmed. */
    method PostFrame()
      requires Ready(true)
      modifies this, buffer
      ensures Idle() && log == old(log) && frameCount == old(frameCount) + 1
      ensures otherFrameCount == |log.theirs| && state == StateAt(core, log, |log.theirs|, frameCount)
    {
      frameCount := frameCount + 1;
      if otherFrameCount == readFrameCount {
        return;
      }
      SkipConfirmed();
      if otherFrameCount < readFrameCount {
        Replay();
      }
    }

    /** netplay_flip_users, where `acked` says whether the client acknowledges. */
    method FlipUsers(acked: bool) returns (ok: bool)
      requires Idle()
      modifies this`flip, this`flipFrame, this`log
      ensures Idle()
      ensures ok <==> port && frameCount >= old(flipFrame) + 32 && acked
      ensures log == if ok then old(log).(flips := old(log).flips + [frameCount + 32]) else old(log)
    {
      var at := frameCount + 2 * UDP_FRAME_PACKETS;
      if !port {
        return false;
      }
      if frameCount < flipFrame + 2 * UDP_FRAME_PACKETS {
        return false;
      }
      if !acked {
        return false;
      }
      TakeFlip(at);
      ok := true;
    }

    method TakeFlip(at: nat)
      requires IdleBut() && frameCount < at && flipFrame <= otherFrameCount && flipFrame <= at
      modifies this`flip, this`flipFrame, this`log
      ensures IdleBut() && log == old(log).(flips := old(log).flips + [at])
      ensures flip == !old(flip) && flipFrame == at
    {
      ghost var m := FlipAhead(core, log, otherFrameCount, slots, frameCount, frameCount, at, frameCount);
      flip, flipFrame := !flip, at;
      log := m;
    }
  }
}
