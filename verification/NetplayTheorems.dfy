/** What holds in every run of two netplay peers. */
module NetplayTheorems {
  import opened NetplayLog
  import opened NetplayRing
  import opened Netplay
  import opened NetplaySystem

  // ---------------------------------------------------------------- agreement

  /** The core state before frame `k` from both users' real inputs. */
  function RealState<S>(core: Core<S>, hostSent: seq<nat>, clientSent: seq<nat>, flips: seq<nat>, k: nat): S
    requires k <= |hostSent| && k <= |clientSent|
  {
    if k == 0 then core.start
    else
      var prior := RealState(core, hostSent, clientSent, flips, k - 1);
      var h, c := Low16(hostSent[k - 1]), Low16(clientSent[k - 1]);
      if Swapped(flips, k - 1) then core.step(prior, c, h) else core.step(prior, h, c)
  }

  /** A peer's confirmed states follow from the real inputs alone. */
  lemma {:induction false} ConfirmedIsReal<S>(core: Core<S>, p: Peer, q: Peer, k: nat)
    requires p.log.port != q.log.port && k <= p.other <= |p.log.theirs| && k <= |p.log.mine| && k <= |q.log.mine|
    requires Agrees(p.log.theirs, q.log.mine)
    ensures StateAt(core, p.log, p.other, k)
         == if p.log.port then RealState(core, p.log.mine, q.log.mine, p.log.flips, k)
            else RealState(core, q.log.mine, p.log.mine, p.log.flips, k)
  {
    if k > 0 {
      ConfirmedIsReal(core, p, q, k - 1);
      assert p.log.theirs[k - 1] == Low16(q.log.mine[k - 1]);
    }
  }

  /** In every run, plain re-execution of a frame both peers have confirmed agrees, and follows
      from both users' real inputs. */
  lemma LogsAgree<S>(core: Core<S>, hostSize: nat, clientSize: nat, s: System, k: nat)
    requires 1 <= hostSize <= 17 && 1 <= clientSize <= 17 && Reachable(hostSize, clientSize, s)
    requires k <= s.host.other && k <= s.client.other
    ensures k <= |s.host.log.theirs| && k <= |s.host.log.mine| && s.host.other <= |s.host.log.theirs|
    ensures k <= |s.client.log.theirs| && k <= |s.client.log.mine| && s.client.other <= |s.client.log.theirs|
    ensures StateAt(core, s.host.log, s.host.other, k) == StateAt(core, s.client.log, s.client.other, k)
    ensures StateAt(core, s.host.log, s.host.other, k)
         == RealState(core, s.host.log.mine, s.client.log.mine, s.host.log.flips, k)
  {
    ReachableInv(hostSize, clientSize, s);
    ConfirmedIsReal(core, s.host, s.client, k);
    ConfirmedIsReal(core, s.client, s.host, k);
  }

  /** In every run whose flips are in order, the states of a frame both peers have confirmed are
      equal and follow from both users' real inputs, and the two fields that remember the last
      flip give both peers the right sides for all frames they may still run or replay. */
  lemma PeersAgree<S>(core: Core<S>, hostSize: nat, clientSize: nat, s: System, k: nat)
    requires 1 <= hostSize <= 17 && 1 <= clientSize <= 17 && ReachableInOrder(hostSize, clientSize, s)
    requires k <= s.host.other && k <= s.client.other
    ensures k <= |s.host.log.theirs| && k <= |s.host.log.mine| && s.host.other <= |s.host.log.theirs|
    ensures k <= |s.client.log.theirs| && k <= |s.client.log.mine| && s.client.other <= |s.client.log.theirs|
    ensures StateAt(core, s.host.log, s.host.other, k) == StateAt(core, s.client.log, s.client.other, k)
    ensures StateAt(core, s.host.log, s.host.other, k)
         == RealState(core, s.host.log.mine, s.client.log.mine, s.host.log.flips, k)
    ensures SidesKnown(s)
  {
    InOrderInv(hostSize, clientSize, s);
    LogsAgree(core, hostSize, clientSize, s, k);
    PassedIsKnown(s);
  }

  /** With rings of at most 33 slots together that holds in every run. */
  lemma SmallRingsAgree<S>(core: Core<S>, hostSize: nat, clientSize: nat, s: System, k: nat)
    requires 1 <= hostSize <= 17 && 1 <= clientSize <= 17 && hostSize + clientSize <= 2 * UDP_FRAME_PACKETS + 1
    requires Reachable(hostSize, clientSize, s) && k <= s.host.other && k <= s.client.other
    ensures k <= |s.host.log.theirs| && k <= |s.host.log.mine| && s.host.other <= |s.host.log.theirs|
    ensures k <= |s.client.log.theirs| && k <= |s.client.log.mine| && s.client.other <= |s.client.log.theirs|
    ensures StateAt(core, s.host.log, s.host.other, k) == StateAt(core, s.client.log, s.client.other, k)
    ensures SidesKnown(s)
  {
    SmallRingsReachInOrder(hostSize, clientSize, s);
    PeersAgree(core, hostSize, clientSize, s, k);
  }

  // ---------------------------------------------------------------- two real peers

  /** A client object that is where the system's client is takes every orderly flip over in order. */
  lemma OrderlyFlipsAreInOrder<S>(n: Netplay<S>, s: System)
    requires n.Idle() && n.frameCount == s.client.Frame() && n.otherFrameCount == s.client.other
    requires n.log.flips == s.client.log.flips == s.host.log.flips && Enabled(s, Flip) && FlipOrderly(s)
    ensures n.FlipInOrder(FlipPlayers(FlipAt(s)))
  {
  }

  /** A netplay object between frames is in the situation of a peer of the system. */
  ghost predicate Plays<S>(n: Netplay<S>, p: Peer)
    reads n, n.buffer
  {
    n.Idle() && n.log == p.log && n.bufferSize == p.size && n.otherFrameCount == p.other
  }

  /** The state a peer holds for the first frame that is not confirmed: in that frame's slot, or
      in the core if the frame comes next. */
  function ConfirmedState<S>(n: Netplay<S>): S
    requires n.Idle()
    reads n, n.buffer
  {
    if n.otherFrameCount == n.frameCount then n.state else n.buffer[n.otherFrameCount % n.bufferSize].state
  }

  lemma HeldIsConfirmed<S>(n: Netplay<S>)
    requires n.Idle()
    ensures n.otherFrameCount <= |n.log.theirs| && n.otherFrameCount <= |n.log.mine|
    ensures ConfirmedState(n) == StateAt(n.core, n.log, n.otherFrameCount, n.otherFrameCount)
  {
    var o := n.otherFrameCount;
    if o < n.frameCount {
      assert Recorded(n.core, n.log, o, n.slots, o);
      assert n.buffer[..][o % n.bufferSize] == Slot(n.slots, o);
    }
  }

  /** `state` is where both users' real inputs lead to in `k` frames. */
  ghost predicate IsReal<S>(core: Core<S>, s: System, state: S, k: nat) {
    && k <= |s.host.log.mine| && k <= |s.client.log.mine|
    && state == RealState(core, s.host.log.mine, s.client.log.mine, s.host.log.flips, k)
  }

  lemma HeldIsReal<S>(n: Netplay<S>, s: System, byHost: bool)
    requires Inv(s) && Plays(n, if byHost then s.host else s.client)
    requires n.otherFrameCount <= |s.host.log.mine| && n.otherFrameCount <= |s.client.log.mine|
    ensures IsReal(n.core, s, ConfirmedState(n), n.otherFrameCount)
  {
    HeldIsConfirmed(n);
    if byHost {
      ConfirmedIsReal(n.core, s.host, s.client, s.host.other);
    } else {
      ConfirmedIsReal(n.core, s.client, s.host, s.client.other);
    }
  }

  /** What each object holds in its ring, or in its core, for the frame up to which it has
      confirmed everything is what both users' real inputs lead to; so two peers that have
      confirmed equally many frames hold equal states for them. */
  lemma SavedStatesAgree<S>(host: Netplay<S>, client: Netplay<S>, s: System)
    requires Plays(host, s.host) && Plays(client, s.client) && host.core == client.core
    requires 1 <= s.host.size <= 17 && 1 <= s.client.size <= 17 && Reachable(s.host.size, s.client.size, s)
    ensures s.host.other <= |s.client.log.mine| ==> IsReal(host.core, s, ConfirmedState(host), s.host.other)
    ensures s.client.other <= |s.host.log.mine| ==> IsReal(client.core, s, ConfirmedState(client), s.client.other)
    ensures s.host.other == s.client.other ==> ConfirmedState(host) == ConfirmedState(client)
  {
    ReachableInv(s.host.size, s.client.size, s);
    if s.host.other <= |s.client.log.mine| {
      HeldIsReal(host, s, true);
    }
    if s.client.other <= |s.host.log.mine| {
      HeldIsReal(client, s, false);
    }
  }

  // ---------------------------------------------------------------- reception

  /** In every run, the frames a peer has received are, in order and each once, the first
      frames its partner sent, and never reach past the frame being played. */
  lemma ReceptionInOrder(hostSize: nat, clientSize: nat, s: System)
    requires 1 <= hostSize <= 17 && 1 <= clientSize <= 17 && Reachable(hostSize, clientSize, s)
    ensures |s.host.log.theirs| <= s.host.Frame() + 1 && |s.client.log.theirs| <= s.client.Frame() + 1
    ensures s.client.log.mine != [] ==>
      && |s.host.log.theirs| <= |s.client.log.mine|
      && forall f :: 0 <= f < |s.host.log.theirs| ==> s.host.log.theirs[f] == s.client.log.mine[f] % 0x1_0000
    ensures s.host.log.mine != [] ==>
      && |s.client.log.theirs| <= |s.host.log.mine|
      && forall f :: 0 <= f < |s.client.log.theirs| ==> s.client.log.theirs[f] == s.host.log.mine[f] % 0x1_0000
    ensures s.client.log.mine == [] ==> s.host.log.theirs == [] || s.host.log.theirs == [0]
    ensures s.host.log.mine == [] ==> s.client.log.theirs == [] || s.client.log.theirs == [0]
  {
    ReachableInv(hostSize, clientSize, s);
  }

  // ---------------------------------------------------------------- skew and redundancy

  /** No peer is further ahead of what its partner has received than both windows. */
  lemma Skew(hostSize: nat, clientSize: nat, s: System)
    requires 1 <= hostSize <= 17 && 1 <= clientSize <= 17 && Reachable(hostSize, clientSize, s)
    ensures |s.host.log.mine| <= |s.client.log.theirs| + hostSize + clientSize
    ensures |s.client.log.mine| <= |s.host.log.theirs| + hostSize + clientSize
  {
    ReachableInv(hostSize, clientSize, s);
  }

  /** If the windows fit into a packet, the newest packet of a peer brings its partner on
      whenever it has sent the frame the partner lacks. */
  lemma NewestBringsOn(p: Peer, q: Peer, sent: set<Packet>)
    requires InWindow(p) && InWindow(q) && Connected(p, q, sent) && Agrees(p.log.theirs, q.log.mine)
    requires p.size + q.size <= UDP_FRAME_PACKETS
    requires q.Polling() && 0 < q.Frame() && |q.log.theirs| < |p.log.mine| && |q.log.theirs| <= q.Frame()
    ensures NewestPacket(p.log.mine) in sent
    ensures |DeliverStep(q, NewestPacket(p.log.mine)).log.theirs| > |q.log.theirs|
  {
    var packet, awaited := NewestPacket(p.log.mine), |q.log.theirs|;
    var at := awaited - (|p.log.mine| - UDP_FRAME_PACKETS);
    assert packet[at].frame == awaited;
    AwaitedIsTaken(q.log.theirs, q.Frame(), packet, 0, at);
  }

  /** Two blocked peers cannot both stay stuck: delivering the newest packet of the one
      whose frame the other awaits unblocks that other peer. */
  lemma NotBothStuck(hostSize: nat, clientSize: nat, s: System)
    requires 1 <= hostSize <= 17 && 1 <= clientSize <= 17 && Reachable(hostSize, clientSize, s)
    requires hostSize + clientSize <= UDP_FRAME_PACKETS
    requires s.host.Blocked() && s.client.Blocked()
    ensures
      || (NewestPacket(s.client.log.mine) in s.fromClient && !DeliverStep(s.host, NewestPacket(s.client.log.mine)).Blocked())
      || (NewestPacket(s.host.log.mine) in s.fromHost && !DeliverStep(s.client, NewestPacket(s.host.log.mine)).Blocked())
  {
    ReachableInv(hostSize, clientSize, s);
    if |s.host.log.theirs| < |s.client.log.mine| {
      NewestBringsOn(s.client, s.host, s.fromClient);
    } else {
      NewestBringsOn(s.host, s.client, s.fromHost);
    }
  }

  // ---------------------------------------------------------------- one peer's poll

  /** A peer after the packets of one poll, in order. */
  function DeliverAll(p: Peer, packets: seq<Packet>, i: nat): Peer
    requires p.Polling() && i <= |packets|
    decreases |packets| - i
  {
    if i == |packets| then p else DeliverAll(DeliverStep(p, packets[i]), packets, i + 1)
  }

  lemma {:induction false} FullStaysFull(p: Peer, packets: seq<Packet>, i: nat)
    requires p.Polling() && i <= |packets| && |p.log.theirs| > p.Frame()
    ensures DeliverAll(p, packets, i) == p
    decreases |packets| - i
  {
    if i < |packets| {
      assert DeliverStep(p, packets[i]).log.theirs == p.log.theirs;
      FullStaysFull(p, packets, i + 1);
    }
  }

  lemma {:induction false} DeliverAllAccepts(p: Peer, packets: seq<Packet>, i: nat)
    requires p.Polling() && i <= |packets|
    ensures DeliverAll(p, packets, i) == p.(log := p.log.(theirs := AcceptAll(p.log.theirs, p.Frame(), packets, i)))
    decreases |packets| - i
  {
    if |p.log.theirs| > p.Frame() {
      FullStaysFull(p, packets, i);
    } else if i < |packets| {
      DeliverAllAccepts(DeliverStep(p, packets[i]), packets, i + 1);
    }
  }

  /** What class Netplay does to its log in a frame is this sequence of steps. */
  lemma PollIsSteps(p: Peer, raw: nat, command: Command, packets: seq<Packet>)
    requires !p.Polling() && |p.log.mine| == |p.log.guess|
    requires if p.Frame() == 0 then p.log.theirs == [] && packets == [] && command == NoCommand else p.log.theirs != []
    requires command.FlipPlayers? ==> LastFlip(p.log.flips) <= command.frame
    ensures var sending := SendStep(p, raw);
      var flipped := if command.FlipPlayers? then FlipStep(sending, command.frame) else sending;
      flipped.Polling() && DeliverAll(flipped, packets, 0).Polling()
      && var received := DeliverAll(flipped, packets, 0);
      && (0 < received.Frame() ==> received.log.theirs != [])
      && FinishStep(received).log == Polled(p.log, raw, command, packets)
  {
    var sending := SendStep(p, raw);
    var flipped := if command.FlipPlayers? then FlipStep(sending, command.frame) else sending;
    DeliverAllAccepts(flipped, packets, 0);
  }
}
