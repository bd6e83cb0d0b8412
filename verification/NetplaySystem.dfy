/** Two netplay peers and a network that may lose, duplicate and reorder packets. */
module NetplaySystem {
  import opened NetplayLog
  import opened NetplayRing
  import opened Netplay

  /** A peer: its log, its ring size, and how many frames it has confirmed. Between frames
      every frame it has sent has run; while it polls, one more has been sent. */
  datatype Peer = Peer(log: Log, size: nat, other: nat) {
    predicate Polling() {
      |log.mine| == |log.guess| + 1
    }

    /** Number of the frame that is being polled for, or that comes next. */
    function Frame(): nat {
      |log.guess|
    }

    /** The window is full and nothing has arrived since the frame began. */
    predicate Blocked() {
      Polling() && 0 < Frame() && Frame() + 1 == other + size && |log.theirs| == other
    }
  }

  /** The packets each side has sent so far; any of them may be delivered at any time, any
      number of times, or never. */
  datatype System = System(host: Peer, client: Peer, fromHost: set<Packet>, fromClient: set<Packet>)

  datatype Action =
    | Send(byHost: bool, raw: nat)
    | Deliver(toHost: bool, packet: Packet)
    | Finish(byHost: bool)
    | Flip

  function Init(hostSize: nat, clientSize: nat): System {
    System(Peer(Log(true, [], [], [], []), hostSize, 0), Peer(Log(false, [], [], [], []), clientSize, 0), {}, {})
  }

  // ---------------------------------------------------------------- what each side does

  function SendStep(p: Peer, raw: nat): Peer {
    p.(log := p.log.(mine := p.log.mine + [SentWord(|p.log.mine|, raw)]))
  }

  function DeliverStep(p: Peer, packet: Packet): Peer
    requires p.Polling()
  {
    p.(log := p.log.(theirs := Accept(p.log.theirs, p.Frame(), packet, 0)))
  }

  /** The end of the poll, the frame itself, and netplay_post_frame_net. */
  function FinishStep(p: Peer): Peer
    requires p.Polling() && (0 < p.Frame() ==> p.log.theirs != [])
  {
    var theirs := if p.Frame() == 0 then [0] else p.log.theirs;
    var l := p.log.(theirs := theirs);
    Peer(l.(guess := l.guess + [Prediction(l, p.Frame())]), p.size, |theirs|)
  }

  function FlipStep(p: Peer, at: nat): Peer {
    p.(log := p.log.(flips := p.log.flips + [at]))
  }

  /** The frame netplay_flip_users asks for. */
  function FlipAt(s: System): nat {
    s.host.Frame() + 2 * UDP_FRAME_PACKETS
  }

  predicate Enabled(s: System, a: Action) {
    match a
    case Send(byHost, raw) => !(if byHost then s.host else s.client).Polling()
    case Deliver(toHost, packet) =>
      && (if toHost then s.host else s.client).Polling() && 0 < (if toHost then s.host else s.client).Frame()
      && packet in (if toHost then s.fromClient else s.fromHost)
    case Finish(byHost) =>
      var p := if byHost then s.host else s.client;
      p.Polling() && !p.Blocked() && (0 < p.Frame() ==> p.log.theirs != [])
    case Flip =>
      && !s.host.Polling() && s.client.Polling() && 0 < s.client.Frame()
      && s.host.Frame() >= LastFlip(s.host.log.flips) + 2 * UDP_FRAME_PACKETS
  }

  function Step(s: System, a: Action): System
    requires Enabled(s, a)
  {
    match a
    case Send(byHost, raw) =>
      if byHost then
        var p := SendStep(s.host, raw);
        s.(host := p, fromHost := s.fromHost + {NewestPacket(p.log.mine)})
      else
        var p := SendStep(s.client, raw);
        s.(client := p, fromClient := s.fromClient + {NewestPacket(p.log.mine)})
    case Deliver(toHost, packet) =>
      if toHost then s.(host := DeliverStep(s.host, packet)) else s.(client := DeliverStep(s.client, packet))
    case Finish(byHost) =>
      if byHost then s.(host := FinishStep(s.host)) else s.(client := FinishStep(s.client))
    case Flip =>
      s.(host := FlipStep(s.host, FlipAt(s)), client := FlipStep(s.client, FlipAt(s)))
  }

  /** The system a run of actions leads to, if every action is enabled in turn. */
  ghost predicate Leads(s: System, run: seq<Action>, t: System)
    decreases |run|
  {
    if run == [] then s == t
    else
      var n := |run| - 1;
      exists u :: Leads(s, run[..n], u) && Enabled(u, run[n]) && t == Step(u, run[n])
  }

  ghost predicate Reachable(hostSize: nat, clientSize: nat, s: System) {
    exists run :: Leads(Init(hostSize, clientSize), run, s)
  }

  // ---------------------------------------------------------------- the invariant

  /** What has arrived is a prefix of what was sent; the first frame is known beforehand. */
  ghost predicate Agrees(theirs: seq<Input>, sent: seq<nat>) {
    && (|theirs| <= |sent| || theirs == [0])
    && (sent != [] ==> sent[0] == 0)
    && forall f :: 0 <= f < |theirs| && f < |sent| ==> theirs[f] == Low16(sent[f])
  }

  /** The counters of one peer. */
  ghost predicate InWindow(p: Peer) {
    && 1 <= p.size <= MAX_LAG_FRAMES + 1
    && |p.log.guess| <= |p.log.mine| <= |p.log.guess| + 1
    && p.other <= |p.log.theirs| <= |p.log.mine| && p.other <= |p.log.guess|
    && (!p.Polling() ==> p.other == |p.log.theirs|)
    && |p.log.guess| + 1 <= p.other + p.size
    && (0 < |p.log.guess| ==> p.log.theirs != [])
  }

  /** What `p` sent is what the network carries for it, and what `q` knows of it. */
  ghost predicate Connected(p: Peer, q: Peer, sent: set<Packet>) {
    && Agrees(q.log.theirs, p.log.mine)
    && (forall packet :: packet in sent ==> Genuine(packet, p.log.mine))
    && (p.log.mine != [] ==> NewestPacket(p.log.mine) in sent)
  }

  ghost predicate Inv(s: System) {
    && s.host.log.port && !s.client.log.port && s.host.log.flips == s.client.log.flips
    && InWindow(s.host) && InWindow(s.client)
    && Connected(s.host, s.client, s.fromHost) && Connected(s.client, s.host, s.fromClient)
  }

  lemma NewestGenuine(mine: seq<nat>)
    ensures Genuine(NewestPacket(mine), mine)
  {
    var packet := NewestPacket(mine);
    forall i | 0 <= i < |packet| ensures GenuineEntry(packet[i], mine) {
    }
  }

  lemma SendKeeps(p: Peer, q: Peer, sent: set<Packet>, raw: nat)
    requires InWindow(p) && !p.Polling() && Connected(p, q, sent)
    ensures var r := SendStep(p, raw);
      InWindow(r) && Connected(r, q, sent + {NewestPacket(r.log.mine)})
  {
    var r := SendStep(p, raw);
    NewestGenuine(r.log.mine);
    forall packet | packet in sent + {NewestPacket(r.log.mine)} ensures Genuine(packet, r.log.mine) {
      if packet in sent {
        assert Genuine(packet, p.log.mine);
        forall i | 0 <= i < |packet| ensures GenuineEntry(packet[i], r.log.mine) {
          assert GenuineEntry(packet[i], p.log.mine);
        }
      }
    }
  }

  /** parse_packet takes nothing but what was sent, whatever packet arrives when. */
  lemma {:induction false} AcceptAgrees(theirs: seq<Input>, limit: nat, packet: Packet, i: nat, sent: seq<nat>)
    requires Agrees(theirs, sent) && Genuine(packet, sent) && i <= |packet| && theirs != []
    ensures Agrees(Accept(theirs, limit, packet, i), sent) && Accept(theirs, limit, packet, i) != []
    decreases |packet| - i
  {
    if i < |packet| && |theirs| <= limit {
      assert GenuineEntry(packet[i], sent);
      if packet[i].frame == |theirs| {
        AcceptAgrees(theirs + [Low16(packet[i].state)], limit, packet, i + 1, sent);
      } else {
        AcceptAgrees(theirs, limit, packet, i + 1, sent);
      }
    }
  }

  lemma DeliverKeeps(p: Peer, q: Peer, packet: Packet, toP: set<Packet>)
    requires InWindow(q) && q.Polling() && 0 < q.Frame() && Connected(p, q, toP) && packet in toP
    ensures InWindow(DeliverStep(q, packet)) && Connected(p, DeliverStep(q, packet), toP)
  {
    AcceptAgrees(q.log.theirs, q.Frame(), packet, 0, p.log.mine);
  }

  lemma FinishKeeps(p: Peer, q: Peer, toP: set<Packet>)
    requires InWindow(q) && q.Polling() && !q.Blocked() && Connected(p, q, toP)
    ensures InWindow(FinishStep(q)) && Connected(p, FinishStep(q), toP)
  {
  }

  lemma StepKeeps(s: System, a: Action)
    requires Inv(s) && Enabled(s, a)
    ensures Inv(Step(s, a))
  {
    match a
    case Send(byHost, raw) =>
      if byHost { SendKeeps(s.host, s.client, s.fromHost, raw); } else { SendKeeps(s.client, s.host, s.fromClient, raw); }
    case Deliver(toHost, packet) =>
      if toHost { DeliverKeeps(s.client, s.host, packet, s.fromClient); }
      else { DeliverKeeps(s.host, s.client, packet, s.fromHost); }
    case Finish(byHost) =>
      if byHost { FinishKeeps(s.client, s.host, s.fromClient); } else { FinishKeeps(s.host, s.client, s.fromHost); }
    case Flip =>
  }

  lemma {:induction false} RunKeeps(s: System, run: seq<Action>, t: System)
    requires Inv(s) && Leads(s, run, t)
    ensures Inv(t) && t.host.size == s.host.size && t.client.size == s.client.size
    decreases |run|
  {
    if run != [] {
      var n := |run| - 1;
      var u :| Leads(s, run[..n], u) && Enabled(u, run[n]) && t == Step(u, run[n]);
      RunKeeps(s, run[..n], u);
      StepKeeps(u, run[n]);
    }
  }

  lemma ReachableInv(hostSize: nat, clientSize: nat, s: System)
    requires 1 <= hostSize <= 17 && 1 <= clientSize <= 17 && Reachable(hostSize, clientSize, s)
    ensures Inv(s) && s.host.size == hostSize && s.client.size == clientSize
  {
    var run :| Leads(Init(hostSize, clientSize), run, s);
    RunKeeps(Init(hostSize, clientSize), run, s);
  }

  // ---------------------------------------------------------------- flips in order

  /** If the host may flip now, both windows have passed the last flip, and the new one
      lies ahead of both peers. */
  ghost predicate FlipOrderly(s: System) {
    Enabled(s, Flip) ==>
      && LastFlip(s.host.log.flips) <= s.host.other && s.host.Frame() < FlipAt(s)
      && LastFlip(s.client.log.flips) <= s.client.other && s.client.Frame() < FlipAt(s)
  }

  /** A flip is orderly, whatever the rings, if the host has waited for as many frames since the
      last one as both rings hold, less one. */
  lemma WaitingIsOrderly(s: System)
    requires Inv(s) && Enabled(s, Flip)
    requires s.host.Frame() >= LastFlip(s.host.log.flips) + s.host.size + s.client.size - 1
    ensures FlipOrderly(s)
  {
  }

  /** The host's guard waits for 32 frames: enough for rings of 33 slots together. */
  lemma FlipIsOrderly(s: System)
    requires Inv(s) && Enabled(s, Flip) && s.host.size + s.client.size <= 2 * UDP_FRAME_PACKETS + 1
    ensures FlipOrderly(s)
  {
    WaitingIsOrderly(s);
  }

  /** The run that leads there has only orderly flips. */
  ghost predicate LeadsInOrder(s: System, run: seq<Action>, t: System)
    decreases |run|
  {
    if run == [] then s == t
    else
      var n := |run| - 1;
      exists u :: LeadsInOrder(s, run[..n], u) && InOrder(u, run[n]) && t == Step(u, run[n])
  }

  ghost predicate InOrder(s: System, a: Action) {
    Enabled(s, a) && (a.Flip? ==> FlipOrderly(s))
  }

  ghost predicate ReachableInOrder(hostSize: nat, clientSize: nat, s: System) {
    exists run :: LeadsInOrder(Init(hostSize, clientSize), run, s)
  }

  /** Both windows have passed every flip but the last. */
  ghost predicate FlipsPassed(s: System) {
    && FlipsOk(s.host.log.flips) && s.host.log.flips == s.client.log.flips
    && PreviousFlip(s.host.log.flips) <= s.host.other && PreviousFlip(s.client.log.flips) <= s.client.other
  }

  /** The flip and flip_frame fields of both peers give the right side of every frame in
      their windows, for either port. */
  ghost predicate SidesKnown(s: System) {
    forall port, f ::
      (f >= s.host.other ==> SideKnown(s.host, port, f)) && (f >= s.client.other ==> SideKnown(s.client, port, f))
  }

  ghost predicate SideKnown(p: Peer, port: bool, f: nat) {
    FlipPort(|p.log.flips| % 2 == 1, LastFlip(p.log.flips), port, f) == (port != Swapped(p.log.flips, f))
  }

  lemma PassedIsKnown(s: System)
    requires FlipsPassed(s)
    ensures SidesKnown(s)
  {
    forall port, f | f >= s.host.other ensures SideKnown(s.host, port, f) {
      FlipPortIs(s.host.log.flips, port, f);
    }
    forall port, f | f >= s.client.other ensures SideKnown(s.client, port, f) {
      FlipPortIs(s.client.log.flips, port, f);
    }
  }

  lemma StepKeepsFlips(s: System, a: Action)
    requires Inv(s) && FlipsPassed(s) && InOrder(s, a)
    ensures FlipsPassed(Step(s, a))
  {
    if a.Flip? {
      var later := FlipsGrow(s.host.log.flips, FlipAt(s));
    }
  }

  lemma {:induction false} RunKeepsFlips(s: System, run: seq<Action>, t: System)
    requires Inv(s) && FlipsPassed(s) && LeadsInOrder(s, run, t)
    ensures Inv(t) && FlipsPassed(t) && Leads(s, run, t)
    ensures t.host.size == s.host.size && t.client.size == s.client.size
    decreases |run|
  {
    if run != [] {
      var n := |run| - 1;
      var u :| LeadsInOrder(s, run[..n], u) && InOrder(u, run[n]) && t == Step(u, run[n]);
      RunKeepsFlips(s, run[..n], u);
      StepKeeps(u, run[n]);
      StepKeepsFlips(u, run[n]);
    }
  }

  lemma InOrderInv(hostSize: nat, clientSize: nat, s: System)
    requires 1 <= hostSize <= 17 && 1 <= clientSize <= 17 && ReachableInOrder(hostSize, clientSize, s)
    ensures Inv(s) && FlipsPassed(s) && s.host.size == hostSize && s.client.size == clientSize
    ensures Reachable(hostSize, clientSize, s)
  {
    var run :| LeadsInOrder(Init(hostSize, clientSize), run, s);
    RunKeepsFlips(Init(hostSize, clientSize), run, s);
  }

  lemma {:induction false} SmallRingsInOrder(hostSize: nat, clientSize: nat, run: seq<Action>, s: System)
    requires 1 <= hostSize <= 17 && 1 <= clientSize <= 17 && hostSize + clientSize <= 2 * UDP_FRAME_PACKETS + 1
    requires Leads(Init(hostSize, clientSize), run, s)
    ensures LeadsInOrder(Init(hostSize, clientSize), run, s)
    decreases |run|
  {
    if run != [] {
      var n := |run| - 1;
      var u :| Leads(Init(hostSize, clientSize), run[..n], u) && Enabled(u, run[n]) && s == Step(u, run[n]);
      SmallRingsInOrder(hostSize, clientSize, run[..n], u);
      RunKeeps(Init(hostSize, clientSize), run[..n], u);
      if run[n].Flip? {
        FlipIsOrderly(u);
      }
      assert InOrder(u, run[n]);
    }
  }

  /** With rings of at most 33 slots together, every run is in order. */
  lemma SmallRingsReachInOrder(hostSize: nat, clientSize: nat, s: System)
    requires 1 <= hostSize <= 17 && 1 <= clientSize <= 17 && hostSize + clientSize <= 2 * UDP_FRAME_PACKETS + 1
    requires Reachable(hostSize, clientSize, s)
    ensures ReachableInOrder(hostSize, clientSize, s)
  {
    var run :| Leads(Init(hostSize, clientSize), run, s);
    SmallRingsInOrder(hostSize, clientSize, run, s);
  }
}
