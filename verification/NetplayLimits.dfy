/** How much lag netplay bears: runs in which nobody presses a button show that the
    bounds on the ring sizes are exact. */
module NetplayLimits {
  import opened NetplayLog
  import opened NetplayRing
  import opened Netplay
  import opened NetplaySystem
  import opened NetplayTheorems

  /** What one peer has sent, received, run and confirmed, in frames. */
  datatype Count = Count(sent: nat, received: nat, ran: nat, other: nat)

  /** A system in which every input was zero. */
  datatype Quiet = Quiet(hostSize: nat, clientSize: nat, host: Count, client: Count, flips: seq<nat>) {
    function Of(byHost: bool): Count {
      if byHost then host else client
    }

    function With(byHost: bool, c: Count): Quiet {
      if byHost then this.(host := c) else this.(client := c)
    }

    function Size(byHost: bool): nat {
      if byHost then hostSize else clientSize
    }
  }

  /** What one side does leaves the other alone. */
  lemma WithTwice(q: Quiet, byHost: bool, c: Count, d: Count)
    ensures q.With(byHost, c).With(byHost, d) == q.With(byHost, d) && q.With(byHost, q.Of(byHost)) == q
    ensures q.With(byHost, c).Of(byHost) == c && q.With(byHost, c).Of(!byHost) == q.Of(!byHost)
    ensures q.With(byHost, c).Size(byHost) == q.Size(byHost)
  {
  }

  function Zeros(n: nat): seq<nat> {
    seq(n, _ => 0)
  }

  function ZeroInputs(n: nat): seq<Input> {
    seq(n, _ => 0)
  }

  function QuietPeer(port: bool, size: nat, c: Count, flips: seq<nat>): Peer {
    Peer(Log(port, Zeros(c.sent), ZeroInputs(c.received), ZeroInputs(c.ran), flips), size, c.other)
  }

  function Packets(n: nat): set<Packet> {
    set i | 1 <= i <= n :: NewestPacket(Zeros(i))
  }

  function Silent(q: Quiet): System {
    System(QuietPeer(true, q.hostSize, q.host, q.flips), QuietPeer(false, q.clientSize, q.client, q.flips),
      Packets(q.host.sent), Packets(q.client.sent))
  }

  ghost predicate Reaches(q: Quiet) {
    Reachable(q.hostSize, q.clientSize, Silent(q))
  }

  lemma ReachStep(hostSize: nat, clientSize: nat, s: System, a: Action)
    requires Reachable(hostSize, clientSize, s) && Enabled(s, a)
    ensures Reachable(hostSize, clientSize, Step(s, a))
  {
    var run :| Leads(Init(hostSize, clientSize), run, s);
    var longer := run + [a];
    assert longer[..|longer| - 1] == run;
    assert Leads(Init(hostSize, clientSize), longer, Step(s, a));
  }

  lemma Start(hostSize: nat, clientSize: nat)
    ensures Reaches(Quiet(hostSize, clientSize, Count(0, 0, 0, 0), Count(0, 0, 0, 0), []))
  {
    var s := Silent(Quiet(hostSize, clientSize, Count(0, 0, 0, 0), Count(0, 0, 0, 0), []));
    assert Packets(0) == {};
    assert s == Init(hostSize, clientSize);
    assert Leads(Init(hostSize, clientSize), [], s);
  }

  lemma MorePackets(n: nat)
    ensures Packets(n + 1) == Packets(n) + {NewestPacket(Zeros(n + 1))}
  {
  }

  lemma QuietSend(q: Quiet, byHost: bool)
    requires Reaches(q) && q.Of(byHost).sent == q.Of(byHost).ran
    ensures Reaches(q.With(byHost, q.Of(byHost).(sent := q.Of(byHost).sent + 1)))
  {
    var s, c := Silent(q), q.Of(byHost);
    ReachStep(q.hostSize, q.clientSize, s, Send(byHost, 0));
    MorePackets(c.sent);
    assert Zeros(c.sent) + [0] == Zeros(c.sent + 1);
    assert Step(s, Send(byHost, 0)) == Silent(q.With(byHost, c.(sent := c.sent + 1)));
  }

  lemma {:induction false} AcceptLast(received: nat, limit: nat, i: nat)
    requires 0 < received <= limit && i < UDP_FRAME_PACKETS
    ensures Accept(ZeroInputs(received), limit, NewestPacket(Zeros(received + 1)), i) == ZeroInputs(received + 1)
    decreases UDP_FRAME_PACKETS - i
  {
    if i + 1 < UDP_FRAME_PACKETS {
      AcceptLast(received, limit, i + 1);
    } else {
      assert ZeroInputs(received) + [0] == ZeroInputs(received + 1);
    }
  }

  /** Delivering the packet in which the awaited frame is the newest. */
  lemma QuietDeliver(q: Quiet, toHost: bool)
    requires Reaches(q) && q.Of(toHost).sent == q.Of(toHost).ran + 1
    requires 0 < q.Of(toHost).received <= q.Of(toHost).ran && q.Of(toHost).received < q.Of(!toHost).sent
    ensures Reaches(q.With(toHost, q.Of(toHost).(received := q.Of(toHost).received + 1)))
  {
    var s, c := Silent(q), q.Of(toHost);
    var packet := NewestPacket(Zeros(c.received + 1));
    AcceptLast(c.received, c.ran, 0);
    ReachStep(q.hostSize, q.clientSize, s, Deliver(toHost, packet));
    assert Step(s, Deliver(toHost, packet)) == Silent(q.With(toHost, c.(received := c.received + 1)));
  }

  lemma QuietFinish(q: Quiet, byHost: bool)
    requires Reaches(q) && q.Of(byHost).sent == q.Of(byHost).ran + 1
    requires 0 < q.Of(byHost).ran ==> 0 < q.Of(byHost).received
    requires 0 < q.Of(byHost).ran && q.Of(byHost).received == q.Of(byHost).other ==>
      q.Of(byHost).sent != q.Of(byHost).other + q.Size(byHost)
    ensures var c := q.Of(byHost);
      var received := if c.ran == 0 then 1 else c.received;
      Reaches(q.With(byHost, Count(c.sent, received, c.ran + 1, received)))
  {
    var s, c := Silent(q), q.Of(byHost);
    var received := if c.ran == 0 then 1 else c.received;
    ReachStep(q.hostSize, q.clientSize, s, Finish(byHost));
    assert ZeroInputs(c.ran) + [0] == ZeroInputs(c.ran + 1) && ZeroInputs(1) == [0];
    assert Step(s, Finish(byHost)) == Silent(q.With(byHost, Count(c.sent, received, c.ran + 1, received)));
  }

  /** One frame with nothing received. */
  lemma OneAlone(q: Quiet, byHost: bool, c: Count)
    requires Reaches(q) && c == q.Of(byHost)
    requires 0 < c.ran == c.sent && 0 < c.received == c.other && c.ran + 1 < c.other + q.Size(byHost)
    ensures Reaches(q.With(byHost, c.(sent := c.sent + 1, ran := c.ran + 1)))
  {
    QuietSend(q, byHost);
    var r := q.With(byHost, c.(sent := c.sent + 1));
    QuietFinish(r, byHost);
    assert r.With(byHost, Count(c.sent + 1, c.received, c.ran + 1, c.received))
        == q.With(byHost, c.(sent := c.sent + 1, ran := c.ran + 1));
  }

  /** `n` frames with nothing received, up to a full window. */
  lemma {:induction false} RunAlone(q: Quiet, byHost: bool, c: Count, n: nat)
    requires Reaches(q) && c == q.Of(byHost)
    requires 0 < c.ran == c.sent && 0 < c.received == c.other && c.ran + n < c.other + q.Size(byHost)
    ensures Reaches(q.With(byHost, c.(sent := c.sent + n, ran := c.ran + n)))
    decreases n
  {
    if n == 0 {
      assert q.With(byHost, c) == q;
    } else {
      OneAlone(q, byHost, c);
      var d := c.(sent := c.sent + 1, ran := c.ran + 1);
      RunAlone(q.With(byHost, d), byHost, d, n - 1);
      var e := d.(sent := d.sent + n - 1, ran := d.ran + n - 1);
      assert q.With(byHost, d).With(byHost, e) == q.With(byHost, e);
      assert e == c.(sent := c.sent + n, ran := c.ran + n);
    }
  }

  /** A peer sends, and gets the frame its partner has sent already. */
  lemma SendAndTake(q: Quiet, byHost: bool, k: nat)
    requires Reaches(q) && q.Of(byHost) == Count(k, k, k, k) && 0 < k < q.Of(!byHost).sent
    ensures Reaches(q.With(byHost, Count(k + 1, k + 1, k, k)))
  {
    var c, d := Count(k + 1, k, k, k), Count(k + 1, k + 1, k, k);
    WithTwice(q, byHost, c, d);
    QuietSend(q, byHost);
    QuietDeliver(q.With(byHost, c), byHost);
  }

  /** One frame for which the partner's input has been sent already. */
  lemma RunWithInput(q: Quiet, byHost: bool, k: nat)
    requires Reaches(q) && q.Of(byHost) == Count(k, k, k, k) && 0 < k < q.Of(!byHost).sent
    ensures Reaches(q.With(byHost, Count(k + 1, k + 1, k + 1, k + 1)))
  {
    var c, d := Count(k + 1, k + 1, k, k), Count(k + 1, k + 1, k + 1, k + 1);
    WithTwice(q, byHost, c, d);
    SendAndTake(q, byHost, k);
    QuietFinish(q.With(byHost, c), byHost);
  }

  /** Catching up by `n` frames with what the partner has sent. */
  lemma {:induction false} CatchUp(q: Quiet, byHost: bool, k: nat, n: nat)
    requires Reaches(q) && q.Of(byHost) == Count(k, k, k, k) && 0 < k && k + n <= q.Of(!byHost).sent
    ensures Reaches(q.With(byHost, Count(k + n, k + n, k + n, k + n)))
    decreases n
  {
    var c, d := Count(k + 1, k + 1, k + 1, k + 1), Count(k + n, k + n, k + n, k + n);
    WithTwice(q, byHost, c, d);
    if n > 0 {
      RunWithInput(q, byHost, k);
      CatchUp(q.With(byHost, c), byHost, k + 1, n - 1);
    }
  }

  /** The client runs ahead until its window is full, and polls. */
  lemma ClientAhead(hostSize: nat, clientSize: nat, m: nat, flips: seq<nat>)
    requires 0 < m && 1 <= hostSize && 1 <= clientSize
    requires Reaches(Quiet(hostSize, clientSize, Count(m, m, m, m), Count(m, m, m, m), flips))
    ensures Reaches(Quiet(hostSize, clientSize, Count(m, m, m, m), Count(m + clientSize, m, m + clientSize - 1, m), flips))
  {
    var q := Quiet(hostSize, clientSize, Count(m, m, m, m), Count(m, m, m, m), flips);
    RunAlone(q, false, Count(m, m, m, m), clientSize - 1);
    QuietSend(q.(client := Count(m + clientSize - 1, m, m + clientSize - 1, m)), false);
  }

  /** The host takes all of that and catches up. */
  lemma HostCatchesUp(hostSize: nat, clientSize: nat, m: nat, flips: seq<nat>, sent: nat)
    requires 0 < m && 1 <= hostSize && 1 <= clientSize && sent == m + clientSize
    requires Reaches(Quiet(hostSize, clientSize, Count(m, m, m, m), Count(m, m, m, m), flips))
    ensures Reaches(Quiet(hostSize, clientSize, Count(sent, sent, sent, sent), Count(sent, m, sent - 1, m), flips))
  {
    ClientAhead(hostSize, clientSize, m, flips);
    var blocked := Quiet(hostSize, clientSize, Count(m, m, m, m), Count(sent, m, sent - 1, m), flips);
    CatchUp(blocked, true, m, clientSize);
  }

  /** From a common frame `m`, the client runs ahead until its window is full; the host
      receives all of that and runs ahead in turn, but for its last frame. */
  lemma RunApart(hostSize: nat, clientSize: nat, m: nat, flips: seq<nat>)
    requires 0 < m && 1 <= hostSize && 1 <= clientSize
    requires Reaches(Quiet(hostSize, clientSize, Count(m, m, m, m), Count(m, m, m, m), flips))
    ensures var sent := m + clientSize;
      Reaches(Quiet(hostSize, clientSize,
        Count(sent + hostSize - 1, sent, sent + hostSize - 1, sent), Count(sent, m, sent - 1, m), flips))
  {
    var sent := m + clientSize;
    HostCatchesUp(hostSize, clientSize, m, flips, sent);
    var c := Count(sent, sent, sent, sent);
    RunAlone(Quiet(hostSize, clientSize, c, Count(sent, m, sent - 1, m), flips), true, c, hostSize - 1);
  }

  /** Both peers run `n` more frames in step. */
  lemma {:induction false} RunTogether(hostSize: nat, clientSize: nat, m: nat, n: nat, flips: seq<nat>)
    requires 0 < m && 1 <= hostSize && 1 <= clientSize
    requires Reaches(Quiet(hostSize, clientSize, Count(m, m, m, m), Count(m, m, m, m), flips))
    ensures Reaches(Quiet(hostSize, clientSize, Count(m + n, m + n, m + n, m + n), Count(m + n, m + n, m + n, m + n), flips))
    decreases n
  {
    if n > 0 {
      var k := m + n - 1;
      RunTogether(hostSize, clientSize, m, n - 1, flips);
      var q := Quiet(hostSize, clientSize, Count(k, k, k, k), Count(k, k, k, k), flips);
      QuietSend(q, false);
      var sent := q.(client := Count(k + 1, k, k, k));
      RunWithInput(sent, true, k);
      var half := sent.(host := Count(k + 1, k + 1, k + 1, k + 1));
      QuietDeliver(half, false);
      QuietFinish(half.(client := Count(k + 1, k + 1, k, k)), false);
    }
  }

  lemma FirstFrame(hostSize: nat, clientSize: nat)
    ensures Reaches(Quiet(hostSize, clientSize, Count(1, 1, 1, 1), Count(1, 1, 1, 1), []))
  {
    Start(hostSize, clientSize);
    var q := Quiet(hostSize, clientSize, Count(0, 0, 0, 0), Count(0, 0, 0, 0), []);
    QuietSend(q, true);
    QuietFinish(q.(host := Count(1, 0, 0, 0)), true);
    QuietSend(q.(host := Count(1, 1, 1, 1)), false);
    QuietFinish(q.(host := Count(1, 1, 1, 1), client := Count(1, 0, 0, 0)), false);
  }

  // ---------------------------------------------------------------- packets

  /** Whatever a peer still lacks and its partner has sent is in the partner's newest packet. */
  ghost predicate Covers(p: Peer, q: Peer) {
    0 < |q.log.theirs| < |p.log.mine| ==>
      exists i :: 0 <= i < UDP_FRAME_PACKETS && NewestPacket(p.log.mine)[i].frame == |q.log.theirs|
  }

  ghost predicate NewestCovers(s: System) {
    Covers(s.host, s.client) && Covers(s.client, s.host)
  }

  lemma CloseIsCovered(p: Peer, q: Peer)
    requires |p.log.mine| <= |q.log.theirs| + UDP_FRAME_PACKETS
    ensures Covers(p, q)
  {
    if 0 < |q.log.theirs| < |p.log.mine| {
      var i := |q.log.theirs| - (|p.log.mine| - UDP_FRAME_PACKETS);
      assert NewestPacket(p.log.mine)[i].frame == |q.log.theirs|;
    }
  }

  /** With larger windows a run leaves a frame out of reach of either peer's packets. */
  lemma CoverageFails(hostSize: nat, clientSize: nat) returns (s: System)
    requires 1 <= hostSize <= 17 && 1 <= clientSize <= 17 && hostSize + clientSize > UDP_FRAME_PACKETS
    ensures Reachable(hostSize, clientSize, s) && !NewestCovers(s)
  {
    FirstFrame(hostSize, clientSize);
    RunApart(hostSize, clientSize, 1, []);
    var sent := 1 + clientSize;
    var q := Quiet(hostSize, clientSize,
      Count(sent + hostSize - 1, sent, sent + hostSize - 1, sent), Count(sent, 1, sent - 1, 1), []);
    QuietSend(q, true);
    s := Silent(q.(host := Count(sent + hostSize, sent, sent + hostSize - 1, sent)));
    forall i | 0 <= i < UDP_FRAME_PACKETS ensures NewestPacket(s.host.log.mine)[i].frame != 1 {
    }
  }

  /** Sixteen frames per packet are enough in every run exactly if the two windows
      together do not exceed them. */
  lemma CoverageIsExact(hostSize: nat, clientSize: nat)
    requires 1 <= hostSize <= 17 && 1 <= clientSize <= 17
    ensures hostSize + clientSize <= UDP_FRAME_PACKETS <==>
      forall s | Reachable(hostSize, clientSize, s) :: NewestCovers(s)
  {
    if hostSize + clientSize <= UDP_FRAME_PACKETS {
      forall s | Reachable(hostSize, clientSize, s) ensures NewestCovers(s) {
        Skew(hostSize, clientSize, s);
        CloseIsCovered(s.host, s.client);
        CloseIsCovered(s.client, s.host);
      }
    } else {
      var s := CoverageFails(hostSize, clientSize);
    }
  }

  // ---------------------------------------------------------------- flips

  lemma QuietFlip(q: Quiet)
    requires Reaches(q) && Enabled(Silent(q), Flip)
    ensures Reaches(q.(flips := q.flips + [FlipAt(Silent(q))]))
  {
    ReachStep(q.hostSize, q.clientSize, Silent(q), Flip);
    assert Step(Silent(q), Flip) == Silent(q.(flips := q.flips + [FlipAt(Silent(q))]));
  }

  /** The host flips in the earliest frame it may, while the client polls. */
  lemma FirstFlip()
    ensures Reaches(Quiet(17, 17, Count(32, 32, 32, 32), Count(33, 32, 32, 32), [64]))
  {
    FirstFrame(17, 17);
    RunTogether(17, 17, 1, 31, []);
    QuietSend(Quiet(17, 17, Count(32, 32, 32, 32), Count(32, 32, 32, 32), []), false);
    var polling := Quiet(17, 17, Count(32, 32, 32, 32), Count(33, 32, 32, 32), []);
    assert FlipAt(Silent(polling)) == 64 && [] + [64] == [64];
    QuietFlip(polling);
  }

  lemma AfterFirstFlip()
    ensures Reaches(Quiet(17, 17, Count(96, 80, 96, 80), Count(80, 63, 79, 63), [64]))
  {
    FirstFlip();
    RunWithInput(Quiet(17, 17, Count(32, 32, 32, 32), Count(33, 32, 32, 32), [64]), true, 32);
    QuietDeliver(Quiet(17, 17, Count(33, 33, 33, 33), Count(33, 32, 32, 32), [64]), false);
    QuietFinish(Quiet(17, 17, Count(33, 33, 33, 33), Count(33, 33, 32, 32), [64]), false);
    RunTogether(17, 17, 33, 30, [64]);
    RunApart(17, 17, 63, [64]);
  }

  /** With both rings at their largest, a client that waits with a full window may be
      asked to flip while its window still holds the frame before the last flip. Its two
      fields then forget that flip, and give the wrong side for a frame it may yet replay. */
  lemma LateFlip() returns (s: System)
    ensures Reachable(17, 17, s) && Enabled(s, Flip) && !FlipOrderly(s)
    ensures Reachable(17, 17, Step(s, Flip)) && !SidesKnown(Step(s, Flip))
  {
    AfterFirstFlip();
    var late := Quiet(17, 17, Count(96, 80, 96, 80), Count(80, 63, 79, 63), [64]);
    s := Silent(late);
    ReachStep(17, 17, s, Flip);
    var t := Step(s, Flip);
    assert t.client.log.flips == [64, 128] && t.client.other == 63;
    WrongSide();
    assert !SideKnown(t.client, true, 63);
  }

  /** The frame before the first flip, read with the fields of the second. */
  lemma WrongSide()
    ensures FlipPort(false, 128, true, 63) != (true != Swapped([64, 128], 63))
  {
    assert [64, 128][..1] == [64] && [64][..0] == [];
    assert !Swapped([64], 63) && !Swapped([64, 128], 63);
  }

  /** The host's 32-frame guard keeps flips orderly in every run exactly if the two rings
      together hold at most 33 frames. */
  lemma FlipGuardIsExact(hostSize: nat, clientSize: nat)
    requires 1 <= hostSize <= 17 && 1 <= clientSize <= 17
    ensures hostSize + clientSize <= 2 * UDP_FRAME_PACKETS + 1 <==>
      forall s | Reachable(hostSize, clientSize, s) :: FlipOrderly(s)
  {
    if hostSize + clientSize <= 2 * UDP_FRAME_PACKETS + 1 {
      forall s | Reachable(hostSize, clientSize, s) ensures FlipOrderly(s) {
        ReachableInv(hostSize, clientSize, s);
        if Enabled(s, Flip) {
          FlipIsOrderly(s);
        }
      }
    } else {
      var s := LateFlip();
    }
  }

  /** And exactly then do the two fields give every frame of every window its right side. */
  lemma SidesKnownIsExact(hostSize: nat, clientSize: nat)
    requires 1 <= hostSize <= 17 && 1 <= clientSize <= 17
    ensures hostSize + clientSize <= 2 * UDP_FRAME_PACKETS + 1 <==>
      forall s | Reachable(hostSize, clientSize, s) :: SidesKnown(s)
  {
    if hostSize + clientSize <= 2 * UDP_FRAME_PACKETS + 1 {
      forall s | Reachable(hostSize, clientSize, s) ensures SidesKnown(s) {
        SmallRingsReachInOrder(hostSize, clientSize, s);
        InOrderInv(hostSize, clientSize, s);
        PassedIsKnown(s);
      }
    } else {
      var s := LateFlip();
      assert !SidesKnown(Step(s, Flip));
    }
  }
}
