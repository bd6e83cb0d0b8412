/** From the buttons both users hold to the states both cores reach. */
module NetplayHeld {
  import opened Bits
  import opened NetplayLog
  import opened NetplayRing
  import opened Netplay
  import opened NetplaySystem
  import opened NetplayTheorems

  // ---------------------------------------------------------------- buttons

  /** The loop of get_self_input_state: one bit for each button that is held. */
  method ReadButtons(held: seq<bool>) returns (word: nat)
    ensures word < Pow2(|held|)
    ensures forall i: nat :: i < |held| ==> (word / Pow2(i) % 2 == 1 <==> held[i])
  {
    word := 0;
    for k := 0 to |held|
      invariant word < Pow2(k) && forall i :: 0 <= i < k ==> (Bit(word, i) <==> held[i])
    {
      ghost var before := word;
      word := word + (if held[k] then Pow2(k) else 0);
      forall i | 0 <= i < k + 1 ensures Bit(word, i) <==> held[i] {
        BitOfSum(before, k, held[k], i);
      }
      BitOfSum(before, k, held[k], k);
    }
    assert forall i: nat :: i < |held| ==> Bit(word, i) == (word / Pow2(i) % 2 == 1);
  }

  /** What netplay_input_state returns for a button: of the buttons that are sent, the first
      sixteen arrive, and nothing else is ever seen. */
  lemma ButtonsArrive(word: nat, i: nat)
    ensures word % 0x1_0000 / Pow2(i) % 2 == 1 <==> i < 16 && word / Pow2(i) % 2 == 1
  {
    Pow2Of16();
    BitOfCut(word, 16, i);
  }

  // ---------------------------------------------------------------- the words of a run

  /** The words one side's buttons gave, frame by frame, in a run. */
  function Held(run: seq<Action>, byHost: bool): seq<nat> {
    if run == [] then []
    else
      var n := |run| - 1;
      var before := Held(run[..n], byHost);
      if run[n].Send? && run[n].byHost == byHost then before + [run[n].raw] else before
  }

  /** Each side has sent its own words, but for a zero in the first frame. */
  ghost predicate Sends(mine: seq<nat>, held: seq<nat>) {
    |mine| == |held| && forall f :: 0 <= f < |mine| ==> mine[f] == if f == 0 then 0 else held[f]
  }

  lemma {:induction false} SentIsHeld(hostSize: nat, clientSize: nat, run: seq<Action>, s: System)
    requires Leads(Init(hostSize, clientSize), run, s)
    ensures Sends(s.host.log.mine, Held(run, true)) && Sends(s.client.log.mine, Held(run, false))
    decreases |run|
  {
    if run != [] {
      var n := |run| - 1;
      var u :| Leads(Init(hostSize, clientSize), run[..n], u) && Enabled(u, run[n]) && s == Step(u, run[n]);
      SentIsHeld(hostSize, clientSize, run[..n], u);
    }
  }

  /** The core after `k` frames of the words both users held, the host's at the first port until
      the users change sides. */
  function PlayedState<S>(core: Core<S>, host: seq<nat>, client: seq<nat>, flips: seq<nat>, k: nat): S
    requires k <= |host| && k <= |client|
  {
    if k == 0 then core.start
    else
      var f := k - 1;
      var h: Input := if f == 0 then 0 else host[f] % 0x1_0000;
      var c: Input := if f == 0 then 0 else client[f] % 0x1_0000;
      var flipped := |set i | 0 <= i < |flips| && flips[i] <= f|;
      var prior := PlayedState(core, host, client, flips, f);
      if flipped % 2 == 0 then core.step(prior, h, c) else core.step(prior, c, h)
  }

  lemma {:induction false} RealIsPlayed<S>(core: Core<S>, hostSent: seq<nat>, clientSent: seq<nat>, host: seq<nat>,
                                           client: seq<nat>, flips: seq<nat>, k: nat)
    requires Sends(hostSent, host) && Sends(clientSent, client) && k <= |host| && k <= |client|
    ensures RealState(core, hostSent, clientSent, flips, k) == PlayedState(core, host, client, flips, k)
  {
    if k > 0 {
      RealIsPlayed(core, hostSent, clientSent, host, client, flips, k - 1);
      SwappedIsOdd(flips, k - 1);
    }
  }

  /** In every run, what either side takes for the state of a frame that it has confirmed is what
      the buttons held on both sides lead to, whichever packets were lost, doubled or late and
      whatever was predicted on the way. */
  lemma ConfirmedIsPlayed<S>(core: Core<S>, hostSize: nat, clientSize: nat, run: seq<Action>, s: System, k: nat)
    requires 1 <= hostSize <= 17 && 1 <= clientSize <= 17 && Leads(Init(hostSize, clientSize), run, s)
    requires k <= |Held(run, true)| && k <= |Held(run, false)|
    ensures k <= s.host.other ==>
      && k <= |s.host.log.mine| && s.host.other <= |s.host.log.theirs|
      && StateAt(core, s.host.log, s.host.other, k)
           == PlayedState(core, Held(run, true), Held(run, false), s.host.log.flips, k)
    ensures k <= s.client.other ==>
      && k <= |s.client.log.mine| && s.client.other <= |s.client.log.theirs|
      && StateAt(core, s.client.log, s.client.other, k)
           == PlayedState(core, Held(run, true), Held(run, false), s.client.log.flips, k)
  {
    ReachableInv(hostSize, clientSize, s);
    SentIsHeld(hostSize, clientSize, run, s);
    RealIsPlayed(core, s.host.log.mine, s.client.log.mine, Held(run, true), Held(run, false), s.host.log.flips, k);
    if k <= s.host.other {
      ConfirmedIsReal(core, s.host, s.client, k);
    }
    if k <= s.client.other {
      ConfirmedIsReal(core, s.client, s.host, k);
    }
  }

  /** The same for the state that an object really holds for the first frame it has not confirmed. */
  lemma SavedIsPlayed<S>(n: Netplay<S>, byHost: bool, hostSize: nat, clientSize: nat, run: seq<Action>, s: System)
    requires 1 <= hostSize <= 17 && 1 <= clientSize <= 17 && Leads(Init(hostSize, clientSize), run, s)
    requires Plays(n, if byHost then s.host else s.client)
    requires n.otherFrameCount <= |Held(run, true)| && n.otherFrameCount <= |Held(run, false)|
    ensures ConfirmedState(n)
         == PlayedState(n.core, Held(run, true), Held(run, false), n.log.flips, n.otherFrameCount)
  {
    ReachableInv(hostSize, clientSize, s);
    HeldIsConfirmed(n);
    ConfirmedIsPlayed(n.core, hostSize, clientSize, run, s, n.otherFrameCount);
  }
}
