/** The ring of delta frames of one peer, against the frame-by-frame log. */
module NetplayRing {
  import opened NetplayLog
  import opened RingPointers

  /** struct delta_frame */
  datatype DeltaFrame<S> = DeltaFrame(
    state: S, realInput: Input, simulatedInput: Input, selfState: Input, isSimulated: bool, usedReal: bool)

  function Slot<S>(slots: seq<DeltaFrame<S>>, f: nat): DeltaFrame<S>
    requires |slots| > 0
  {
    slots[f % |slots|]
  }

  /** The slot of frame `f` holds the state saved before that frame, our own input, and
      the other user's input if that has arrived. */
  ghost predicate Recorded<S>(core: Core<S>, l: Log, o: nat, slots: seq<DeltaFrame<S>>, f: nat) {
    && |slots| > 0 && o <= |l.theirs| && f < |l.mine| && (f <= o || f <= |l.guess|)
    && var s := Slot(slots, f);
       && s.state == StateAt(core, l, o, f) && s.selfState == Low16(l.mine[f])
       && (f < |l.theirs| ==> !s.isSimulated && s.realInput == l.theirs[f])
  }

  /** The slot of frame `f` tells what was used for the other user when it was first run. */
  ghost predicate Guessed<S>(l: Log, slots: seq<DeltaFrame<S>>, f: nat) {
    && |slots| > 0 && f < |l.guess|
    && var s := Slot(slots, f);
       && (f >= |l.theirs| ==> s.isSimulated)
       && if s.usedReal then f < |l.theirs| && l.guess[f] == l.theirs[f] else s.simulatedInput == l.guess[f]
  }

  /** The slot before read_ptr still holds the newest input that has arrived. */
  ghost predicate NewestReal<S>(l: Log, slots: seq<DeltaFrame<S>>) {
    |slots| > 0 && (l.theirs != [] ==> Slot(slots, |l.theirs| - 1).realInput == l.theirs[|l.theirs| - 1])
  }

  /** Frames `o` up to `saved` are recorded, and run frames up to `run` are remembered. */
  ghost predicate Window<S>(core: Core<S>, l: Log, o: nat, slots: seq<DeltaFrame<S>>, saved: nat, run: nat) {
    && |slots| > 0 && o <= |l.theirs| && saved <= o + |slots|
    && saved <= |l.mine| && run <= |l.guess| && run <= saved
    && NewestReal(l, slots)
    && (forall f :: o <= f < saved ==> Recorded(core, l, o, slots, f))
    && (forall f :: o <= f < run ==> Guessed(l, slots, f))
  }

  /** The ring after get_self_input_state of the next frame. */
  lemma SaveFrame<S>(core: Core<S>, l: Log, o: nat, slots: seq<DeltaFrame<S>>, f: nat, word: nat)
      returns (m: Log, now: seq<DeltaFrame<S>>)
    requires Window(core, l, o, slots, f, f) && o == |l.theirs| <= f == |l.mine| == |l.guess| < o + |slots|
    ensures m == l.(mine := l.mine + [word])
    ensures now == slots[f % |slots| := Slot(slots, f).(state := StateAt(core, l, o, f), selfState := Low16(word))]
    ensures Window(core, m, o, now, f + 1, f) && StateAt(core, m, o, f) == StateAt(core, l, o, f)
  {
    m := l.(mine := l.mine + [word]);
    ExtendedState(core, l, m, o, f);
    now := slots[f % |slots| := Slot(slots, f).(state := StateAt(core, l, o, f), selfState := Low16(word))];
    forall g | o <= g < f + 1 ensures Recorded(core, m, o, now, g) {
      ExtendedState(core, l, m, o, g);
      if g < f {
        assert Recorded(core, l, o, slots, g);
        OtherSlot(g, f, |slots|);
      }
    }
    forall g | o <= g < f ensures Guessed(m, now, g) {
      assert Guessed(l, slots, g);
      OtherSlot(g, f, |slots|);
    }
    if l.theirs != [] && (o - 1) % |slots| == f % |slots| {
      assert now[f % |slots|].realInput == slots[f % |slots|].realInput;
    }
  }

  /** A slot outside the window may change, but for the newest real input. */
  lemma TouchFree<S>(core: Core<S>, l: Log, o: nat, slots: seq<DeltaFrame<S>>, f: nat, slot: DeltaFrame<S>)
    requires Window(core, l, o, slots, f, f) && f < o + |slots|
    requires slot.realInput == Slot(slots, f).realInput
    ensures Window(core, l, o, slots[f % |slots| := slot], f, f)
  {
    var now := slots[f % |slots| := slot];
    forall g | o <= g < f ensures Recorded(core, l, o, now, g) && Guessed(l, now, g) {
      assert Recorded(core, l, o, slots, g) && Guessed(l, slots, g);
      OtherSlot(g, f, |slots|);
    }
  }

  /** A flip that lies ahead of the window changes nothing that was recorded. */
  lemma FlipAhead<S>(core: Core<S>, l: Log, o: nat, slots: seq<DeltaFrame<S>>, saved: nat, run: nat, at: nat, k: nat)
      returns (m: Log)
    requires Window(core, l, o, slots, saved, run) && saved <= at && k <= saved && (k <= o || k <= |l.guess|)
    requires FlipsOk(l.flips) && LastFlip(l.flips) <= at && 0 < at
    ensures m == l.(flips := m.flips) && m.flips == l.flips + [at]
    ensures FlipsOk(m.flips) && LastFlip(m.flips) == at && PreviousFlip(m.flips) == LastFlip(l.flips)
    ensures (|m.flips| % 2 == 1) == !(|l.flips| % 2 == 1)
    ensures Window(core, m, o, slots, saved, run) && StateAt(core, m, o, k) == StateAt(core, l, o, k)
  {
    var later := FlipsGrow(l.flips, at);
    m := l.(flips := later);
    forall f | 0 <= f < at ensures SameSide(l.flips, later, f) {
      FlipsSameBefore(l.flips, at, f);
    }
    ExtendedState(core, l, m, o, k);
    forall g | o <= g < saved ensures Recorded(core, m, o, slots, g) {
      assert Recorded(core, l, o, slots, g);
      ExtendedState(core, l, m, o, g);
    }
    forall g | o <= g < run ensures Guessed(m, slots, g) {
      assert Guessed(l, slots, g);
    }
  }

  /** parse_packet accepting the next frame. */
  lemma AcceptFrame<S>(core: Core<S>, l: Log, o: nat, slots: seq<DeltaFrame<S>>, f: nat, input: Input)
      returns (m: Log, now: seq<DeltaFrame<S>>)
    requires Window(core, l, o, slots, f + 1, f) && |l.guess| == f && |l.theirs| <= f
    ensures m == l.(theirs := l.theirs + [input])
    ensures now == slots[|l.theirs| % |slots| := Slot(slots, |l.theirs|).(isSimulated := false, realInput := input)]
    ensures Window(core, m, o, now, f + 1, f) && StateAt(core, m, o, f) == StateAt(core, l, o, f)
  {
    var r := |l.theirs|;
    m := l.(theirs := l.theirs + [input]);
    ExtendedState(core, l, m, o, f);
    now := slots[r % |slots| := Slot(slots, r).(isSimulated := false, realInput := input)];
    forall g | o <= g < f + 1 ensures Recorded(core, m, o, now, g) {
      assert Recorded(core, l, o, slots, g);
      ExtendedState(core, l, m, o, g);
      if g < r {
        OtherSlot(g, r, |slots|);
      } else if r < g {
        OtherSlot(r, g, |slots|);
      }
    }
    forall g | o <= g < f ensures Guessed(m, now, g) {
      assert Guessed(l, slots, g);
      if g < r {
        OtherSlot(g, r, |slots|);
      } else if r < g {
        OtherSlot(r, g, |slots|);
      }
    }
  }

  /** The other user's input for the frame about to run: what has arrived, or else the
      newest input that has. */
  function Prediction(l: Log, f: nat): Input
    requires l.theirs != []
  {
    if f < |l.theirs| then l.theirs[f] else l.theirs[|l.theirs| - 1]
  }

  /** simulate_input, or setting used_real when the input has arrived. */
  lemma SettleFrame<S>(core: Core<S>, l: Log, o: nat, slots: seq<DeltaFrame<S>>, f: nat)
      returns (m: Log, now: seq<DeltaFrame<S>>)
    requires Window(core, l, o, slots, f + 1, f) && |l.guess| == f && 0 < |l.theirs| <= f + 1
    ensures m == l.(guess := l.guess + [Prediction(l, f)])
    ensures now == slots[f % |slots| :=
      if |l.theirs| == f + 1 then Slot(slots, f).(usedReal := true)
      else Slot(slots, f).(simulatedInput := Slot(slots, |l.theirs| - 1).realInput, isSimulated := true, usedReal := false)]
    ensures Window(core, m, o, now, f + 1, f + 1)
    ensures o <= f ==> StateAt(core, m, o, f) == StateAt(core, l, o, f)
  {
    m := l.(guess := l.guess + [Prediction(l, f)]);
    if o <= f {
      ExtendedState(core, l, m, o, f);
    }
    now := slots[f % |slots| :=
      if |l.theirs| == f + 1 then Slot(slots, f).(usedReal := true)
      else Slot(slots, f).(simulatedInput := Slot(slots, |l.theirs| - 1).realInput, isSimulated := true, usedReal := false)];
    forall g | o <= g < f + 1 ensures Recorded(core, m, o, now, g) && Guessed(m, now, g) {
      assert Recorded(core, l, o, slots, g);
      ExtendedState(core, l, m, o, g);
      if g < f {
        assert Guessed(l, slots, g);
        OtherSlot(g, f, |slots|);
      }
    }
  }

  /** Skipping a frame whose prediction turned out right. */
  lemma ConfirmFrame<S>(core: Core<S>, l: Log, o: nat, slots: seq<DeltaFrame<S>>, f: nat) returns (p: nat)
    requires Window(core, l, o, slots, f, f) && o < |l.theirs| && o < f && |l.guess| == f
    requires l.guess[o] == l.theirs[o]
    ensures p == o + 1 && Window(core, l, p, slots, f, f)
    ensures StateAt(core, l, p, f) == StateAt(core, l, o, f)
  {
    p := o + 1;
    forall g | p <= g < f ensures Recorded(core, l, p, slots, g) {
      assert Recorded(core, l, o, slots, g);
      ConfirmGuessed(core, l, o, g);
    }
    forall g | p <= g < f ensures Guessed(l, slots, g) {
      assert Guessed(l, slots, g);
    }
    ConfirmGuessed(core, l, o, f);
  }

  /** What a port reads from a slot: the other user's input if it is that user's port. */
  function SlotInput<S>(slot: DeltaFrame<S>, theirPort: bool): Input {
    if !theirPort then slot.selfState
    else if slot.isSimulated then slot.simulatedInput else slot.realInput
  }

  /** Running the newest frame from its slot is one step of plain re-execution. */
  lemma RunFrame<S>(core: Core<S>, l: Log, o: nat, slots: seq<DeltaFrame<S>>, f: nat)
    requires Window(core, l, o, slots, f + 1, f + 1) && o <= f
    requires f < |l.theirs| ==> l.guess[f] == l.theirs[f]
    ensures StateAt(core, l, o, f + 1) == core.step(StateAt(core, l, o, f),
      SlotInput(Slot(slots, f), l.port == (false != Swapped(l.flips, f))),
      SlotInput(Slot(slots, f), l.port == (true != Swapped(l.flips, f))))
  {
    assert Recorded(core, l, o, slots, f) && Guessed(l, slots, f);
  }

  /** A slot during a replay that has reached frame `t`: the inputs to replay with, and
      the new state if the replay has passed it. */
  ghost predicate Replayed<S>(core: Core<S>, l: Log, slots: seq<DeltaFrame<S>>, t: nat, f: nat) {
    && |slots| > 0 && f < |l.mine| && f < |l.guess|
    && var s := Slot(slots, f);
       && SlotInput(s, false) == Low16(l.mine[f]) && SlotInput(s, true) == Theirs(l, |l.theirs|, f)
       && s.isSimulated == (f >= |l.theirs|)
       && (f < t ==> s.state == StateAt(core, l, |l.theirs|, f))
       && Guessed(l, slots, f)
  }

  lemma StartReplay<S>(core: Core<S>, l: Log, o: nat, slots: seq<DeltaFrame<S>>, f: nat)
    requires Window(core, l, o, slots, f, f) && o < |l.theirs| && o < f && |l.guess| == f
    ensures forall g :: o <= g < f ==> Replayed(core, l, slots, o, g)
    ensures Slot(slots, o).state == StateAt(core, l, |l.theirs|, o)
  {
    forall g | o <= g < f ensures Replayed(core, l, slots, o, g) {
      assert Recorded(core, l, o, slots, g) && Guessed(l, slots, g);
    }
    assert Recorded(core, l, o, slots, o);
    var r := |l.theirs|;
    forall g | 0 <= g < o ensures SameInputs(l, o, l, r, g) {
    }
    SameStates(core, l, o, l, r, o);
  }

  /** Saving the state of frame `t` again on the way. */
  lemma ReplayFrame<S>(core: Core<S>, l: Log, o: nat, slots: seq<DeltaFrame<S>>, f: nat, t: nat)
      returns (u: nat, now: seq<DeltaFrame<S>>)
    requires |slots| > 0 && o <= t < f <= o + |slots| && |l.guess| == |l.mine| == f && NewestReal(l, slots)
    requires forall g :: o <= g < f ==> Replayed(core, l, slots, t, g)
    ensures u == t + 1 && now == slots[t % |slots| := Slot(slots, t).(state := StateAt(core, l, |l.theirs|, t))]
    ensures NewestReal(l, now) && forall g :: o <= g < f ==> Replayed(core, l, now, u, g)
  {
    u, now := t + 1, slots[t % |slots| := Slot(slots, t).(state := StateAt(core, l, |l.theirs|, t))];
    forall g | o <= g < f ensures Replayed(core, l, now, u, g) {
      assert Replayed(core, l, slots, t, g);
      if g < t {
        OtherSlot(g, t, |slots|);
      } else if t < g {
        OtherSlot(t, g, |slots|);
      }
    }
    if l.theirs != [] && (|l.theirs| - 1) % |slots| == t % |slots| {
      assert now[t % |slots|].realInput == slots[t % |slots|].realInput;
    }
  }

  /** Running frame `t` again from its slot. */
  lemma RunReplayed<S>(core: Core<S>, l: Log, slots: seq<DeltaFrame<S>>, t: nat)
    requires Replayed(core, l, slots, t + 1, t)
    ensures StateAt(core, l, |l.theirs|, t + 1) == core.step(StateAt(core, l, |l.theirs|, t),
      SlotInput(Slot(slots, t), l.port == (false != Swapped(l.flips, t))),
      SlotInput(Slot(slots, t), l.port == (true != Swapped(l.flips, t))))
  {
  }

  lemma EndReplay<S>(core: Core<S>, l: Log, o: nat, slots: seq<DeltaFrame<S>>, f: nat)
    requires |slots| > 0 && o <= |l.theirs| <= f <= o + |slots| && |l.guess| == |l.mine| == f && NewestReal(l, slots)
    requires forall g :: o <= g < f ==> Replayed(core, l, slots, f, g)
    ensures Window(core, l, |l.theirs|, slots, f, f)
  {
    var r := |l.theirs|;
    forall g | r <= g < f ensures Recorded(core, l, r, slots, g) && Guessed(l, slots, g) {
      assert Replayed(core, l, slots, f, g);
    }
  }
}
