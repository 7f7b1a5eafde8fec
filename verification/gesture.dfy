/**
  The mouse gesture translator of the remapping daemon: a one-bit state
  machine (is the middle button holding the "drag scroll" mode?) that turns
  wheel notches into up/down key presses, except while the middle button is
  held, and launches a script on a side-button press.
 */
module Gesture {
  import opened Events

  /** The state after an event together with what the event caused. */
  datatype Transition = Transition(held: bool, actions: seq<Action>)

  /** The loop's state before the first event: drag scroll is not held. */
  const Initial: bool := false

  /** One wheel notch upwards, as the mouse reports it. */
  const WheelUpEvent: InputEvent := InputEvent(EvRel(RelWheel), 1)

  /** One wheel notch downwards, as the mouse reports it. */
  const WheelDownEvent: InputEvent := InputEvent(EvRel(RelWheel), -1)

  /** A middle-button press. */
  const MiddlePress: InputEvent := InputEvent(EvKey(BtnMiddle), 1)

  /** An event that produces an action in state `held`. */
  predicate Qualifies(held: bool, ev: InputEvent) {
    ((IsWheelUp(ev) || IsWheelDown(ev)) && !held) || IsSidePress(ev)
  }

  /** The handler for one mouse event, arm by arm as the `match` in the Rust handler:
      the middle button (any value) rewrites the flag; a wheel notch of +1 or
      -1 injects an arrow key unless the flag is set; a side-button press
      launches the script; everything else is ignored. */
  function Step(held: bool, ev: InputEvent): (r: Transition)
    // only the middle button writes the flag, and it writes "is this a press"
    ensures r.held == (if IsMiddle(ev) then ev.value == 1 else held)
    // never more than one action per event
    ensures |r.actions| <= 1
  {
    match ev.code
    case EvKey(BtnMiddle) => Transition(ev.value == 1, [])
    case EvRel(RelWheel) =>
      if ev.value == 1 then Transition(held, if held then [] else [InjectUp])
      else if ev.value == -1 then Transition(held, if held then [] else [InjectDown])
      else Transition(held, [])
    case EvKey(BtnSide) => Transition(held, if ev.value == 1 then [SideAction] else [])
    case _ => Transition(held, [])
  }

  /** The actions of one event: an up press exactly for an upward notch while
      drag scroll is released, a down press exactly for a downward notch while
      it is released, a script launch exactly for a side-button press, and
      nothing for every other event (other wheel deltas, other codes, a side
      button release or autorepeat, any middle-button event). */
  lemma StepActions(held: bool, ev: InputEvent)
    ensures Step(held, ev).actions == [InjectUp] <==> IsWheelUp(ev) && !held
    ensures Step(held, ev).actions == [InjectDown] <==> IsWheelDown(ev) && !held
    ensures Step(held, ev).actions == [SideAction] <==> IsSidePress(ev)
    ensures Step(held, ev).actions == [] <==> !Qualifies(held, ev)
    ensures Step(held, ev).actions == Response(held, ev)
  {
  }

  /** The same table as `StepActions`, counted per action. */
  lemma StepCounts(held: bool, ev: InputEvent)
    ensures Count(InjectUp, Step(held, ev).actions) == if IsWheelUp(ev) && !held then 1 else 0
    ensures Count(InjectDown, Step(held, ev).actions) == if IsWheelDown(ev) && !held then 1 else 0
    ensures Count(SideAction, Step(held, ev).actions) == if IsSidePress(ev) then 1 else 0
    ensures |Step(held, ev).actions| == if Qualifies(held, ev) then 1 else 0
  {
    StepActions(held, ev);
  }

  /** True when no event of `evs` is a middle-button event. */
  predicate NoMiddle(evs: seq<InputEvent>) {
    forall i :: 0 <= i < |evs| ==> !IsMiddle(evs[i])
  }

  /** The event loop over a finite trace: each event is handled in arrival
      order with the flag left behind by the previous one. */
  function Run(held: bool, evs: seq<InputEvent>): (r: Transition)
    ensures |r.actions| <= |evs|
    decreases |evs|
  {
    if |evs| == 0 then Transition(held, [])
    else
      var first := Step(held, evs[0]);
      var rest := Run(first.held, evs[1..]);
      Transition(rest.held, first.actions + rest.actions)
  }

  /** Dropping the first event of a trace keeps it free of middle-button events. */
  lemma NoMiddleTail(evs: seq<InputEvent>)
    requires |evs| > 0 && NoMiddle(evs)
    ensures !IsMiddle(evs[0]) && NoMiddle(evs[1..])
  {
    forall i | 0 <= i < |evs[1..]| ensures !IsMiddle(evs[1..][i]) {
      assert evs[1..][i] == evs[i + 1];
    }
  }

  /** Only the middle button writes the flag: a trace without middle-button
      events leaves it as it found it. */
  lemma {:induction false} OnlyMiddleWritesHeld(held: bool, evs: seq<InputEvent>)
    requires NoMiddle(evs)
    ensures Run(held, evs).held == held
    decreases |evs|
  {
    if |evs| > 0 {
      NoMiddleTail(evs);
      OnlyMiddleWritesHeld(Step(held, evs[0]).held, evs[1..]);
    }
  }

  /** Running two traces one after the other is running their concatenation. */
  lemma {:induction false} RunAppend(held: bool, xs: seq<InputEvent>, ys: seq<InputEvent>)
    ensures Run(held, xs + ys)
         == Transition(Run(Run(held, xs).held, ys).held,
                       Run(held, xs).actions + Run(Run(held, xs).held, ys).actions)
    decreases |xs|
  {
    if |xs| > 0 {
      var h1, a1 := Step(held, xs[0]).held, Step(held, xs[0]).actions;
      assert (xs + ys)[0] == xs[0];
      assert (xs + ys)[1..] == xs[1..] + ys;
      RunAppend(h1, xs[1..], ys);
      var mid := Run(h1, xs[1..]);
      var tail := Run(mid.held, ys);
      assert Run(held, xs) == Transition(mid.held, a1 + mid.actions);
      calc {
        Run(held, xs + ys);
        Transition(Run(h1, xs[1..] + ys).held, a1 + Run(h1, xs[1..] + ys).actions);
        Transition(tail.held, a1 + (mid.actions + tail.actions));
        { assert a1 + (mid.actions + tail.actions) == (a1 + mid.actions) + tail.actions; }
        Transition(tail.held, (a1 + mid.actions) + tail.actions);
      }
    } else {
      assert xs + ys == ys;
    }
  }

  /** Handling one more event extends the run by that event's step. */
  lemma RunSnoc(held: bool, evs: seq<InputEvent>, ev: InputEvent)
    ensures Run(held, evs + [ev])
         == Transition(Step(Run(held, evs).held, ev).held,
                       Run(held, evs).actions + Step(Run(held, evs).held, ev).actions)
  {
    RunAppend(held, evs, [ev]);
    assert [ev][1..] == [];
    var h := Run(held, evs).held;
    assert Run(h, [ev]) == Transition(Step(h, ev).held, Step(h, ev).actions + []);
    assert Step(h, ev).actions + [] == Step(h, ev).actions;
  }

  // ---------------------------------------------------------------------
  // Reference reading of a trace, from its end: the flag is whatever the
  // most recent middle-button event made it, and each event answers
  // according to the flag left by the events before it.
  // ---------------------------------------------------------------------

  /** The flag after `evs`: the press test of the latest middle-button
      event, or `held` when there is none. */
  function HeldAfter(held: bool, evs: seq<InputEvent>): bool
    decreases |evs|
  {
    if |evs| == 0 then held
    else if IsMiddle(evs[|evs| - 1]) then evs[|evs| - 1].value == 1
    else HeldAfter(held, evs[..|evs| - 1])
  }

  /** What one event answers in a state, read off the gesture table. */
  function Response(held: bool, ev: InputEvent): seq<Action> {
    if IsWheelUp(ev) && !held then [InjectUp]
    else if IsWheelDown(ev) && !held then [InjectDown]
    else if IsSidePress(ev) then [SideAction]
    else []
  }

  /** The answers of all events of `evs`, in order. */
  function Expected(held: bool, evs: seq<InputEvent>): seq<Action>
    decreases |evs|
  {
    if |evs| == 0 then []
    else
      var init := evs[..|evs| - 1];
      Expected(held, init) + Response(HeldAfter(held, init), evs[|evs| - 1])
  }

  /** The number of events of `evs` that qualify for an action, each judged
      in the state the events before it left. */
  function QualifyingEvents(held: bool, evs: seq<InputEvent>): nat
    decreases |evs|
  {
    if |evs| == 0 then 0
    else
      var init := evs[..|evs| - 1];
      QualifyingEvents(held, init) + (if Qualifies(HeldAfter(held, init), evs[|evs| - 1]) then 1 else 0)
  }

  /** The loop agrees with the reference reading of every trace: its final
      flag is set by the latest middle-button event, and its actions are the
      per-event answers in arrival order. */
  lemma {:induction false} RunMatchesReference(held: bool, evs: seq<InputEvent>)
    ensures Run(held, evs).held == HeldAfter(held, evs)
    ensures Run(held, evs).actions == Expected(held, evs)
    decreases |evs|
  {
    if |evs| > 0 {
      var init, last := evs[..|evs| - 1], evs[|evs| - 1];
      assert evs == init + [last];
      RunMatchesReference(held, init);
      RunSnoc(held, init, last);
      StepActions(Run(held, init).held, last);
    }
  }

  /** Every qualifying event yields exactly one action and nothing else
      yields one: no coalescing and no duplication. */
  lemma {:induction false} ActionsCountQualifyingEvents(held: bool, evs: seq<InputEvent>)
    ensures |Run(held, evs).actions| == QualifyingEvents(held, evs)
    decreases |evs|
  {
    RunMatchesReference(held, evs);
    ExpectedLength(held, evs);
  }

  lemma {:induction false} ExpectedLength(held: bool, evs: seq<InputEvent>)
    ensures |Expected(held, evs)| == QualifyingEvents(held, evs)
    decreases |evs|
  {
    if |evs| > 0 {
      ExpectedLength(held, evs[..|evs| - 1]);
    }
  }

  /** Every side-button press launches the script exactly once, whatever the
      drag-scroll state, and nothing else launches it. */
  lemma {:induction false} SideActionPerSidePress(held: bool, evs: seq<InputEvent>)
    ensures Count(SideAction, Run(held, evs).actions) == CountIf(evs, IsSidePress)
    decreases |evs|
  {
    if |evs| > 0 {
      var h1, first := Step(held, evs[0]).held, Step(held, evs[0]).actions;
      var rest := Run(h1, evs[1..]).actions;
      assert Run(held, evs).actions == first + rest;
      SideActionPerSidePress(h1, evs[1..]);
      StepCounts(held, evs[0]);
      CountAppend(SideAction, first, rest);
    }
  }

  /** Injections never outnumber the wheel notches in their direction. */
  lemma {:induction false} InjectionsBoundedByNotches(held: bool, evs: seq<InputEvent>)
    ensures Count(InjectUp, Run(held, evs).actions) <= CountIf(evs, IsWheelUp)
    ensures Count(InjectDown, Run(held, evs).actions) <= CountIf(evs, IsWheelDown)
    decreases |evs|
  {
    if |evs| > 0 {
      var h1, first := Step(held, evs[0]).held, Step(held, evs[0]).actions;
      var rest := Run(h1, evs[1..]).actions;
      assert Run(held, evs).actions == first + rest;
      InjectionsBoundedByNotches(h1, evs[1..]);
      StepCounts(held, evs[0]);
      CountAppend(InjectUp, first, rest);
      CountAppend(InjectDown, first, rest);
    }
  }

  /** With drag scroll not held and no middle-button event, every wheel
      notch injects its key: N notches up give N up presses, N down give N
      down presses, and the only other actions are side-button launches. */
  lemma {:induction false} NoCoalescingWhenReleased(evs: seq<InputEvent>)
    requires NoMiddle(evs)
    ensures Count(InjectUp, Run(false, evs).actions) == CountIf(evs, IsWheelUp)
    ensures Count(InjectDown, Run(false, evs).actions) == CountIf(evs, IsWheelDown)
    ensures |Run(false, evs).actions|
         == CountIf(evs, IsWheelUp) + CountIf(evs, IsWheelDown) + CountIf(evs, IsSidePress)
    decreases |evs|
  {
    if |evs| > 0 {
      NoMiddleTail(evs);
      var first := Step(false, evs[0]).actions;
      var rest := Run(false, evs[1..]).actions;
      assert Run(false, evs).actions == first + rest;
      NoCoalescingWhenReleased(evs[1..]);
      StepCounts(false, evs[0]);
      CountAppend(InjectUp, first, rest);
      CountAppend(InjectDown, first, rest);
    }
  }

  /** While drag scroll is held and the middle button reports nothing, the
      wheel injects nothing; side-button presses still launch the script. */
  lemma {:induction false} HeldSuppressesWheel(evs: seq<InputEvent>)
    requires NoMiddle(evs)
    ensures Count(InjectUp, Run(true, evs).actions) == 0
    ensures Count(InjectDown, Run(true, evs).actions) == 0
    ensures Run(true, evs).actions == seq(CountIf(evs, IsSidePress), _ => SideAction)
    decreases |evs|
  {
    if |evs| > 0 {
      NoMiddleTail(evs);
      var first := Step(true, evs[0]).actions;
      var rest := Run(true, evs[1..]).actions;
      assert Run(true, evs).actions == first + rest;
      HeldSuppressesWheel(evs[1..]);
      StepActions(true, evs[0]);
      var n := CountIf(evs[1..], IsSidePress);
      if IsSidePress(evs[0]) {
        assert first == [SideAction];
        assert seq(n + 1, _ => SideAction) == [SideAction] + seq(n, _ => SideAction);
      } else {
        assert first == [];
        assert first + rest == rest;
      }
      StepCounts(true, evs[0]);
      CountAppend(InjectUp, first, rest);
      CountAppend(InjectDown, first, rest);
    }
  }

  /** A middle press arms drag scroll for everything up to the next
      middle-button event: the wheel is silenced in between, whatever the
      state before the press. */
  lemma {:induction false} MiddlePressSilencesWheel(held: bool, evs: seq<InputEvent>)
    requires NoMiddle(evs)
    ensures Run(held, [MiddlePress] + evs).held
    ensures Count(InjectUp, Run(held, [MiddlePress] + evs).actions) == 0
    ensures Count(InjectDown, Run(held, [MiddlePress] + evs).actions) == 0
  {
    RunAppend(held, [MiddlePress], evs);
    assert Run(held, [MiddlePress]) == Transition(true, []) by {
      assert [MiddlePress][1..] == [];
    }
    HeldSuppressesWheel(evs);
    OnlyMiddleWritesHeld(true, evs);
    assert Run(held, [MiddlePress] + evs).actions == Run(true, evs).actions;
  }

  /** Feeding the same wheel-up notch N times from the initial state
      injects exactly N up presses. */
  lemma {:induction false} RepeatedWheelUp(n: nat)
    ensures Run(Initial, seq(n, _ => WheelUpEvent)).actions == seq(n, _ => InjectUp)
    decreases n
  {
    if n > 0 {
      var evs := seq(n, _ => WheelUpEvent);
      assert evs == [WheelUpEvent] + seq(n - 1, _ => WheelUpEvent);
      RepeatedWheelUp(n - 1);
      assert seq(n, _ => InjectUp) == [InjectUp] + seq(n - 1, _ => InjectUp);
    }
  }

  /** Feeding the same wheel-down notch N times from the initial state
      injects exactly N down presses. */
  lemma {:induction false} RepeatedWheelDown(n: nat)
    ensures Run(Initial, seq(n, _ => WheelDownEvent)).actions == seq(n, _ => InjectDown)
    decreases n
  {
    if n > 0 {
      var evs := seq(n, _ => WheelDownEvent);
      assert evs == [WheelDownEvent] + seq(n - 1, _ => WheelDownEvent);
      RepeatedWheelDown(n - 1);
      assert seq(n, _ => InjectDown) == [InjectDown] + seq(n - 1, _ => InjectDown);
    }
  }
}
