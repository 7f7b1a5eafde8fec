/**
  The vocabulary of the mouse event loop: the raw input events it reads from
  the mouse device, and the side effects it performs in answer to them.
 */
module Events {

  /** The `value` field of an evdev input event is a signed 32-bit integer. */
  newtype Int32 = x: int | -0x8000_0000 <= x < 0x8000_0000

  /** Key-class codes the loop can see on a mouse; only two of them matter. */
  datatype KeyCode = BtnLeft | BtnRight | BtnMiddle | BtnSide | BtnExtra | OtherKey

  /** Relative-motion codes; only the vertical wheel matters. */
  datatype RelCode = RelX | RelY | RelWheel | RelHWheel | OtherRel

  /** The event class together with its class-specific code. Synchronisation,
      miscellaneous and every other class are folded into `EvOther`, because
      the loop treats all of them alike. */
  datatype EventCode = EvKey(key: KeyCode) | EvRel(rel: RelCode) | EvSyn | EvMsc | EvOther

  /** One event read from the mouse. The timestamp is dropped: the loop
      destructures it and never looks at it. */
  datatype InputEvent = InputEvent(code: EventCode, value: Int32)

  /** What the loop does in answer to an event. `InjectUp` and `InjectDown`
      stand for one call each of the key-press injector on the virtual device
      (with the up-arrow and down-arrow key); `SideAction` stands for one
      launch of the external side-button script. */
  datatype Action = InjectUp | InjectDown | SideAction

  /** The middle button, whatever its value (press, release or autorepeat). */
  predicate IsMiddle(ev: InputEvent) {
    ev.code == EvKey(BtnMiddle)
  }

  /** One notch of the vertical wheel upwards. */
  predicate IsWheelUp(ev: InputEvent) {
    ev.code == EvRel(RelWheel) && ev.value == 1
  }

  /** One notch of the vertical wheel downwards. */
  predicate IsWheelDown(ev: InputEvent) {
    ev.code == EvRel(RelWheel) && ev.value == -1
  }

  /** A press (value 1) of the side button. */
  predicate IsSidePress(ev: InputEvent) {
    ev.code == EvKey(BtnSide) && ev.value == 1
  }

  /** Number of events of `evs` satisfying `p`. */
  function CountIf(evs: seq<InputEvent>, p: InputEvent -> bool): nat {
    if |evs| == 0 then 0
    else (if p(evs[0]) then 1 else 0) + CountIf(evs[1..], p)
  }

  /** Number of occurrences of `a` in `acts`. */
  function Count(a: Action, acts: seq<Action>): nat {
    if |acts| == 0 then 0
    else (if acts[0] == a then 1 else 0) + Count(a, acts[1..])
  }

  lemma {:induction false} CountAppend(a: Action, xs: seq<Action>, ys: seq<Action>)
    ensures Count(a, xs + ys) == Count(a, xs) + Count(a, ys)
  {
    if |xs| > 0 {
      assert (xs + ys)[1..] == xs[1..] + ys;
      CountAppend(a, xs[1..], ys);
    } else {
      assert xs + ys == ys;
    }
  }
}
