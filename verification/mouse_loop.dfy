/**
  The mouse event loop itself: the stream of read results is consumed in
  order by the gesture handler, with the drag-scroll flag as the one piece
  of mutable state, until the stream fails or runs out.
 */
module MouseLoop {
  import opened Events
  import opened Gesture

  /** One result pulled from the mouse device's event stream. */
  datatype Item = Event(ev: InputEvent) | ReadError

  /** How the loop finished: the stream ran out, or it yielded an error,
      which stops the loop at once. */
  datatype LoopEnd = StreamEnded | StreamFailed

  /** True when some item of the stream is a read error. */
  predicate HasError(items: seq<Item>) {
    ReadError in items
  }

  /** The events delivered to the handler: every event before the first
      read error. */
  function Delivered(items: seq<Item>): (evs: seq<InputEvent>)
    ensures |evs| <= |items|
    ensures !HasError(items) ==> |evs| == |items|
    decreases |items|
  {
    if |items| == 0 then []
    else match items[0]
      case ReadError => []
      case Event(ev) =>
        assert ReadError in items[1..] ==> ReadError in items;
        [ev] + Delivered(items[1..])
  }

  /** The delivered events are the payloads of the stream's longest
      error-free prefix, in order: each delivered event sits at its own
      position in the stream, and the item right after them, if any, is the
      error that stopped the loop. */
  lemma {:induction false} DeliveredIsErrorFreePrefix(items: seq<Item>)
    ensures forall k :: 0 <= k < |Delivered(items)| ==> items[k] == Event(Delivered(items)[k])
    ensures |Delivered(items)| < |items| ==> items[|Delivered(items)|] == ReadError
    decreases |items|
  {
    if |items| > 0 && items[0].Event? {
      var tail := Delivered(items[1..]);
      DeliveredIsErrorFreePrefix(items[1..]);
      assert Delivered(items) == [items[0].ev] + tail;
      forall k | 0 < k < |Delivered(items)|
        ensures items[k] == Event(Delivered(items)[k])
      {
        assert items[k] == items[1..][k - 1];
      }
      if |tail| < |items[1..]| {
        assert items[|tail| + 1] == items[1..][|tail|];
      }
    }
  }

  /** How the delivered events of a suffix begin. */
  lemma DeliveredFrom(items: seq<Item>, i: nat)
    requires i < |items|
    ensures items[i] == ReadError ==> Delivered(items[i..]) == []
    ensures items[i].Event? ==> Delivered(items[i..]) == [items[i].ev] + Delivered(items[i + 1..])
  {
    assert items[i..][1..] == items[i + 1..];
  }

  /** Handing the event at `i` to the handler moves it from the undelivered
      suffix to the delivered prefix. */
  lemma DeliverNext(items: seq<Item>, i: nat, seen: seq<InputEvent>)
    requires i < |items| && items[i].Event?
    requires seen + Delivered(items[i..]) == Delivered(items)
    ensures (seen + [items[i].ev]) + Delivered(items[i + 1..]) == Delivered(items)
  {
    var ev, rest := items[i].ev, Delivered(items[i + 1..]);
    assert Delivered(items[i..]) == [ev] + rest by {
      DeliveredFrom(items, i);
    }
    assert (seen + [ev]) + rest == seen + ([ev] + rest);
  }

  /** A read error at `i` ends the delivery: what was seen is all there is. */
  lemma StopAtError(items: seq<Item>, i: nat, seen: seq<InputEvent>)
    requires i < |items| && items[i] == ReadError
    requires seen + Delivered(items[i..]) == Delivered(items)
    ensures seen == Delivered(items)
    ensures HasError(items)
  {
    DeliveredFrom(items, i);
    assert seen + [] == seen;
  }

  /** Reaching the end of an error-free stream delivers every event. */
  lemma StopAtEnd(items: seq<Item>, seen: seq<InputEvent>)
    requires forall j :: 0 <= j < |items| ==> items[j].Event?
    requires seen + Delivered(items[|items|..]) == Delivered(items)
    ensures seen == Delivered(items)
    ensures !HasError(items)
  {
    assert Delivered(items[|items|..]) == [] by {
      assert items[|items|..] == [];
    }
    assert seen + [] == seen;
  }

  /** The `try_for_each` loop of `main`: a mutable flag starting released, a
      handler applied to each event as it arrives, and an early exit on the
      first read error. Its actions are those of the gesture translator run
      over the delivered events, and it reports failure exactly when the
      stream holds an error. */
  method EventLoop(items: seq<Item>) returns (actions: seq<Action>, end: LoopEnd)
    ensures actions == Run(Initial, Delivered(items)).actions
    ensures end == StreamFailed <==> HasError(items)
  {
    var held := Initial;
    actions := [];
    ghost var seen: seq<InputEvent> := [];
    var i := 0;
    while i < |items|
      invariant 0 <= i <= |items|
      invariant forall j :: 0 <= j < i ==> items[j].Event?
      invariant seen + Delivered(items[i..]) == Delivered(items)
      invariant Run(Initial, seen) == Transition(held, actions)
    {
      if items[i].ReadError? {
        StopAtError(items, i, seen);
        end := StreamFailed;
        return;
      }
      var ev := items[i].ev;
      var step := Step(held, ev);
      DeliverNext(items, i, seen);
      RunSnoc(Initial, seen, ev);
      held := step.held;
      actions := actions + step.actions;
      seen := seen + [ev];
      i := i + 1;
    }
    StopAtEnd(items, seen);
    end := StreamEnded;
  }
}
