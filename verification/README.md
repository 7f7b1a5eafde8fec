# sc2remap mouse gesture translator, in Dafny

This project models the mouse half of `sc2remap`, an input-remapping daemon
for a real-time strategy game. The daemon reads the mouse's evdev events and
answers some of them through a virtual input device:

- a vertical wheel notch up (`REL_WHEEL`, value 1) injects one `KEY_UP` key press;
- a notch down (`REL_WHEEL`, value -1) injects one `KEY_DOWN` key press;
- while the middle button is held ("drag scroll"), wheel notches inject nothing;
- a side-button press (`BTN_SIDE`, value 1) launches an external script;
- every other event is ignored.

The only state is the boolean `drag_scroll_held`. It starts `false`, and
every `BTN_MIDDLE` event sets it to `value == 1`. So a press arms it, and a
release (0) or an autorepeat (2) disarms it.

Layout:

- `events.dfy` (module `Events`): the event vocabulary. It holds evdev codes
  as a closed tagged union, the signed 32-bit `value`, and the three actions
  (`InjectUp`, `InjectDown`, `SideAction`). It also has the event
  classifiers and counting helpers.
- `gesture.dfy` (module `Gesture`): the handler as a pure step function
  `Step(held, ev)`, and the loop over a finite trace as a fold `Run`. It also
  gives an independent reading of a trace, built from the end (`HeldAfter`,
  `Response`, `Expected`, `QualifyingEvents`). Lemmas connect the fold to
  that reading and state the per-trace counting properties.
- `mouse_loop.dfy` (module `MouseLoop`): the stream consumption itself. It is
  an imperative loop with a mutable flag that stops at the first read error,
  as `try_for_each` does. It is proved equal to `Run` over the events
  delivered before that error.

Each call of the key-press injector is one opaque action token. The
injector's own event sequence (press, sync, release, sync or otherwise)
belongs to the `evdev_utils` library, which is not part of this model.
Likewise, each launch of the side-button script is one token.

In `src/main.rs` the middle button only silences the wheel; no button
chord exists. The side button runs a script, and only its press (value 1)
does so.

## Model

| member | source | states |
|---|---|---|
| Gesture.Step | src/main.rs:74-99 | After one event the flag is `value == 1` if the event is `BTN_MIDDLE`, whatever its value, and is unchanged otherwise. One event never causes more than one action. |
| Gesture.StepActions | src/main.rs:80-98 | One event yields `[InjectUp]` exactly for wheel +1 while not held. It yields `[InjectDown]` exactly for wheel -1 while not held, and `[SideAction]` exactly for a side press, held or not. It yields nothing exactly when none of these applies: other wheel deltas, other codes, side release/autorepeat, middle events. |
| Gesture.Run | src/main.rs:67-101 | Handling a finite trace in arrival order never produces more actions than there are events. |
| Gesture.OnlyMiddleWritesHeld | src/main.rs:74-98 | A trace with no `BTN_MIDDLE` event leaves the drag-scroll flag exactly as it found it. |
| Gesture.RunAppend | src/main.rs:67-101 | Handling `xs ++ ys` is handling `xs`, then handling `ys` from the flag `xs` left. The actions are concatenated in order. |
| Gesture.RunSnoc | src/main.rs:67-101 | Handling one more event extends the run by exactly that event's step, taken in the flag the earlier events left. |
| Gesture.RunMatchesReference | src/main.rs:66-101 | Starting from any flag, the final flag equals the press test of the latest middle-button event (or the start flag if there is none). The action sequence equals each event's own answer in arrival order, each judged in the flag the events before it left. |
| Gesture.ActionsCountQualifyingEvents | src/main.rs:74-100 | The number of actions of a trace equals the number of events that qualify in their state. Nothing is coalesced and nothing is duplicated. |
| Gesture.SideActionPerSidePress | src/main.rs:95-97 | The script is launched exactly once per side-button press in the trace, whatever the drag-scroll state, and by nothing else. |
| Gesture.InjectionsBoundedByNotches | src/main.rs:80-94 | Up injections never outnumber upward notches, and down injections never outnumber downward notches. |
| Gesture.NoCoalescingWhenReleased | src/main.rs:66-101 | From the released state, with no middle-button event, every upward notch injects one up press and every downward notch one down press. The action total is notches plus side presses. |
| Gesture.HeldSuppressesWheel | src/main.rs:80-94 | While held, with no middle-button event, the wheel injects nothing. The actions are exactly one `SideAction` per side press. |
| Gesture.MiddlePressSilencesWheel | src/main.rs:76-94 | After a middle press, from any state, the flag stays armed until the next middle event, and no wheel notch injects anything in between. |
| Gesture.RepeatedWheelUp | src/main.rs:66-86 | From the initial state, N identical upward notches give exactly N `InjectUp` actions. |
| Gesture.RepeatedWheelDown | src/main.rs:66-94 | From the initial state, N identical downward notches give exactly N `InjectDown` actions. |
| MouseLoop.Delivered | src/main.rs:67 | The delivered events are never more than the stream's items, and are exactly as many when the stream holds no read error. Which events they are is stated by `MouseLoop.DeliveredIsErrorFreePrefix`. |
| MouseLoop.DeliveredIsErrorFreePrefix | src/main.rs:67 | The delivered events are exactly the stream's payloads up to the first read error, each at its own position. The item right after them, if any, is that error. |
| MouseLoop.EventLoop | src/main.rs:66-102 | The loop, with its mutable flag starting `false` and its early exit, produces exactly the actions of `Run` over the delivered events. It ends in failure exactly when the stream holds a read error. |

## Left out

- Argument parsing and logger setup (`Args`, `simple_logger`, src/main.rs:11-36): configuration only.
- `log_event` and the `debug!`/`info!`/`warn!` calls (src/main.rs:19-26, 68, 82, 90, 96, 102): logging has no effect on the state or the actions.
- The pidlock single-instance guard (src/main.rs:38-41): process-level I/O.
- Mouse identification through `evdev_utils::identify_mouse` and its retry loop (src/main.rs:44-51): device I/O inside a foreign library.
- The outer restart loop (src/main.rs:43, 102-103): the model covers one pass of the event loop. Each new pass starts again from a released flag, as `EventLoop` does.
- Creation and capability setup of the uinput device (src/main.rs:53-62): OS plumbing.
- The `AsyncDevice` stream and the `block_on` executor (src/main.rs:64, 67): they are replaced by a finite sequence of read results. An endless stream is modelled by its finite prefixes.
- Event timestamps: the handler destructures the timestamp and never reads it.
- The internals of `inject_key_press` (src/main.rs:83, 91): each call is one opaque `InjectUp`/`InjectDown` token.
- Gesture.Step: a failed injection makes `.expect` panic and aborts the whole process. The model assumes every injection succeeds.
- MouseLoop.EventLoop: its end result (stream ended, or failed exactly when a read error is present) assumes every injection succeeds; in `src/main.rs` a failed `inject_key_press(..).expect(..)` at lines 83-84 and 91-92 panics and ends the process mid-stream.
- The side-button script and its exit status (src/main.rs:96): launching it is one `SideAction` token. Its status is only logged, so it never stops the loop.
- Keyboard layer-key remapping, device-role identification and two-source multiplexing: none of them appears in `src/main.rs`, which is the only file of this model.
