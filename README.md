# Hand gesture mouse controller — verified model of the per-frame decision logic

This project models the decision core of `mouse_control.py`, a webcam hand-gesture
mouse controller. For every detected hand, the controller does four things:

1. It classifies the hand's 21 landmarks into one of the labels `fist`, `peace`,
   `three_fingers`, `thumb_up`, `thumb_down` or `none` (`detect_gesture`).
2. It moves the pointer to the index fingertip, scaled to the screen and truncated.
3. It walks the ordered gesture→action table and fires the first binding whose
   trigger is the classified gesture. The walk stops at that binding even when the
   binding injects nothing.
4. It updates `last_click_time` only when it fires `click`.

The GUI's Start button copies the user's menu choices into the controller's table,
but only while the controller is not running.

Files and modules:

- `wrappers.dfy` (`Wrappers`): `Option`.
- `gestures.dfy` (`Gestures`): landmarks, the label type, the five rule conditions,
  the classifier `Classify` (the source's nested conditionals) and a reference
  classifier `FirstRule` over the explicit ordered rule list `RuleOrder`.
- `dispatch.dfy` (`Dispatch`): actions, bindings, events, pointer scaling, the
  binding walk `FirstMatch`/`Selected`, the one-hand step `HandStep`, and a whole
  run over frames (`HandsOf`, `RunHands`, `Trace`), with lemmas about all of them.
- `mouse_control.dfy` (`MouseControl`): the classes `HandGestureController` (fields
  `running`, `bindings`, `lastClickTime`; its methods loop and mutate in place) and
  `App` (the menu choices, `Start`, `Stop`). Each method of `HandGestureController`
  is proved against the pure functions of `Dispatch`; `App.Start` is stated
  against the menu invariant `ChoicesOk`.

Modelling decisions:

- Coordinates are mathematical reals. `int()` on a float is truncation toward
  zero (`Trunc`).
- A frame is either `Dropped` (the camera read failed and the iteration is
  skipped) or `Captured(hands)`.
- Each hand carries the clock reading taken while handling it, because the source
  reads the clock inside the per-hand loop.
- The screen size is a pair of constructor parameters.
- Injected input is returned as values: a pointer target and at most one `Event`
  per hand.

Two consequences of the code that its layout does not make obvious:

- Three fingers is unreachable. The three-fingers condition implies the peace
  condition, which is tested first, so `three_fingers` is never returned
  (`Classify`, `ThreeFingersImpliesPeace`). With the default table, `double_click`
  is bound to `three_fingers`, so no double click is ever injected
  (`DefaultNeverDoubleClicks`).
- A fist held over several frames clicks on every one of those frames, not once.
  There is no edge detection: with the default table, a hand's output is a click
  exactly when that hand is classified fist (`FistHandsClick`).

## Model

| member | source | states |
|---|---|---|
| `Gestures.Classify` | mouse_control.py:31-57 | the returned label's rule holds of the landmarks; a fist shape always yields `fist` whatever the thumb does; the label is never `three_fingers` |
| `Gestures.FirstRule` | mouse_control.py:38-57 | reference classifier over an explicit ordered rule list: its label's rule holds, it is in the list or is `none`, `none` when no rule holds, and whenever rule `k` holds and no earlier rule does, rule `k`'s label is returned |
| `Gestures.ClassifyFollowsRuleOrder` | mouse_control.py:38-57 | the nested conditionals equal first-match evaluation of the rule list fist, peace, three fingers, thumb up, thumb down |
| `Gestures.ThreeFingersImpliesPeace` | mouse_control.py:44-49 | the three-fingers condition implies the peace condition |
| `Gestures.PeaceExactly` | mouse_control.py:43-49 | the result is `peace` iff there is no fist and either the peace or the three-fingers condition holds |
| `Gestures.ThumbAndNoneExactly` | mouse_control.py:51-57 | `thumb_up` iff no fist, no peace and thumb tip above index MCP; `thumb_down` iff no fist, no peace, thumb tip not above index MCP and below pinky tip; `none` iff no rule holds |
| `Gestures.ReachableLabels` | mouse_control.py:38-57 | every label other than `three_fingers` is returned for some landmark set |
| `Dispatch.Trunc` | mouse_control.py:77-78 | `int()` of a real truncates toward zero: the result is within one below a non-negative value and within one above a negative one |
| `Dispatch.ScaleToScreen` | mouse_control.py:77-78 | a coordinate in [0,1] scales into [0, dimension]; coordinate 1 reaches the dimension itself; the result is the truncation of coordinate times dimension |
| `Dispatch.PointerTarget` | mouse_control.py:75-79 | for an index fingertip in [0,1]² the target lies within [0, screenW] × [0, screenH], and a coordinate of 1 gives exactly screenW or screenH |
| `Dispatch.Selected` | mouse_control.py:83-85 | nothing is selected iff no binding is triggered by the gesture; otherwise the action of a binding triggered by it with no earlier such binding |
| `Dispatch.EventOf` | mouse_control.py:85-95 | click, right click and double click inject their own distinct click events; scroll up injects a scroll of +100 and scroll down one of -100, and only the scrolls inject scrolls |
| `Dispatch.FirstMatch` | mouse_control.py:83-84 | the position found is a binding triggered by the gesture with no earlier binding triggered by it; none is found only if no binding is triggered |
| `Dispatch.HandStep` | mouse_control.py:72-96 | the pointer moves to the index tip; `last_click_time` becomes the current time exactly when the selected action is `click`; at most one event, the one of the first matching binding; no event iff nothing matched or a `double_click` was selected with at least 0.5 s elapsed |
| `Dispatch.EarliestBindingFires` | mouse_control.py:83-96 | of several bindings with the same trigger only the earliest in table order fires |
| `Dispatch.DoubleClickBoundary` | mouse_control.py:90-91 | a selected double click 0.499 s after the last click is injected; at exactly 0.5 s nothing is injected |
| `Dispatch.UnrecognisedDoesNothing` | mouse_control.py:83-84 | when no binding is triggered by `none`, a hand classified `none` only moves the pointer and leaves the last-click time alone |
| `Dispatch.DefaultSelection` | mouse_control.py:22-28 | in the default table fist selects click, peace right click, three fingers double click, thumb up scroll up, thumb down scroll down, `none` nothing |
| `Dispatch.HandsOf` | mouse_control.py:61-70 | when every captured frame carries complete landmark sets, so does every hand collected over the run |
| `Dispatch.RunHands` | mouse_control.py:69-96 | handling a list of hands yields exactly one output per hand |
| `Dispatch.Trace` | mouse_control.py:61-98 | a run of the capture loop over frames yields one output per hand found in a successfully read frame |
| `Dispatch.DroppedFrameChangesNothing` | mouse_control.py:62-64 | a failed camera read leaves the outputs and the last-click time of a run unchanged |
| `Dispatch.RunHandsAppend` | mouse_control.py:61-98 | handling two lists of hands one after the other equals handling their concatenation, with the last-click time threaded through |
| `Dispatch.ClicksMatchSelections` | mouse_control.py:83-87 | over a run, the number of clicks injected equals the number of hands whose first matching binding is `click` |
| `Dispatch.DefaultClickSelectors` | mouse_control.py:22-28 | with the default table, as many hands select `click` as are classified `fist` |
| `Dispatch.ClicksMatchFistHands` | mouse_control.py:61-96 | with the default table, the number of clicks over a run of frames equals the number of hands classified `fist` |
| `Dispatch.ClickExactlyOnSelection` | mouse_control.py:83-87 | for any table, output `i` of a run is a click exactly when hand `i`'s first matching binding is `click` |
| `Dispatch.FistHandsClick` | mouse_control.py:22-87 | with the default table, output `i` of a run is a click exactly when hand `i` is classified `fist` |
| `Dispatch.RunHandsAt` | mouse_control.py:61-96 | output `i` of a run is the one-hand step taken from the last-click time left by the hands before it |
| `Dispatch.LastClickFromClickHand` | mouse_control.py:85-87 | after a run the last-click time is the initial one or the clock reading of some hand that selected `click` |
| `Dispatch.DoubleClickNeedsEarlierClick` | mouse_control.py:85-91 | when the hand's clock is at least 0.5 s past the initial last-click time, a double click is injected only if an earlier hand selected `click` less than 0.5 s before |
| `Dispatch.DefaultNeverDoubleClicks` | mouse_control.py:22-49 | with the default table no output of a run is a double click |
| `MouseControl.ChoicesIgnoreNoGesture` | mouse_control.py:139-141 | a table built from the menus, which never offer `none`, selects nothing for `none` |
| `MouseControl.HandGestureController.constructor` | mouse_control.py:20-29 | the controller starts stopped, with the default table, last click time 0 and the given screen size |
| `MouseControl.HandGestureController.HandleHand` | mouse_control.py:71-96 | the output and the new `last_click_time` equal `HandStep` of the table, the screen and the old last-click time |
| `MouseControl.HandGestureController.HandleFrame` | mouse_control.py:69-96 | handling the hands of one image equals `RunHands` from the old last-click time |
| `MouseControl.HandGestureController.Run` | mouse_control.py:59-99 | the outputs and final last-click time of the capture loop equal `Trace` over the frames; the flag is clear afterwards |
| `MouseControl.App.constructor` | mouse_control.py:131-142 | the menus start at the controller's default table, and the new controller is stopped |
| `MouseControl.App.Choose` | mouse_control.py:136-142 | picking an offered gesture in one action's menu changes only that entry, and keeps the action keys in table order |
| `MouseControl.App.Start` | mouse_control.py:144-149 | when not running, the controller's table becomes the menu snapshot, with the fixed action keys in order; when running (only possible with a capture thread active), it is unchanged |
| `MouseControl.App.Stop` | mouse_control.py:153-154 | the controller's running flag is cleared |

## Left out

- Camera capture, mirroring, colour conversion and `cap.release()`: device I/O. A failed read is the `Dropped` frame.
- The hand landmark estimator and its confidence settings: foreign code. Its output is the landmark sequence given to the model. The z coordinate is not used by the core and is omitted.
- pyautogui (`moveTo` and its 0.1 s duration, `click`, `rightClick`, `doubleClick`, `scroll`, `size`): OS input injection. These are returned as `HandOutput` values, and the screen size is a constructor parameter.
- `time.time()`: each hand carries its clock reading as data.
- The display queue (`queue.put`) and the GUI's `update` polling: UI and concurrency.
- Threads: `Start` only takes the binding snapshot. Spawning the capture thread is not modelled, and neither is the race between a second `Start` and the thread setting `running`.
- Run: models the frames read before the flag is cleared as a finite sequence, and clears `running` at the end to stand for the external Stop. Checking the flag on each iteration is not modelled step by step.
- Floating-point rounding: coordinates and times are reals.
- Tk layout and menu labels (`setup_ui` besides the menu values): UI.
- DoubleClickNeedsEarlierClick: requires the hand's clock reading to be at least 0.5 s past the initial last-click time. The wall clock in the source guarantees this against the initial 0, but the model takes clock readings as unconstrained data.
