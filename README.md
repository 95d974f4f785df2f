# MouseSpotlight core in Dafny

MouseSpotlight is a background desktop utility. Pressing Ctrl twice in quick
succession toggles a full-screen translucent overlay that darkens the screen
except for a circular spotlight around the mouse cursor. The spotlight grows
or shrinks with an eased half-second animation.

This project models the three parts of `MouseSpotlight.py` that carry that
behaviour:

- the double-tap detector of `KeyboardListener`. It is a class with the
  listener's three fields. `OnPress` (the press handler, `keyHandler`) and
  `OnRelease` (`setCtrlRelease`) update them in place. `OnPress` returns
  whether it emits the toggle signal. Each handler is specified by a pure step
  function, `PressStep` or `ReleaseStep`. `Run` feeds a whole stream of key
  events to the detector, and lemmas about `Run` state where a toggle can come
  from (`gesture.dfy`);
- the cubic ease-in-out curve `easeInOutBezierCurve`, as a function with
  lemmas about its end points, range, monotonicity and symmetry
  (`easing.dfy`);
- the animation and visibility controller of the `MouseSpotlight` window.
  It is a class with the widget's animation fields and the methods
  `ToggleSpotlight`, `StartAnimation` and `UpdateAnimation`. The window's
  `show`, `raise_`, `hide` and `update` requests are recorded in a ghost log,
  `hostCalls`. The object invariant `Valid` ties the fields to the four phases
  Hidden, Showing, Shown and Hiding. It also says that the window is on screen
  exactly when the phase is not Hidden (`spotlight.dfy`);
- the wiring of the listener's signal to `toggleSpotlight`, and an end-to-end
  run made of a double tap that shows the spotlight and a second one that
  hides it (`controller.dfy`).

Time is not read from a clock. Every handler that reads `time.time()` in the
program takes the time as a `now: real` parameter. All arithmetic is on
Dafny's `real`.

Where the design description and the code differ, the model follows the code:

- Releasing a key other than Ctrl changes nothing (`Gesture.OtherKeyRelease`).
  Only a press of another key resets the detector.
- A Ctrl press that comes at or after the 0.3 s window resets the detector.
  It does not become a new first press, so the next tap starts a new gesture
  rather than completing one (`Gesture.LateTapIsLost`).
- A held Ctrl key that auto-repeats inside the window leaves the state
  unchanged (`Gesture.RepeatPressInWindow`).
- Only hiding starts from the current radius and opacity. Showing always
  restarts from radius 800 and opacity 0, even when it interrupts a hide that
  is still running. Every toggle restarts the animation clock at `now`.
- An animation ends on the first tick whose normalised progress reaches 1.
  That tick sets the values exactly to the target.

## Model

| member | source | states |
|---|---|---|
| `Gesture.PressStep` | MouseSpotlight.py:47-65 | After any press the release flag implies the pressed flag. A press emits a toggle exactly when the key is a Ctrl key, both flags are set and `now - lastPress < 0.3`. After a toggle both flags are clear and `lastPress` is kept. |
| `Gesture.ReleaseStep` | MouseSpotlight.py:67-69 | A release keeps the pressed flag and `lastPress`. It sets the release flag exactly when the key is a Ctrl key and Ctrl is marked pressed, and never clears it. It preserves "release implies pressed". |
| `Gesture.KeyboardListener.constructor` | MouseSpotlight.py:38-42 | The listener starts with both flags false and `lastPress` 0. |
| `Gesture.KeyboardListener.OnPress` | MouseSpotlight.py:47-65 | The new fields and the emitted toggle are those of `PressStep` on the old fields. Afterwards "release implies pressed" holds. |
| `Gesture.KeyboardListener.OnRelease` | MouseSpotlight.py:67-69 | The new fields are `ReleaseStep` of the old ones. "Release implies pressed" is preserved. |
| `Gesture.FirstPress` | MouseSpotlight.py:49-52 | A Ctrl press while Ctrl is not marked pressed sets the pressed flag, records `lastPress = now` and emits nothing. |
| `Gesture.RepeatPressInWindow` | MouseSpotlight.py:54-58 | A repeated Ctrl press inside the window, with no release since the first press, changes nothing and emits nothing. |
| `Gesture.StalePress` | MouseSpotlight.py:59-61 | A Ctrl press at `now - lastPress >= 0.3` clears both flags, emits nothing and leaves `lastPress` unchanged. |
| `Gesture.OtherKeyPress` | MouseSpotlight.py:63-65 | A press of any other key clears both flags, emits nothing and keeps `lastPress`. |
| `Gesture.OtherKeyRelease` | MouseSpotlight.py:67-69 | A release of any other key changes no state. |
| `Gesture.CtrlVariantsAgree` | MouseSpotlight.py:48 | Left and right Ctrl give the same press step and the same release step. |
| `Gesture.Apply` | MouseSpotlight.py:71 | Each event goes to its hook: a press to the press handler, a release to the release handler. Only a Ctrl press can emit, and "release implies pressed" is preserved. |
| `Gesture.Run` | MouseSpotlight.py:47-72 | Running a stream of events yields one toggle flag per event. "Release implies pressed" holds at the end if it held at the start. Only Ctrl presses emit. |
| `Gesture.ToggleOrigin` | MouseSpotlight.py:47-69 | Each toggle at event j has one of two origins. It can follow a Ctrl press i and a Ctrl release k in the stream, with i < k < j, press j less than 0.3 s after press i, and no other key pressed between i and j. Otherwise it follows a press recorded in the start state, under the same timing and no-other-press conditions, with a release in the start state or in the stream. |
| `Gesture.ToggleNeedsDoubleTap` | MouseSpotlight.py:47-69 | From a reset detector, every toggle is preceded by a Ctrl press less than 0.3 s earlier, then a Ctrl release, with no other key pressed in between. |
| `Gesture.HeldCtrlNeverToggles` | MouseSpotlight.py:54-69 | A stream with no Ctrl release, started without the release flag, emits no toggle and never sets the release flag. This covers any number of repeated presses and any other keys. |
| `Gesture.DoubleTap` | MouseSpotlight.py:47-69 | From a reset detector, press, release, press of Ctrl (either side) emits only on the second press. It emits exactly when the second press is less than 0.3 s after the first. Either way the detector ends reset. |
| `Gesture.ReleasesThenQuickPress` | MouseSpotlight.py:54-69 | Start with a Ctrl press recorded. Feed any run of key releases that includes a Ctrl release, or follows one already recorded. A Ctrl press less than 0.3 s after the recorded press then toggles, and the listener ends reset. |
| `Gesture.DoubleTapToggles` | MouseSpotlight.py:47-69 | From a reset listener, any stream of a Ctrl press, key releases that include a Ctrl release, and a Ctrl press less than 0.3 s after the first toggles on that last press. The listener ends reset. |
| `Gesture.WindowBoundary` | MouseSpotlight.py:54 | Taps 0.29999 s apart toggle and taps 0.3 s apart do not: the bound is exclusive. |
| `Gesture.LateTapIsLost` | MouseSpotlight.py:49-61 | After a tap and a second tap 0.3 s or more later, a third tap never toggles, however soon it comes. It leaves the detector as after a fresh first press at the third tap's time. |
| `Easing.Pow` | MouseSpotlight.py:208 | Python's `**` with a whole exponent: a power of a non-negative base is non-negative; a positive power of zero is zero. |
| `Easing.Ease` | MouseSpotlight.py:207-208 | Below one half the curve is `4t^3`. From one half on, `1 - (-2t + 2)^3 / 2` equals `1 - 4(1 - t)^3`, the first piece mirrored. |
| `Easing.EaseAtStart` | MouseSpotlight.py:207-208 | `eased(0) = 0`. |
| `Easing.EaseAtMiddle` | MouseSpotlight.py:207-208 | `eased(0.5) = 0.5`, and the first piece `4t^3` also gives 0.5 at 0.5, so the two pieces meet. |
| `Easing.EaseAtEnd` | MouseSpotlight.py:207-208 | `eased(1) = 1`. |
| `Easing.EaseRange` | MouseSpotlight.py:207-208 | For t in [0, 1], `eased(t)` lies in [0, 1]. It is below 0.5 on the first half and at least 0.5 on the second. |
| `Easing.EaseMonotone` | MouseSpotlight.py:207-208 | On [0, 1] the curve is monotone non-decreasing. |
| `Easing.EaseSymmetric` | MouseSpotlight.py:207-208 | `eased(1 - t) = 1 - eased(t)` for every t: easing out mirrors easing in. |
| `Spotlight.Progress` | MouseSpotlight.py:190-191 | Progress is at most 1 and is non-negative for non-negative elapsed time. It equals 1 exactly when elapsed time reaches the 0.5 s duration. Before that it is elapsed time over duration. |
| `Spotlight.Interpolate` | MouseSpotlight.py:194-195 | `start + (target - start) * eased` gives the start value at weight 0 and the target at weight 1. |
| `Spotlight.AnimationValue` | MouseSpotlight.py:190-195 | The value a tick shows `elapsed` seconds in. At elapsed time 0 it is the start value. At 0.5 s or more it is exactly the target. |
| `Spotlight.InterpolateBetween` | MouseSpotlight.py:194-195 | Interpolating by a weight in [0, 1] gives a value between the start and the target. |
| `Spotlight.InterpolateApproaches` | MouseSpotlight.py:194-195 | A larger weight in [0, 1] gives a value between the value for a smaller weight and the target. |
| `Spotlight.AnimationHalfway` | MouseSpotlight.py:190-195 | At a quarter second a tick shows the midpoint of start and target. |
| `Spotlight.AnimationBetween` | MouseSpotlight.py:190-195 | For any non-negative elapsed time the value shown lies between start and target. |
| `Spotlight.AnimationApproaches` | MouseSpotlight.py:190-195 | Over non-negative elapsed times the value moves monotonically towards the target. A later value lies between an earlier one and the target, so it never overshoots or backs up. |
| `Spotlight.GlowAlpha` | MouseSpotlight.py:170 | The glow ring's alpha `180 * opacity / maxOpacity` lies in [0, 180] for opacity in [0, maxOpacity] and is 180 at full opacity. |
| `Spotlight.MouseSpotlight.constructor` | MouseSpotlight.py:83-92 | The window starts Hidden: radius 800, opacity 0, not animating, not visible, with target radius 80 and target opacity 0. No request has been sent, the invariant holds and all values are in range. |
| `Spotlight.MouseSpotlight.StartAnimation` | MouseSpotlight.py:232-242 | Records the start time and sets animating. Sets start and target radius and opacity as given, with current equal to start. Changes nothing else and sends no request. |
| `Spotlight.MouseSpotlight.ToggleSpotlight` | MouseSpotlight.py:211-229 | Negates `visible` and starts an animation at `now` with current equal to start. From visible it starts at the old radius and opacity, heading to (800, 0), with no request: there is no jump. From hidden it sends show then raise and starts at (800, 0), heading to (80, 200). It keeps the invariant and the ranges, and moves to Hiding or Showing. |
| `Spotlight.MouseSpotlight.UpdateAnimation` | MouseSpotlight.py:186-204 | When not animating: only a repaint request, nothing else changes. When animating: radius and opacity are the eased interpolation at the elapsed time, and animating stays on exactly while elapsed < 0.5 s. At completion the values equal the target exactly and a hide request follows the repaint exactly when not visible. The phase moves from Showing to Shown or from Hiding to Hidden at completion. Values stay between start and target when time does not run backwards. Start, target, start time and visibility never change. The invariant is kept. |
| `Controller.KeyPressed` | MouseSpotlight.py:110-113 | A key press steps the listener as `PressStep` says. A toggle it emits is delivered to `ToggleSpotlight` at the same time, with all of that method's guarantees: visibility flips, a new animation starts at `now` with current equal to start, and the phase becomes Hiding or Showing. A hide starts from the old radius and opacity, heading to (800, 0), with no request: there is no jump. A show sends show then raise and runs from (800, 0) to (80, 200). Values stay in range. With no toggle the window object is untouched. |
| `Controller.DoubleTapThenSettle` | MouseSpotlight.py:186-242 | From a reset listener and a settled window, a quick double tap and one tick 0.5 s later settle the spotlight in the opposite phase (Shown or Hidden). When hiding, the window receives exactly a repaint and one hide. |
| `Controller.DoubleTapShowsThenHides` | MouseSpotlight.py:186-242 | From start-up, a double tap then a tick 0.5 s later give Shown, radius 80, opacity 200. A second double tap and tick give Hidden, radius 800, opacity 0, with exactly one hide request during the hide. |

## Left out

- `Resources.getPath`: looks up files in the application bundle; it is filesystem glue.
- `initUI`, `initAnimation`, `initListener`, `initTray`, `openMenu`, `information`, `exitAction` and the start-up block: window, timer, tray and dialog set-up for Qt. `initUI` shows the window full screen and hides it again at once. The model instead starts with an empty request log, which means the window is off screen.
- The 16 ms `QTimer`: each timer tick is one call of `UpdateAnimation`, with the time chosen by the caller.
- `KeyboardListener.run`, the pynput listener thread and the cross-thread `pyqtSignal`: this is concurrency and a foreign library. The emitted signal is the press step's result. It is delivered to `ToggleSpotlight` at once, with the time of the key press. In the program the slot runs later on the UI thread and reads the clock itself.
- `paintEvent`: drawing with QPainter, the radial gradient, the mask path and the cursor position read from the host. Only the glow alpha bound (`GlowAlpha`) is stated. Python's `int()` truncation of the alpha values is not modelled.
- Floating point: `time.time()` and the easing arithmetic are modelled with exact `real` numbers, not IEEE doubles.
- The field `self.opacity`: it is assigned once and never read.
- `startRadius`, `startOpacity` and `animationStartTime` are not assigned by the program's constructor. They are read only while animating, which needs a prior `startAnimation`. The model gives them the values 800, 0 and 0.
- Key identity: pynput keys other than `ctrl_l` and `ctrl_r` are modelled as `Other(name)`.
- Gesture.ToggleNeedsDoubleTap: states only that a toggle implies an earlier quick press, release and no other press. The converse is proved (`Gesture.DoubleTapToggles`, `Gesture.ReleasesThenQuickPress`) when only key releases come between the two presses. It does not hold for every stream that `TapsAt` describes. If the first press arrives while a press is already recorded, the listener does not record it. An extra quick Ctrl press between the two toggles itself and resets the listener.
- Spotlight.MouseSpotlight.UpdateAnimation: the "between start and target" and range guarantees are stated only for ticks with `now` at or after the animation's start time. The program does not guard against a clock that runs backwards, and with negative elapsed time the curve leaves [0, 1].
