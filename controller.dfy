/** The wiring between the keyboard listener and the overlay window: the
    listener's toggle signal is connected to `MouseSpotlight.ToggleSpotlight`.
    The signal crosses threads in the program; here it is delivered at once,
    at the time of the key press that raised it.
 */
module Controller {
  import opened Gesture
  import opened Spotlight

  /** A key press reaches the listener; a recognised double tap toggles the spotlight. */
  method KeyPressed(listener: KeyboardListener, spotlight: MouseSpotlight, key: Key, now: real)
    returns (toggled: bool)
    requires spotlight.Valid()
    modifies listener, spotlight
    ensures PressOutcome(listener.State(), toggled) == PressStep(old(listener.State()), key, now)
    ensures listener.Valid() && spotlight.Valid()
    ensures toggled ==>
              spotlight.visible == !old(spotlight.visible) && spotlight.animating &&
              spotlight.animationStartTime == now &&
              spotlight.radius == spotlight.startRadius &&
              spotlight.currentOpacity == spotlight.startOpacity &&
              spotlight.CurrentPhase() == (if old(spotlight.visible) then Hiding else Showing)
    ensures toggled && old(spotlight.visible) ==>
              spotlight.startRadius == old(spotlight.radius) &&
              spotlight.startOpacity == old(spotlight.currentOpacity) &&
              spotlight.targetRadius == HIDDEN_RADIUS && spotlight.targetOpacity == 0.0 &&
              spotlight.hostCalls == old(spotlight.hostCalls)
    ensures toggled && !old(spotlight.visible) ==>
              spotlight.startRadius == HIDDEN_RADIUS && spotlight.startOpacity == 0.0 &&
              spotlight.targetRadius == SHOWN_RADIUS && spotlight.targetOpacity == MAX_OPACITY &&
              spotlight.hostCalls == old(spotlight.hostCalls) + [Show, Raise]
    ensures toggled ==> (old(spotlight.InRange()) ==> spotlight.InRange())
    ensures !toggled ==> unchanged(spotlight)
  {
    toggled := listener.OnPress(key, now);
    if toggled {
      spotlight.ToggleSpotlight(now);
    }
  }

  /** A quick double tap of Ctrl (a press at `t`, a release, a press at
      `t + 0.2`), then a tick half a second after the second press. */
  method DoubleTapThenSettle(listener: KeyboardListener, spotlight: MouseSpotlight, t: real)
    requires listener.Valid() && IsIdle(listener.State()) && spotlight.Valid()
    requires !spotlight.animating
    modifies listener, spotlight
    ensures listener.Valid() && IsIdle(listener.State()) && spotlight.Valid()
    ensures spotlight.CurrentPhase() == if old(spotlight.visible) then Hidden else Shown
    ensures old(spotlight.visible) ==> spotlight.hostCalls == old(spotlight.hostCalls) + [Update, Hide]
  {
    var toggled := KeyPressed(listener, spotlight, CtrlLeft, t);
    listener.OnRelease(CtrlRight);
    toggled := KeyPressed(listener, spotlight, CtrlLeft, t + 0.2);
    assert toggled;
    assert spotlight.animationStartTime == t + 0.2;
    spotlight.UpdateAnimation(t + 0.2 + ANIMATION_DURATION);
    assert !spotlight.animating;
  }

  /** From start-up, a double tap of Ctrl followed by half a second of ticks
      leaves the spotlight shown at radius 80 and opacity 200; a second double
      tap and half a second more leave it hidden at radius 800 and opacity 0,
      with exactly one request to hide the window on the way. */
  method DoubleTapShowsThenHides(t0: real, t1: real)
    returns (shown: Phase, shownRadius: real, shownOpacity: real,
             hidden: Phase, hiddenRadius: real, hiddenOpacity: real,
             ghost callsWhileHiding: seq<HostCall>)
    ensures shown == Shown && shownRadius == SHOWN_RADIUS && shownOpacity == MAX_OPACITY
    ensures hidden == Hidden && hiddenRadius == HIDDEN_RADIUS && hiddenOpacity == 0.0
    ensures callsWhileHiding == [Update, Hide]
  {
    var listener := new KeyboardListener();
    var spotlight := new MouseSpotlight();

    DoubleTapThenSettle(listener, spotlight, t0);
    shown, shownRadius, shownOpacity := spotlight.CurrentPhase(), spotlight.radius, spotlight.currentOpacity;

    ghost var before := spotlight.hostCalls;
    DoubleTapThenSettle(listener, spotlight, t1);
    hidden, hiddenRadius, hiddenOpacity := spotlight.CurrentPhase(), spotlight.radius, spotlight.currentOpacity;
    callsWhileHiding := spotlight.hostCalls[|before|..];
  }
}
