/** The animation and visibility controller of the `MouseSpotlight` window.

    A toggle flips the logical visibility and starts a half-second eased
    animation of the spotlight's radius and of the overlay's opacity; a timer
    tick advances the animation from the wall-clock time, passed in as `now`.
    The window's `show`, `raise_`, `hide` and `update` requests are recorded
    in a ghost log instead of being sent to a window system.
 */
module Spotlight {
  import opened Easing

  /** Length of one animation, in seconds. */
  const ANIMATION_DURATION: real := 0.5
  /** Opacity of the dimming overlay when fully shown (on a 0-255 scale). */
  const MAX_OPACITY: real := 200.0
  /** Radius of the spotlight when hidden: wide enough to clear the screen. */
  const HIDDEN_RADIUS: real := 800.0
  /** Radius of the spotlight when shown. */
  const SHOWN_RADIUS: real := 80.0

  /** A request to the host window. */
  datatype HostCall = Show | Raise | Hide | Update

  /** Whether the window is on screen after the given requests: the last of
      `Show` and `Hide` decides; the window starts off screen. */
  ghost function WindowShown(log: seq<HostCall>): bool
  {
    if log == [] then false
    else if log[|log| - 1] == Show then true
    else if log[|log| - 1] == Hide then false
    else WindowShown(log[..|log| - 1])
  }

  lemma WindowShownAfter(log: seq<HostCall>, c: HostCall)
    ensures WindowShown(log + [c]) == if c == Show then true else if c == Hide then false else WindowShown(log)
  {
    assert (log + [c])[..|log|] == log;
  }

  /** The four states of the spotlight as a user sees it. */
  datatype Phase = Hidden | Showing | Shown | Hiding

  /** `x` lies between `a` and `b`, in either order. */
  predicate Between(x: real, a: real, b: real) {
    (a <= x <= b) || (b <= x <= a)
  }

  /** Normalised progress of an animation `elapsed` seconds after its start,
      clamped at 1. */
  function Progress(elapsed: real): (p: real)
    ensures p <= 1.0
    ensures 0.0 <= elapsed ==> 0.0 <= p
    ensures p == 1.0 <==> elapsed >= ANIMATION_DURATION
    ensures elapsed < ANIMATION_DURATION ==> p * ANIMATION_DURATION == elapsed
  {
    var raw := elapsed / ANIMATION_DURATION;
    if 1.0 < raw then 1.0 else raw
  }

  /** Linear interpolation between `from` and `to` by the weight `w`: weight 0
      gives `from` and weight 1 gives `to`. */
  function Interpolate(from: real, to: real, w: real): (v: real)
    ensures w == 0.0 ==> v == from
    ensures w == 1.0 ==> v == to
  {
    from + (to - from) * w
  }

  /** The value an animation from `from` to `to` shows `elapsed` seconds in.
      It shows its start value at its start time and arrives exactly at its
      target once its duration is over. */
  function AnimationValue(from: real, to: real, elapsed: real): (v: real)
    ensures elapsed == 0.0 ==> v == from
    ensures ANIMATION_DURATION <= elapsed ==> v == to
  {
    EaseAtStart();
    EaseAtEnd();
    Interpolate(from, to, Ease(Progress(elapsed)))
  }

  lemma ScaleBetween(d: real, w: real)
    requires 0.0 <= w <= 1.0
    ensures Between(d * w, 0.0, d)
  {
  }

  lemma InterpolateBetween(from: real, to: real, w: real)
    requires 0.0 <= w <= 1.0
    ensures Between(Interpolate(from, to, w), from, to)
  {
    var d := to - from;
    ScaleBetween(d, w);
    assert Interpolate(from, to, w) == from + d * w;
  }

  /** Half way through its duration an animation is half way there. */
  lemma AnimationHalfway(from: real, to: real)
    ensures AnimationValue(from, to, ANIMATION_DURATION / 2.0) == (from + to) / 2.0
  {
    assert Progress(ANIMATION_DURATION / 2.0) == 0.5;
    EaseAtMiddle();
  }

  /** While time does not run backwards, an animation never leaves the
      stretch between its start and target values. */
  lemma AnimationBetween(from: real, to: real, elapsed: real)
    requires 0.0 <= elapsed
    ensures Between(AnimationValue(from, to, elapsed), from, to)
  {
    EaseRange(Progress(elapsed));
    InterpolateBetween(from, to, Ease(Progress(elapsed)));
  }

  /** An animation approaches its target monotonically: a later value lies
      between an earlier one and the target, so it never overshoots or backs up. */
  lemma AnimationApproaches(from: real, to: real, e1: real, e2: real)
    requires 0.0 <= e1 <= e2
    ensures Between(AnimationValue(from, to, e2), AnimationValue(from, to, e1), to)
  {
    var p1, p2 := Progress(e1), Progress(e2);
    EaseMonotone(p1, p2);
    EaseRange(p1);
    EaseRange(p2);
    InterpolateApproaches(from, to, Ease(p1), Ease(p2));
  }

  lemma InterpolateApproaches(from: real, to: real, w1: real, w2: real)
    requires 0.0 <= w1 <= w2 <= 1.0
    ensures Between(Interpolate(from, to, w2), Interpolate(from, to, w1), to)
  {
    var d := to - from;
    assert Interpolate(from, to, w2) - Interpolate(from, to, w1) == d * (w2 - w1);
    assert to - Interpolate(from, to, w2) == d * (1.0 - w2);
    ScaleBetween(d, w2 - w1);
    ScaleBetween(d, 1.0 - w2);
  }

  /** Alpha of the glow ring's inner colour at overlay opacity `opacity`. */
  function GlowAlpha(opacity: real): (a: real)
    ensures 0.0 <= opacity <= MAX_OPACITY ==> 0.0 <= a <= 180.0
    ensures opacity == MAX_OPACITY ==> a == 180.0
  {
    180.0 * opacity / MAX_OPACITY
  }

  /** The overlay window. */
  class MouseSpotlight {
    var radius: real
    var currentOpacity: real
    var startRadius: real
    var targetRadius: real
    var startOpacity: real
    var targetOpacity: real
    var animationStartTime: real
    var animating: bool
    var visible: bool
    /** Every request sent to the host window, oldest first. */
    ghost var hostCalls: seq<HostCall>

    function CurrentPhase(): Phase
      reads this
    {
      if visible then (if animating then Showing else Shown)
      else (if animating then Hiding else Hidden)
    }

    /** The object invariant: the animation heads where `visible` says, a
        settled spotlight sits exactly at its end point, and the window is on
        screen in every phase but `Hidden`. */
    ghost predicate Valid()
      reads this
    {
      (visible ==> startRadius == HIDDEN_RADIUS && startOpacity == 0.0 &&
                   targetRadius == SHOWN_RADIUS && targetOpacity == MAX_OPACITY) &&
      (!visible && animating ==> targetRadius == HIDDEN_RADIUS && targetOpacity == 0.0) &&
      (CurrentPhase() == Shown ==> radius == SHOWN_RADIUS && currentOpacity == MAX_OPACITY) &&
      (CurrentPhase() == Hidden ==> radius == HIDDEN_RADIUS && currentOpacity == 0.0) &&
      (WindowShown(hostCalls) <==> CurrentPhase() != Hidden)
    }

    /** Radius and opacity, current and at the start and target of the
        animation, lie between the hidden and shown end points. */
    ghost predicate InRange()
      reads this
    {
      SHOWN_RADIUS <= radius <= HIDDEN_RADIUS && 0.0 <= currentOpacity <= MAX_OPACITY &&
      SHOWN_RADIUS <= startRadius <= HIDDEN_RADIUS && 0.0 <= startOpacity <= MAX_OPACITY &&
      SHOWN_RADIUS <= targetRadius <= HIDDEN_RADIUS && 0.0 <= targetOpacity <= MAX_OPACITY
    }

    constructor ()
      ensures Valid() && InRange() && CurrentPhase() == Hidden
      ensures radius == HIDDEN_RADIUS && currentOpacity == 0.0
      ensures targetRadius == SHOWN_RADIUS && targetOpacity == 0.0
      ensures hostCalls == []
    {
      radius := HIDDEN_RADIUS;
      targetRadius := SHOWN_RADIUS;
      targetOpacity := 0.0;
      animating := false;
      visible := false;
      currentOpacity := 0.0;
      startRadius := HIDDEN_RADIUS;
      startOpacity := 0.0;
      animationStartTime := 0.0;
      hostCalls := [];
    }

    /** Starts an animation at time `now` from the given start values. */
    method StartAnimation(now: real, startR: real, targetR: real, startO: real, targetO: real)
      modifies this
      ensures animationStartTime == now && animating
      ensures startRadius == startR && targetRadius == targetR && radius == startR
      ensures startOpacity == startO && targetOpacity == targetO && currentOpacity == startO
      ensures visible == old(visible) && hostCalls == old(hostCalls)
    {
      animationStartTime := now;
      animating := true;

      startRadius := startR;
      targetRadius := targetR;
      radius := startR;

      startOpacity := startO;
      targetOpacity := targetO;
      currentOpacity := startO;
    }

    /** Flips the visibility. Hiding starts where the spotlight is now;
        showing puts the window on screen and restarts from the hidden end point. */
    method ToggleSpotlight(now: real)
      requires Valid()
      modifies this
      ensures Valid()
      ensures visible == !old(visible) && animating && animationStartTime == now
      ensures radius == startRadius && currentOpacity == startOpacity
      ensures CurrentPhase() == if old(visible) then Hiding else Showing
      ensures old(visible) ==>
                startRadius == old(radius) && startOpacity == old(currentOpacity) &&
                targetRadius == HIDDEN_RADIUS && targetOpacity == 0.0 &&
                hostCalls == old(hostCalls)
      ensures !old(visible) ==>
                startRadius == HIDDEN_RADIUS && startOpacity == 0.0 &&
                targetRadius == SHOWN_RADIUS && targetOpacity == MAX_OPACITY &&
                hostCalls == old(hostCalls) + [Show, Raise]
      ensures old(InRange()) ==> InRange()
    {
      if visible {
        StartAnimation(now, radius, HIDDEN_RADIUS, currentOpacity, 0.0);
        visible := false;
      } else {
        WindowShownAfter(hostCalls, Show);
        WindowShownAfter(hostCalls + [Show], Raise);
        hostCalls := hostCalls + [Show];
        hostCalls := hostCalls + [Raise];
        StartAnimation(now, HIDDEN_RADIUS, SHOWN_RADIUS, 0.0, MAX_OPACITY);
        visible := true;
      }
    }

    /** One timer tick at time `now`: advances a running animation, asks for
        a repaint, and on completion takes a logically hidden window off screen. */
    method UpdateAnimation(now: real)
      requires Valid()
      modifies this
      ensures Valid()
      ensures startRadius == old(startRadius) && targetRadius == old(targetRadius)
      ensures startOpacity == old(startOpacity) && targetOpacity == old(targetOpacity)
      ensures animationStartTime == old(animationStartTime) && visible == old(visible)
      ensures !old(animating) ==>
                radius == old(radius) && currentOpacity == old(currentOpacity) && !animating &&
                hostCalls == old(hostCalls) + [Update]
      ensures old(animating) ==>
                var elapsed := now - animationStartTime;
                radius == AnimationValue(startRadius, targetRadius, elapsed) &&
                currentOpacity == AnimationValue(startOpacity, targetOpacity, elapsed) &&
                (animating <==> elapsed < ANIMATION_DURATION) &&
                hostCalls == old(hostCalls) + [Update] +
                             (if elapsed >= ANIMATION_DURATION && !visible then [Hide] else [])
      ensures old(animating) && now - animationStartTime >= ANIMATION_DURATION ==>
                radius == targetRadius && currentOpacity == targetOpacity && !animating
      ensures CurrentPhase() ==
                if old(animating) && now - animationStartTime >= ANIMATION_DURATION
                then (if visible then Shown else Hidden)
                else old(CurrentPhase())
      ensures old(animating) && now >= animationStartTime ==>
                Between(radius, startRadius, targetRadius) &&
                Between(currentOpacity, startOpacity, targetOpacity)
      ensures old(InRange()) && (old(animating) ==> now >= animationStartTime) ==> InRange()
    {
      WindowShownAfter(hostCalls, Update);
      if animating {
        var elapsed := now - animationStartTime;
        var progress := Progress(elapsed);
        var eased := Ease(progress);

        radius := Interpolate(startRadius, targetRadius, eased);
        currentOpacity := Interpolate(startOpacity, targetOpacity, eased);

        hostCalls := hostCalls + [Update];

        if progress >= 1.0 {
          animating := false;
          if !visible {
            WindowShownAfter(hostCalls, Hide);
            hostCalls := hostCalls + [Hide];
          }
        }
        if elapsed >= 0.0 {
          AnimationBetween(startRadius, targetRadius, elapsed);
          AnimationBetween(startOpacity, targetOpacity, elapsed);
        }
      } else {
        hostCalls := hostCalls + [Update];
      }
    }
  }
}
