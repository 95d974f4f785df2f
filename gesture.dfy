/** The double-tap detector of MouseSpotlight's `KeyboardListener`.

    The listener keeps three fields and updates them on every key press and
    key release reported by the global keyboard hook. A press may emit the
    toggle signal; here that signal is the press step's boolean result.
    Wall-clock time is passed in as `now` instead of being read by the step.
 */
module Gesture {

  /** Keys as the keyboard hook reports them; only the two Ctrl keys matter. */
  datatype Key = CtrlLeft | CtrlRight | Other(name: string)

  /** Left and right Ctrl are one logical key. */
  predicate IsCtrl(k: Key) {
    k.CtrlLeft? || k.CtrlRight?
  }

  /** Width of the double-tap window in seconds; the bound is exclusive. */
  const DOUBLE_TAP_WINDOW: real := 0.3

  /** The listener's three fields, as a value. */
  datatype GestureState = GestureState(isCtrlPressed: bool, isCtrlRelease: bool, lastPress: real)

  /** The state the listener is constructed in. */
  const INITIAL := GestureState(false, false, 0.0)

  /** Idle: a reset state, in which the next Ctrl press is a first press. */
  predicate IsIdle(s: GestureState) {
    !s.isCtrlPressed && !s.isCtrlRelease
  }

  /** The release flag is only ever set while Ctrl is marked as pressed. */
  predicate Inv(s: GestureState) {
    s.isCtrlRelease ==> s.isCtrlPressed
  }

  datatype PressOutcome = PressOutcome(next: GestureState, toggle: bool)

  /** One key press: the specification of `KeyboardListener.OnPress`. */
  function PressStep(s: GestureState, key: Key, now: real): (r: PressOutcome)
    ensures Inv(r.next)
    ensures r.toggle <==> IsCtrl(key) && s.isCtrlPressed && s.isCtrlRelease && now - s.lastPress < DOUBLE_TAP_WINDOW
    ensures r.toggle ==> IsIdle(r.next) && r.next.lastPress == s.lastPress
  {
    if IsCtrl(key) then
      if !s.isCtrlPressed then
        PressOutcome(s.(isCtrlPressed := true, lastPress := now), false)
      else if now - s.lastPress < DOUBLE_TAP_WINDOW then
        if s.isCtrlRelease && s.isCtrlPressed then
          PressOutcome(s.(isCtrlPressed := false, isCtrlRelease := false), true)
        else
          PressOutcome(s, false)
      else
        PressOutcome(s.(isCtrlPressed := false, isCtrlRelease := false), false)
    else
      PressOutcome(s.(isCtrlPressed := false, isCtrlRelease := false), false)
  }

  /** One key release: the specification of `KeyboardListener.OnRelease`. */
  function ReleaseStep(s: GestureState, key: Key): (r: GestureState)
    ensures Inv(s) ==> Inv(r)
    ensures r.isCtrlPressed == s.isCtrlPressed && r.lastPress == s.lastPress
    ensures r.isCtrlRelease <==> s.isCtrlRelease || (IsCtrl(key) && s.isCtrlPressed)
  {
    if IsCtrl(key) && s.isCtrlPressed then s.(isCtrlRelease := true) else s
  }

  /** The listener object. Its methods change the three fields in place. */
  class KeyboardListener {
    var isCtrlPressed: bool
    var isCtrlRelease: bool
    var lastPress: real

    function State(): GestureState
      reads this
    {
      GestureState(isCtrlPressed, isCtrlRelease, lastPress)
    }

    ghost predicate Valid()
      reads this
    {
      Inv(State())
    }

    constructor ()
      ensures State() == INITIAL && Valid()
    {
      lastPress := 0.0;
      isCtrlPressed := false;
      isCtrlRelease := false;
    }

    /** The press handler; `toggle` stands for emitting the toggle signal. */
    method OnPress(key: Key, now: real) returns (toggle: bool)
      modifies this
      ensures PressOutcome(State(), toggle) == PressStep(old(State()), key, now)
      ensures Valid()
    {
      toggle := false;
      if IsCtrl(key) {
        if !isCtrlPressed {
          isCtrlPressed := true;
          lastPress := now;
          return;
        }
        if now - lastPress < DOUBLE_TAP_WINDOW {
          if isCtrlRelease && isCtrlPressed {
            toggle := true;
            isCtrlRelease := false;
            isCtrlPressed := false;
          }
        } else {
          isCtrlRelease := false;
          isCtrlPressed := false;
        }
      } else {
        isCtrlRelease := false;
        isCtrlPressed := false;
      }
    }

    /** The release handler. */
    method OnRelease(key: Key)
      modifies this
      ensures State() == ReleaseStep(old(State()), key)
      ensures old(Valid()) ==> Valid()
    {
      if IsCtrl(key) && isCtrlPressed {
        isCtrlRelease := true;
      }
    }
  }

  // ---------------------------------------------------------------------
  // Single-step properties

  /** A first Ctrl press marks Ctrl down, records the time and emits nothing. */
  lemma FirstPress(s: GestureState, key: Key, now: real)
    requires IsCtrl(key) && !s.isCtrlPressed
    ensures PressStep(s, key, now) == PressOutcome(GestureState(true, s.isCtrlRelease, now), false)
  {
  }

  /** A repeated Ctrl press inside the window, with no release since the
      first press, changes nothing (a held key auto-repeating). */
  lemma RepeatPressInWindow(s: GestureState, key: Key, now: real)
    requires IsCtrl(key) && s.isCtrlPressed && !s.isCtrlRelease
    requires now - s.lastPress < DOUBLE_TAP_WINDOW
    ensures PressStep(s, key, now) == PressOutcome(s, false)
  {
  }

  /** A Ctrl press at or after the window's end resets both flags, emits
      nothing and does not record itself as a new first press. */
  lemma StalePress(s: GestureState, key: Key, now: real)
    requires IsCtrl(key) && s.isCtrlPressed
    requires now - s.lastPress >= DOUBLE_TAP_WINDOW
    ensures PressStep(s, key, now) == PressOutcome(GestureState(false, false, s.lastPress), false)
  {
  }

  /** A press of any other key resets both flags and emits nothing. */
  lemma OtherKeyPress(s: GestureState, key: Key, now: real)
    requires !IsCtrl(key)
    ensures PressStep(s, key, now) == PressOutcome(GestureState(false, false, s.lastPress), false)
  {
  }

  /** A release of any other key changes nothing. */
  lemma OtherKeyRelease(s: GestureState, key: Key)
    requires !IsCtrl(key)
    ensures ReleaseStep(s, key) == s
  {
  }

  /** Left and right Ctrl lead to the same step. */
  lemma CtrlVariantsAgree(s: GestureState, now: real)
    ensures PressStep(s, CtrlLeft, now) == PressStep(s, CtrlRight, now)
    ensures ReleaseStep(s, CtrlLeft) == ReleaseStep(s, CtrlRight)
  {
  }

  // ---------------------------------------------------------------------
  // Event streams

  /** One event of the keyboard hook; releases carry no time because the
      release handler does not read the clock. */
  datatype KeyEvent = Pressed(key: Key, at: real) | Released(key: Key)

  predicate CtrlPress(e: KeyEvent) {
    e.Pressed? && IsCtrl(e.key)
  }

  predicate CtrlRelease(e: KeyEvent) {
    e.Released? && IsCtrl(e.key)
  }

  predicate OtherPress(e: KeyEvent) {
    e.Pressed? && !IsCtrl(e.key)
  }

  /** One event delivered to the handler the hook registers for it. */
  function Apply(s: GestureState, e: KeyEvent): (r: PressOutcome)
    ensures Inv(s) ==> Inv(r.next)
    ensures r.toggle ==> CtrlPress(e)
  {
    match e
    case Pressed(k, t) => PressStep(s, k, t)
    case Released(k) => PressOutcome(ReleaseStep(s, k), false)
  }

  /** The listener's final state and, per event, whether it emitted a toggle. */
  datatype Trace = Trace(final: GestureState, toggles: seq<bool>)

  /** Feeds a stream of events to the listener, one step per event. */
  function Run(s: GestureState, evs: seq<KeyEvent>): (r: Trace)
    ensures |r.toggles| == |evs|
    ensures Inv(s) ==> Inv(r.final)
    ensures forall j :: 0 <= j < |evs| && r.toggles[j] ==> CtrlPress(evs[j])
    decreases |evs|
  {
    if evs == [] then
      Trace(s, [])
    else
      var o := Apply(s, evs[0]);
      var rest := Run(o.next, evs[1..]);
      Trace(rest.final, [o.toggle] + rest.toggles)
  }

  /** No press of a non-Ctrl key strictly between positions lo and hi. */
  predicate NoOtherPressBetween(evs: seq<KeyEvent>, lo: int, hi: int)
    requires -1 <= lo && hi <= |evs|
  {
    forall m :: lo < m < hi ==> !OtherPress(evs[m])
  }

  lemma ShiftNoOtherPress(evs: seq<KeyEvent>, lo: int, hi: int)
    requires |evs| > 0 && -1 <= lo && hi <= |evs| - 1
    requires NoOtherPressBetween(evs[1..], lo, hi)
    ensures NoOtherPressBetween(evs, lo + 1, hi + 1)
  {
    forall m | lo + 1 < m < hi + 1
      ensures !OtherPress(evs[m])
    {
      assert evs[m] == evs[1..][m - 1];
    }
  }

  /** Events i < k < j: a Ctrl press, a Ctrl release and a Ctrl press less
      than the window after press i, with no other key pressed between i and j. */
  predicate TapsAt(evs: seq<KeyEvent>, i: int, k: int, j: int) {
    0 <= i < k < j < |evs| && CtrlPress(evs[i]) && CtrlRelease(evs[k]) && CtrlPress(evs[j]) &&
    evs[j].at - evs[i].at < DOUBLE_TAP_WINDOW && NoOtherPressBetween(evs, i, j)
  }

  /** Event j is a Ctrl press less than the window after the press recorded
      in s, no other key is pressed before it, and Ctrl was released either
      already in s or at some event before j. */
  predicate TapsFrom(s: GestureState, evs: seq<KeyEvent>, j: int) {
    0 <= j < |evs| && CtrlPress(evs[j]) && s.isCtrlPressed &&
    evs[j].at - s.lastPress < DOUBLE_TAP_WINDOW && NoOtherPressBetween(evs, -1, j) &&
    (s.isCtrlRelease || exists k :: 0 <= k < j && CtrlRelease(evs[k]))
  }

  lemma ShiftTapsAt(evs: seq<KeyEvent>, i: int, k: int, j: int)
    requires |evs| > 0 && TapsAt(evs[1..], i, k, j)
    ensures TapsAt(evs, i + 1, k + 1, j + 1)
  {
    ShiftNoOtherPress(evs, i, j);
    assert evs[1..][i] == evs[i + 1] && evs[1..][k] == evs[k + 1] && evs[1..][j] == evs[j + 1];
  }

  /** One event earlier: what TapsFrom after the first event means before it. */
  lemma TapsFromBefore(s: GestureState, evs: seq<KeyEvent>, j: int)
    requires Inv(s) && |evs| > 0
    requires TapsFrom(Apply(s, evs[0]).next, evs[1..], j - 1)
    ensures (exists k :: TapsAt(evs, 0, k, j)) || TapsFrom(s, evs, j)
  {
    var e := evs[0];
    var o := Apply(s, e);
    var rest := evs[1..];
    ShiftNoOtherPress(evs, -1, j - 1);
    assert rest[j - 1] == evs[j];
    var kr: int := -1;
    if !o.next.isCtrlRelease {
      var k :| 0 <= k < j - 1 && CtrlRelease(rest[k]);
      assert rest[k] == evs[k + 1];
      kr := k + 1;
    }
    if CtrlPress(e) && !s.isCtrlPressed {
      assert TapsAt(evs, 0, kr, j);
    } else if CtrlRelease(e) {
      assert CtrlRelease(evs[0]);
    } else {
      assert o.next == s;
    }
  }

  /** Where a toggle comes from. A toggle at event j follows either a Ctrl
      press i and a Ctrl release k inside the stream, with i < k < j, press j
      less than the window after press i and no other key pressed between
      them; or a Ctrl press recorded in the starting state, under the same
      conditions. */
  lemma {:induction false} ToggleOrigin(s: GestureState, evs: seq<KeyEvent>, j: nat)
    requires Inv(s)
    requires j < |evs| && Run(s, evs).toggles[j]
    ensures (exists i, k :: TapsAt(evs, i, k, j)) || TapsFrom(s, evs, j)
    decreases j
  {
    if j == 0 {
      ToggleAtHead(s, evs);
    } else {
      var o := Apply(s, evs[0]);
      var rest := evs[1..];
      var jr := j - 1;
      ToggleShift(s, evs, j);
      ToggleOrigin(o.next, rest, jr);
      if exists i, k :: TapsAt(rest, i, k, jr) {
        var i, k :| TapsAt(rest, i, k, jr);
        ShiftTapsAt(evs, i, k, jr);
      } else {
        TapsFromBefore(s, evs, j);
      }
    }
  }

  /** The toggles after the first event are those of the rest of the stream. */
  lemma ToggleShift(s: GestureState, evs: seq<KeyEvent>, j: int)
    requires 0 < j < |evs|
    ensures Run(s, evs).toggles[j] == Run(Apply(s, evs[0]).next, evs[1..]).toggles[j - 1]
  {
  }

  lemma ToggleAtHead(s: GestureState, evs: seq<KeyEvent>)
    requires Inv(s) && |evs| > 0 && Run(s, evs).toggles[0]
    ensures TapsFrom(s, evs, 0)
  {
    assert Apply(s, evs[0]).toggle;
  }

  /** From a reset state, every toggle is preceded by a Ctrl press less than
      the window earlier, then a Ctrl release, with no other key pressed in
      between. */
  lemma ToggleNeedsDoubleTap(s: GestureState, evs: seq<KeyEvent>, j: nat)
    requires IsIdle(s)
    requires j < |evs| && Run(s, evs).toggles[j]
    ensures exists i, k :: TapsAt(evs, i, k, j)
  {
    ToggleOrigin(s, evs, j);
  }

  /** A Ctrl key that is never released never toggles, however often it
      repeats and whatever other keys do. */
  lemma {:induction false} HeldCtrlNeverToggles(s: GestureState, evs: seq<KeyEvent>)
    requires !s.isCtrlRelease
    requires forall m :: 0 <= m < |evs| ==> !CtrlRelease(evs[m])
    ensures !Run(s, evs).final.isCtrlRelease
    ensures forall j :: 0 <= j < |evs| ==> !Run(s, evs).toggles[j]
    decreases |evs|
  {
    if evs != [] {
      var o := Apply(s, evs[0]);
      assert !CtrlRelease(evs[0]);
      forall m | 0 <= m < |evs| - 1
        ensures !CtrlRelease(evs[1..][m])
      {
        assert evs[1..][m] == evs[m + 1];
      }
      HeldCtrlNeverToggles(o.next, evs[1..]);
    }
  }

  /** Press, release, press of Ctrl from a reset state toggles on the second
      press exactly when it is less than the window after the first; either
      way the listener ends reset. */
  lemma DoubleTap(s: GestureState, k1: Key, k2: Key, k3: Key, t0: real, t1: real)
    requires IsIdle(s) && IsCtrl(k1) && IsCtrl(k2) && IsCtrl(k3)
    ensures Run(s, [Pressed(k1, t0), Released(k2), Pressed(k3, t1)]).toggles
         == [false, false, t1 - t0 < DOUBLE_TAP_WINDOW]
    ensures IsIdle(Run(s, [Pressed(k1, t0), Released(k2), Pressed(k3, t1)]).final)
  {
    var evs := [Pressed(k1, t0), Released(k2), Pressed(k3, t1)];
    var s1 := GestureState(true, false, t0);
    var s2 := GestureState(true, true, t0);
    assert Run(s2, evs[2..]).toggles == [t1 - t0 < DOUBLE_TAP_WINDOW];
    assert Run(s1, evs[1..]).toggles == [false, t1 - t0 < DOUBLE_TAP_WINDOW];
  }

  /** Once a Ctrl press is recorded, any run of key releases that includes a
      Ctrl release (or follows one already recorded), then a Ctrl press less
      than the window after the recorded press, toggles on that press and
      leaves the listener reset. */
  lemma {:induction false} ReleasesThenQuickPress(s: GestureState, rels: seq<KeyEvent>, k: Key, t: real)
    requires s.isCtrlPressed
    requires forall m :: 0 <= m < |rels| ==> rels[m].Released?
    requires s.isCtrlRelease || exists m :: 0 <= m < |rels| && CtrlRelease(rels[m])
    requires IsCtrl(k) && t - s.lastPress < DOUBLE_TAP_WINDOW
    ensures Run(s, rels + [Pressed(k, t)]).toggles[|rels|]
    ensures IsIdle(Run(s, rels + [Pressed(k, t)]).final)
    decreases |rels|
  {
    var evs := rels + [Pressed(k, t)];
    if rels == [] {
      assert evs == [Pressed(k, t)];
    } else {
      var next := Apply(s, rels[0]).next;
      if !next.isCtrlRelease {
        var m :| 0 <= m < |rels| && CtrlRelease(rels[m]);
        assert m != 0;
        assert CtrlRelease(rels[1..][m - 1]);
      }
      forall m | 0 <= m < |rels| - 1
        ensures rels[1..][m].Released?
      {
        assert rels[1..][m] == rels[m + 1];
      }
      ReleasesThenQuickPress(next, rels[1..], k, t);
      assert evs[1..] == rels[1..] + [Pressed(k, t)];
    }
  }

  /** A double tap from a reset listener toggles: a Ctrl press, any run of
      key releases that includes a Ctrl release, then a Ctrl press less than
      the window after the first one. The toggle comes on the second press and
      leaves the listener reset. */
  lemma DoubleTapToggles(s: GestureState, k1: Key, t0: real, rels: seq<KeyEvent>, k2: Key, t1: real)
    requires IsIdle(s) && IsCtrl(k1) && IsCtrl(k2)
    requires forall m :: 0 <= m < |rels| ==> rels[m].Released?
    requires exists m :: 0 <= m < |rels| && CtrlRelease(rels[m])
    requires t1 - t0 < DOUBLE_TAP_WINDOW
    ensures Run(s, [Pressed(k1, t0)] + rels + [Pressed(k2, t1)]).toggles[|rels| + 1]
    ensures IsIdle(Run(s, [Pressed(k1, t0)] + rels + [Pressed(k2, t1)]).final)
  {
    var evs := [Pressed(k1, t0)] + rels + [Pressed(k2, t1)];
    ReleasesThenQuickPress(GestureState(true, false, t0), rels, k2, t1);
    assert evs[1..] == rels + [Pressed(k2, t1)];
  }

  /** The window's upper bound is exclusive. */
  lemma WindowBoundary()
    ensures Run(INITIAL, [Pressed(CtrlLeft, 10.0), Released(CtrlLeft), Pressed(CtrlLeft, 10.29999)]).toggles[2]
    ensures !Run(INITIAL, [Pressed(CtrlLeft, 10.0), Released(CtrlLeft), Pressed(CtrlLeft, 10.3)]).toggles[2]
  {
    DoubleTap(INITIAL, CtrlLeft, CtrlLeft, CtrlLeft, 10.0, 10.29999);
    DoubleTap(INITIAL, CtrlLeft, CtrlLeft, CtrlLeft, 10.0, 10.3);
  }

  /** A second tap that comes too late is lost: it does not become a new
      first press, so a third tap right after it does not toggle. */
  lemma LateTapIsLost(s: GestureState, t0: real, t1: real, t2: real)
    requires IsIdle(s)
    requires t1 - t0 >= DOUBLE_TAP_WINDOW
    ensures Run(s, [Pressed(CtrlLeft, t0), Released(CtrlLeft), Pressed(CtrlLeft, t1),
                    Released(CtrlLeft), Pressed(CtrlLeft, t2)])
         == Trace(GestureState(true, false, t2), [false, false, false, false, false])
  {
    var evs := [Pressed(CtrlLeft, t0), Released(CtrlLeft), Pressed(CtrlLeft, t1),
                Released(CtrlLeft), Pressed(CtrlLeft, t2)];
    var idle := GestureState(false, false, t0);
    assert Run(idle, evs[4..]) == Trace(GestureState(true, false, t2), [false]);
    assert Run(idle, evs[3..]) == Trace(GestureState(true, false, t2), [false, false]);
    assert Run(GestureState(true, true, t0), evs[2..]) == Trace(GestureState(true, false, t2), [false, false, false]);
    assert Run(GestureState(true, false, t0), evs[1..]) == Trace(GestureState(true, false, t2), [false, false, false, false]);
  }
}
