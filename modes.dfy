/** The effect-mode state machine, as values.

    The four process-wide flags `fade`, `flicker`, `tricolore` and `rainbow`
    are changed by the two button handlers, by the motion sampler and by the
    flicker task's own timeout. The flicker task also keeps a `startTime`
    tick, with 0 meaning "unset". Each handler or task pass is one atomic
    step here; a run is a finite sequence of such steps. */
module Modes {
  import opened Ticks

  datatype Flags = Flags(fade: bool, flicker: bool, tricolore: bool, rainbow: bool)

  /** The globals' initial values. */
  const InitialFlags := Flags(true, false, false, false)

  /** `BTN_R_PRESSED` / `BTN_L_PRESSED` and `BTN_R_RELEASED` / `BTN_L_RELEASED`. */
  const ButtonPressed: int := 0
  const ButtonReleased: int := 1

  /** The two manual overrides are never engaged together. */
  predicate Exclusive(f: Flags) {
    !(f.tricolore && f.rainbow)
  }

  // ---------------------------------------------------------------------------
  // Flag updates, one per handler branch

  /** Right button pressed: engage tricolore, drop rainbow and fade. */
  function PressR(f: Flags): (r: Flags)
    ensures r.tricolore && !r.rainbow && !r.fade && r.flicker == f.flicker
    ensures Exclusive(r)
  {
    f.(tricolore := true, rainbow := false, fade := false)
  }

  /** Right button released: drop tricolore, re-enable fade. */
  function ReleaseR(f: Flags): (r: Flags)
    ensures !r.tricolore && r.fade && r.rainbow == f.rainbow && r.flicker == f.flicker
    ensures Exclusive(r)
  {
    f.(tricolore := false, fade := true)
  }

  /** Left button pressed: engage rainbow, drop tricolore and fade. */
  function PressL(f: Flags): (r: Flags)
    ensures r.rainbow && !r.tricolore && !r.fade && r.flicker == f.flicker
    ensures Exclusive(r)
  {
    f.(rainbow := true, tricolore := false, fade := false)
  }

  /** Left button released: drop rainbow, re-enable fade. */
  function ReleaseL(f: Flags): (r: Flags)
    ensures !r.rainbow && r.fade && r.tricolore == f.tricolore && r.flicker == f.flicker
    ensures Exclusive(r)
  {
    f.(rainbow := false, fade := true)
  }

  /** `buttonChangedR(state)`: two independent tests of the debounced level;
      a level that is neither 0 nor 1 changes nothing. */
  function ButtonChangedR(f: Flags, level: int): (r: Flags)
    ensures level == ButtonPressed ==> r == PressR(f)
    ensures level == ButtonReleased ==> r == ReleaseR(f)
    ensures level != ButtonPressed && level != ButtonReleased ==> r == f
  {
    var f1 := if level == ButtonPressed then PressR(f) else f;
    if level == ButtonReleased then ReleaseR(f1) else f1
  }

  /** `buttonChangedL(state)`. */
  function ButtonChangedL(f: Flags, level: int): (r: Flags)
    ensures level == ButtonPressed ==> r == PressL(f)
    ensures level == ButtonReleased ==> r == ReleaseL(f)
    ensures level != ButtonPressed && level != ButtonReleased ==> r == f
  {
    var f1 := if level == ButtonPressed then PressL(f) else f;
    if level == ButtonReleased then ReleaseL(f1) else f1
  }

  /** The motion sampler's flag write: any axis over the threshold hands
      control to the flicker alert. */
  function MotionFlags(f: Flags, exceeded: bool): (r: Flags)
    ensures exceeded ==> !r.fade && r.flicker
    ensures !exceeded ==> r == f
    ensures r.tricolore == f.tricolore && r.rainbow == f.rainbow
  {
    if exceeded then f.(fade := false, flicker := true) else f
  }

  /** The flicker alert's own end: stop flickering, go back to fading. */
  function FlickerTimeout(f: Flags): (r: Flags)
    ensures !r.flicker && r.fade
    ensures r.tricolore == f.tricolore && r.rainbow == f.rainbow
  {
    f.(flicker := false, fade := true)
  }

  /** The flicker task renders only when flicker is on and no override is. */
  predicate FlickerActive(f: Flags) {
    f.flicker && !f.tricolore && !f.rainbow
  }

  // ---------------------------------------------------------------------------
  // The whole machine: flags plus the flicker task's start tick

  datatype System = System(flags: Flags, startTime: Tick)

  const Initial := System(InitialFlags, 0)

  /** One pass of the flicker task's loop body. `recordNow` is the tick count
      read when the start time is recorded, `now` the one read after the red
      frame is shown. */
  function FlickerStep(s: System, recordNow: Tick, now: Tick): (r: System)
    // the overrides are only read
    ensures r.flags.tricolore == s.flags.tricolore && r.flags.rainbow == s.flags.rainbow
    // an inactive pass only resets the timer
    ensures !FlickerActive(s.flags) ==> r == s.(startTime := 0)
    // the only flag change is the timeout, which also unsets the timer
    ensures r.flags != s.flags ==> r.flags == FlickerTimeout(s.flags) && r.startTime == 0
    // a running timer keeps its start until the duration is reached, then ends
    ensures FlickerActive(s.flags) && s.startTime != 0 ==>
              if Elapsed(now, s.startTime) >= FlickerDuration
              then r == System(FlickerTimeout(s.flags), 0)
              else r == s
    // an unset timer is started from the reading taken on this pass
    ensures FlickerActive(s.flags) && s.startTime == 0 && Elapsed(now, recordNow) < FlickerDuration ==>
              r == s.(startTime := recordNow)
    // ... and, when the two readings are already a full duration apart, the
    // alert ends in that same pass
    ensures FlickerActive(s.flags) && s.startTime == 0 && Elapsed(now, recordNow) >= FlickerDuration ==>
              r == System(FlickerTimeout(s.flags), 0)
    ensures r.startTime != 0 ==> r.flags.flicker
  {
    if FlickerActive(s.flags) then
      var start := if s.startTime == 0 then recordNow else s.startTime;
      if Elapsed(now, start) >= FlickerDuration then System(FlickerTimeout(s.flags), 0)
      else System(s.flags, start)
    else
      s.(startTime := 0)
  }

  datatype Event =
    | ButtonR(level: int)
    | ButtonL(level: int)
    | Motion(exceeded: bool)
    | FlickerTick(recordNow: Tick, now: Tick)

  /** What makes a state sound: the overrides exclude each other, and the
      timer is only ever set while the flicker alert is on. */
  predicate Inv(s: System) {
    Exclusive(s.flags) && (s.startTime != 0 ==> s.flags.flicker)
  }

  function Step(s: System, e: Event): (r: System)
    ensures Inv(s) ==> Inv(r)
    // the motion and flicker paths never write either override flag
    ensures (e.Motion? || e.FlickerTick?) ==>
              r.flags.tricolore == s.flags.tricolore && r.flags.rainbow == s.flags.rainbow
    // motion never restarts the timer
    ensures e.Motion? ==> r.startTime == s.startTime
    // a flicker pass with the alert off or overridden only unsets the timer
    ensures e.FlickerTick? && !FlickerActive(s.flags) ==> r == s.(startTime := 0)
    // the button handlers never touch the alert or its timer
    ensures (e.ButtonR? || e.ButtonL?) ==> r.flags.flicker == s.flags.flicker && r.startTime == s.startTime
    // engaging an override always drops fade in the same step
    ensures (e.ButtonR? || e.ButtonL?) && e.level == ButtonPressed ==> !r.flags.fade
    // only the defined levels change anything
    ensures (e.ButtonR? || e.ButtonL?) && e.level != ButtonPressed && e.level != ButtonReleased ==> r == s
  {
    match e
    case ButtonR(level) => s.(flags := ButtonChangedR(s.flags, level))
    case ButtonL(level) => s.(flags := ButtonChangedL(s.flags, level))
    case Motion(exceeded) => s.(flags := MotionFlags(s.flags, exceeded))
    case FlickerTick(recordNow, now) => FlickerStep(s, recordNow, now)
  }

  /** The state after a finite sequence of events. */
  function Run(s: System, es: seq<Event>): System
    decreases |es|
  {
    if es == [] then s else Run(Step(s, es[0]), es[1..])
  }

  // ---------------------------------------------------------------------------
  // Lemmas about runs

  lemma {:induction false} RunAppend(s: System, es: seq<Event>, e: Event)
    ensures Run(s, es + [e]) == Step(Run(s, es), e)
    decreases |es|
  {
    if es == [] {
      assert [e][1..] == [];
    } else {
      assert (es + [e])[1..] == es[1..] + [e];
      RunAppend(Step(s, es[0]), es[1..], e);
    }
  }

  lemma {:induction false} RunKeepsInv(s: System, es: seq<Event>)
    requires Inv(s)
    ensures Inv(Run(s, es))
    decreases |es|
  {
    if es != [] {
      RunKeepsInv(Step(s, es[0]), es[1..]);
    }
  }

  /** No finite sequence of presses, releases, motion samples and flicker
      passes from power-on engages both overrides at once. */
  lemma MutualExclusion(es: seq<Event>)
    ensures Exclusive(Run(Initial, es).flags)
    ensures Run(Initial, es).startTime != 0 ==> Run(Initial, es).flags.flicker
  {
    RunKeepsInv(Initial, es);
  }

  predicate NoButtons(es: seq<Event>) {
    forall k | 0 <= k < |es| :: !es[k].ButtonR? && !es[k].ButtonL?
  }

  /** Only the buttons write the overrides. */
  lemma {:induction false} OverridesOnlyByButtons(s: System, es: seq<Event>)
    requires NoButtons(es)
    ensures Run(s, es).flags.tricolore == s.flags.tricolore
    ensures Run(s, es).flags.rainbow == s.flags.rainbow
    decreases |es|
  {
    if es != [] {
      assert NoButtons(es[1..]) by {
        forall k | 0 <= k < |es[1..]| ensures !es[1..][k].ButtonR? && !es[1..][k].ButtonL? {
          assert es[1..][k] == es[k + 1];
        }
      }
      OverridesOnlyByButtons(Step(s, es[0]), es[1..]);
    }
  }

  // ---------------------------------------------------------------------------
  // The flicker alert's lifetime

  /** What may happen while the alert runs without an override engaging:
      motion samples (the sampler keeps running), button events other than a
      press, and flicker passes still short of the duration. */
  predicate Undisturbed(e: Event, start: Tick) {
    match e
    case ButtonR(level) => level != ButtonPressed
    case ButtonL(level) => level != ButtonPressed
    case Motion(_) => true
    case FlickerTick(_, now) => Elapsed(now, start) < FlickerDuration
  }

  predicate AllUndisturbed(es: seq<Event>, start: Tick) {
    forall k | 0 <= k < |es| :: Undisturbed(es[k], start)
  }

  /** While the timer runs and no override engages, the alert stays active,
      keeps its start tick and leaves both overrides off. */
  lemma {:induction false} AlertHoldsUntilTimeout(s: System, es: seq<Event>)
    requires FlickerActive(s.flags) && s.startTime != 0
    requires AllUndisturbed(es, s.startTime)
    ensures Run(s, es).startTime == s.startTime
    ensures FlickerActive(Run(s, es).flags)
    ensures Run(s, es).flags.tricolore == s.flags.tricolore && Run(s, es).flags.rainbow == s.flags.rainbow
    decreases |es|
  {
    if es != [] {
      var s' := Step(s, es[0]);
      assert Undisturbed(es[0], s.startTime);
      assert s'.startTime == s.startTime && FlickerActive(s'.flags);
      assert AllUndisturbed(es[1..], s.startTime) by {
        forall k | 0 <= k < |es[1..]| ensures Undisturbed(es[1..][k], s.startTime) {
          assert es[1..][k] == es[k + 1];
        }
      }
      AlertHoldsUntilTimeout(s', es[1..]);
    }
  }

  /** The first flicker pass whose clock reading is a full duration past the
      recorded start ends the alert: flicker off, fade back on, timer unset,
      overrides still off. */
  lemma AlertEndsAtTimeout(s: System, es: seq<Event>, recordNow: Tick, now: Tick)
    requires FlickerActive(s.flags) && s.startTime != 0
    requires AllUndisturbed(es, s.startTime)
    requires Elapsed(now, s.startTime) >= FlickerDuration
    ensures var r := Run(s, es + [FlickerTick(recordNow, now)]);
            r.startTime == 0 && !r.flags.flicker && r.flags.fade
            && r.flags.tricolore == s.flags.tricolore && r.flags.rainbow == s.flags.rainbow
  {
    RunAppend(s, es, FlickerTick(recordNow, now));
    AlertHoldsUntilTimeout(s, es);
  }

  /** The first active pass records its start tick, unless that tick reads
      0: then the timer stays unset and the next pass records it afresh. */
  lemma FirstPassRecordsStart(s: System, recordNow: Tick, now: Tick)
    requires FlickerActive(s.flags) && s.startTime == 0
    requires Elapsed(now, recordNow) < FlickerDuration
    ensures Step(s, FlickerTick(recordNow, now)) == s.(startTime := recordNow)
    ensures recordNow == 0 ==> Step(s, FlickerTick(recordNow, now)).startTime == 0
  {
  }

  /** Engaging an override during the alert: the next flicker pass unsets the
      timer and leaves every flag as the button set it. */
  lemma OverrideStopsAlert(s: System, recordNow: Tick, now: Tick)
    requires Inv(s) && FlickerActive(s.flags) && s.startTime != 0
    ensures Run(s, [ButtonL(ButtonPressed), FlickerTick(recordNow, now)])
            == System(Flags(false, true, false, true), 0)
    ensures Run(s, [ButtonR(ButtonPressed), FlickerTick(recordNow, now)])
            == System(Flags(false, true, true, false), 0)
  {
    var tick := FlickerTick(recordNow, now);
    RunAppend(s, [ButtonL(ButtonPressed)], tick);
    RunAppend(s, [ButtonR(ButtonPressed)], tick);
    assert [ButtonL(ButtonPressed)] + [tick] == [ButtonL(ButtonPressed), tick];
    assert [ButtonR(ButtonPressed)] + [tick] == [ButtonR(ButtonPressed), tick];
  }

  // ---------------------------------------------------------------------------
  // Flag combinations the handlers allow

  /** Press right, press left, release right: rainbow stays engaged while the
      right button's release has turned fade back on. */
  lemma FadeUnderOverrideReachable()
    ensures Run(Initial, [ButtonR(ButtonPressed), ButtonL(ButtonPressed), ButtonR(ButtonReleased)]).flags
            == Flags(true, false, false, true)
  {
    var es := [ButtonR(ButtonPressed), ButtonL(ButtonPressed), ButtonR(ButtonReleased)];
    RunAppend(Initial, es[..2], es[2]);
    RunAppend(Initial, es[..1], es[1]);
    assert es[..2] + [es[2]] == es;
    assert es[..1] + [es[1]] == es[..2];
  }

  /** Motion, then a left press and release: fade and flicker are both on with
      no override, so both the fade and the flicker renderer are enabled. */
  lemma FadeAndFlickerReachable()
    ensures Run(Initial, [Motion(true), ButtonL(ButtonPressed), ButtonL(ButtonReleased)]).flags
            == Flags(true, true, false, false)
  {
    var es := [Motion(true), ButtonL(ButtonPressed), ButtonL(ButtonReleased)];
    RunAppend(Initial, es[..2], es[2]);
    RunAppend(Initial, es[..1], es[1]);
    assert es[..2] + [es[2]] == es;
    assert es[..1] + [es[1]] == es[..2];
  }
}
