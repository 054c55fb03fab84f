/** One pass of each periodic task's loop body, and of the button polling
    loop. Each pass is an atomic step; the delays between passes and the
    scheduler that interleaves them are not modelled. */
module Tasks {
  import opened Ticks
  import Modes
  import opened Pixels
  import opened Effects
  import opened SharedFlags

  // ---------------------------------------------------------------------------
  // Polling loop

  datatype Option<T> = None | Some(value: T)

  /** `loop()`: the right button's debouncer runs first, then the left one's;
      each reports a level only when its input changed. */
  method PollButtons(mode: ModeState, right: Option<int>, left: Option<int>)
    modifies mode
    ensures var f1 := if right.Some? then Modes.ButtonChangedR(old(mode.Snapshot()), right.value)
                      else old(mode.Snapshot());
            mode.Snapshot() == if left.Some? then Modes.ButtonChangedL(f1, left.value) else f1
    ensures old(mode.Valid()) ==> mode.Valid()
  {
    if right.Some? {
      mode.ButtonChangedR(right.value);
    }
    if left.Some? {
      mode.ButtonChangedL(left.value);
    }
  }

  // ---------------------------------------------------------------------------
  // Fade, tricolore and rainbow tasks

  /** `fadeTask` renders only with fade on and no override engaged. */
  predicate FadeTaskRuns(f: Modes.Flags) {
    f.fade && !f.tricolore && !f.rainbow
  }

  /** One pass of `fadeTask`: a blue ramp, then a cyan one. */
  method FadeTaskPass(mode: ModeState, strip: Strip, blueSeen: seq<Modes.Flags>, cyanSeen: seq<Modes.Flags>)
    requires strip.Valid() && |blueSeen| == 2 * RampSteps && |cyanSeen| == 2 * RampSteps
    modifies strip, strip.pixels
    ensures strip.frames == old(strip.frames)
              + (if FadeTaskRuns(mode.Snapshot())
                 then FadeCommits(0, 0, 255, blueSeen) + FadeCommits(0, 255, 255, cyanSeen)
                 else [])
    // the cyan ramp's last step is left in the buffer
    ensures strip.pixels[..] == if FadeTaskRuns(mode.Snapshot()) then Uniform(FadeColor(0, 255, 255, 11))
                                else old(strip.pixels[..])
  {
    if mode.fade && !mode.tricolore && !mode.rainbow {
      RgbFadeInAndOut(strip, 0, 0, 255, blueSeen);
      RgbFadeInAndOut(strip, 0, 255, 255, cyanSeen);
    }
  }

  /** One pass of `tricoloreTask`. */
  method TricoloreTaskPass(mode: ModeState, strip: Strip)
    requires strip.Valid()
    modifies strip, strip.pixels
    ensures strip.frames == old(strip.frames) + (if mode.tricolore then [TricoloreFrame()] else [])
    ensures mode.tricolore ==> strip.pixels[..] == TricoloreFrame()
    ensures !mode.tricolore ==> strip.pixels[..] == old(strip.pixels[..])
  {
    if mode.tricolore {
      RenderTricolore(strip);
    }
  }

  /** One pass of `rainbowTask`. */
  method RainbowTaskPass(mode: ModeState, strip: Strip, seen: seq<RainbowReads>)
    requires strip.Valid() && |seen| == RainbowSteps
    modifies strip, strip.pixels
    ensures strip.frames == old(strip.frames)
              + (if mode.rainbow then RainbowCommits(old(strip.pixels[..]), seen) else [])
    ensures strip.pixels[..] == if mode.rainbow then RainbowBuffer(old(strip.pixels[..]), seen)
                                else old(strip.pixels[..])
  {
    if mode.rainbow {
      RainbowRotation(strip, seen);
    }
  }

  // ---------------------------------------------------------------------------
  // Flicker task

  const FlickerRed := Rgbw(255, 0, 0, 0)

  /** An active flicker pass commits the whole strip off, then the whole strip red. */
  function FlickerFrames(): (s: seq<seq<Color>>)
    ensures |s| == 2 && |s[0]| == NumPixels && |s[1]| == NumPixels
    ensures forall i | 0 <= i < NumPixels :: s[0][i] == Off && s[1][i] == FlickerRed
  {
    [Uniform(Off), Uniform(FlickerRed)]
  }

  class FlickerTask {
    /** The tick the alert started at; 0 means unset. */
    var startTime: Tick

    constructor ()
      ensures startTime == 0
    {
      startTime := 0;
    }

    /** One pass of `flickerTask`'s loop. `recordNow` is what the tick count
        reads when the start is recorded, `now` what it reads after the red
        frame is committed. */
    method Pass(mode: ModeState, strip: Strip, recordNow: Tick, now: Tick)
      requires strip.Valid()
      modifies this, mode, strip, strip.pixels
      ensures Modes.System(mode.Snapshot(), startTime)
              == Modes.FlickerStep(Modes.System(old(mode.Snapshot()), old(startTime)), recordNow, now)
      ensures strip.frames == old(strip.frames)
                + (if Modes.FlickerActive(old(mode.Snapshot())) then FlickerFrames() else [])
      // an active pass leaves the whole strip red; any other leaves the buffer alone
      ensures strip.pixels[..] == if Modes.FlickerActive(old(mode.Snapshot())) then Uniform(FlickerRed)
                                  else old(strip.pixels[..])
      ensures old(mode.Valid()) ==> mode.Valid()
    {
      if mode.flicker && !mode.tricolore && !mode.rainbow {
        FillUniform(strip, Off);
        strip.Show();
        if startTime == 0 {
          startTime := recordNow;
        }
        FillUniform(strip, FlickerRed);
        strip.Show();
        var currentTime := now;
        var elapsedTime := Elapsed(currentTime, startTime);
        if elapsedTime >= FlickerDuration {
          mode.FlickerTimeout();
          startTime := 0;
        }
      } else {
        startTime := 0;
      }
    }
  }

  // ---------------------------------------------------------------------------
  // Motion sampling

  /** One accelerometer sample; reals stand in for the sensor's floats. */
  datatype Accel = Accel(x: real, y: real, z: real)

  /** `threshold`. */
  const Threshold: real := 0.15

  function Abs(v: real): (r: real)
    ensures r >= 0.0 && (r == v || r == -v)
  {
    if v < 0.0 then -v else v
  }

  /** Some axis moved by more than the threshold since the previous sample. */
  function Exceeded(prev: Accel, sample: Accel): (r: bool)
    // a sample equal to its baseline never fires
    ensures r ==> prev != sample
    // a move of at most the threshold on every axis never fires
    ensures r ==> sample.x - prev.x > Threshold || prev.x - sample.x > Threshold
                  || sample.y - prev.y > Threshold || prev.y - sample.y > Threshold
                  || sample.z - prev.z > Threshold || prev.z - sample.z > Threshold
    // a move of more than the threshold on any one axis always fires
    ensures sample.x - prev.x > Threshold || prev.x - sample.x > Threshold ==> r
    ensures sample.y - prev.y > Threshold || prev.y - sample.y > Threshold ==> r
    ensures sample.z - prev.z > Threshold || prev.z - sample.z > Threshold ==> r
  {
    Abs(sample.x - prev.x) > Threshold || Abs(sample.y - prev.y) > Threshold || Abs(sample.z - prev.z) > Threshold
  }

  /** Whether each of `samples` fires, when the baseline before the first one is `prev`. */
  function Triggers(prev: Accel, samples: seq<Accel>): (r: seq<bool>)
    ensures |r| == |samples|
    decreases |samples|
  {
    if samples == [] then [] else [Exceeded(prev, samples[0])] + Triggers(samples[0], samples[1..])
  }

  /** Detection compares each sample with the one just before it, never with
      an older baseline. */
  lemma {:induction false} TriggersAgainstPrevious(prev: Accel, samples: seq<Accel>, k: nat)
    requires k < |samples|
    ensures Triggers(prev, samples)[k] == Exceeded(if k == 0 then prev else samples[k - 1], samples[k])
    decreases k
  {
    if k > 0 {
      TriggersAgainstPrevious(samples[0], samples[1..], k - 1);
    }
  }

  /** Hence a slow drift goes unnoticed: two steps of 0.1 move 0.2 from the
      start without either sample firing. */
  lemma SlowDriftUnnoticed()
    ensures Triggers(Accel(0.0, 0.0, 0.0), [Accel(0.1, 0.0, 0.0), Accel(0.2, 0.0, 0.0)]) == [false, false]
    ensures Exceeded(Accel(0.0, 0.0, 0.0), Accel(0.2, 0.0, 0.0))
  {
    var samples := [Accel(0.1, 0.0, 0.0), Accel(0.2, 0.0, 0.0)];
    assert samples[1..] == [Accel(0.2, 0.0, 0.0)];
    assert samples[1..][1..] == [];
  }

  class MotionSense {
    /** `prevAccX`, `prevAccY`, `prevAccZ`. */
    var prev: Accel

    constructor ()
      ensures prev == Accel(0.0, 0.0, 0.0)
    {
      prev := Accel(0.0, 0.0, 0.0);
    }

    /** One pass of the sampling loop with the sample `getEvent` delivered. */
    method Sample(mode: ModeState, sample: Accel)
      modifies this, mode
      ensures prev == sample
      ensures mode.Snapshot() == Modes.MotionFlags(old(mode.Snapshot()), Exceeded(old(prev), sample))
      ensures old(mode.Valid()) ==> mode.Valid()
    {
      mode.Motion(Exceeded(prev, sample));
      prev := sample;
    }

    /** Successive passes of the sampling loop, one per sample of `samples`:
        the alert is raised exactly when one of them fires against the sample
        before it, and the last sample becomes the baseline. */
    method SampleEach(mode: ModeState, samples: seq<Accel>)
      modifies this, mode
      ensures prev == if samples == [] then old(prev) else samples[|samples| - 1]
      ensures mode.Snapshot() == if true in Triggers(old(prev), samples)
                                 then old(mode.Snapshot()).(fade := false, flicker := true)
                                 else old(mode.Snapshot())
      ensures old(mode.Valid()) ==> mode.Valid()
    {
      ghost var p0 := prev;
      ghost var f0 := mode.Snapshot();
      var i := 0;
      while i < |samples|
        invariant 0 <= i <= |samples|
        invariant prev == if i == 0 then p0 else samples[i - 1]
        invariant mode.Snapshot() == if true in Triggers(p0, samples)[..i]
                                     then f0.(fade := false, flicker := true)
                                     else f0
        invariant Modes.Exclusive(f0) ==> mode.Valid()
      {
        TriggersAgainstPrevious(p0, samples, i);
        assert Triggers(p0, samples)[..i + 1] == Triggers(p0, samples)[..i] + [Triggers(p0, samples)[i]];
        Sample(mode, samples[i]);
        i := i + 1;
      }
      assert Triggers(p0, samples)[..i] == Triggers(p0, samples);
    }
  }
}
