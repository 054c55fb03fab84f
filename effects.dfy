/** The renderers: loops that write the strip buffer in place and commit it.

    The fade ramp and the rainbow rotation re-read the shared flags at every
    step while other tasks and the button loop may change them. Those reads
    are inputs here: a sequence with one entry per step, holding the values
    the step saw. */
module Effects {
  import opened Pixels
  import Modes

  /** `for (i = 0; i < numPixels(); i++) setPixelColor(i, c)`. */
  method FillUniform(strip: Strip, c: Color)
    requires strip.Valid()
    modifies strip.pixels
    ensures strip.pixels[..] == Uniform(c)
  {
    for i := 0 to strip.pixels.Length
      invariant forall j | 0 <= j < i :: strip.pixels[j] == c
    {
      strip.SetPixelColor(i, c);
    }
  }

  // ---------------------------------------------------------------------------
  // Tricolore: three static bands

  const TricoloreBlue := Rgbw(0, 0, 250, 0)
  const TricoloreWhite := Rgbw(0, 0, 0, 127)
  const TricoloreRed := Rgbw(250, 0, 0, 0)

  /** Bottom six pixels blue, middle five white at half brightness, top five red. */
  function TricoloreFrame(): (s: seq<Color>)
    ensures |s| == NumPixels
    ensures forall i | 0 <= i < 6 :: s[i] == TricoloreBlue
    ensures forall i | 6 <= i < 11 :: s[i] == TricoloreWhite
    ensures forall i | 11 <= i < 16 :: s[i] == TricoloreRed
  {
    seq(6, _ => TricoloreBlue) + seq(5, _ => TricoloreWhite) + seq(5, _ => TricoloreRed)
  }

  /** The body of `if (tricolore)`: each of the indices 0..15 falls under
      exactly one of the three tests. The result does not depend on what the
      buffer held before, so re-rendering gives the same buffer and commit. */
  method RenderTricolore(strip: Strip)
    requires strip.Valid()
    modifies strip, strip.pixels
    ensures strip.pixels[..] == TricoloreFrame()
    ensures strip.frames == old(strip.frames) + [TricoloreFrame()]
  {
    for i := 0 to 16
      invariant forall j | 0 <= j < i :: strip.pixels[j] == TricoloreFrame()[j]
      invariant strip.frames == old(strip.frames)
    {
      if i < 6 {
        strip.SetPixelColor(i, TricoloreBlue);
      }
      if i > 5 && i < 11 {
        strip.SetPixelColor(i, TricoloreWhite);
      }
      if i > 10 {
        strip.SetPixelColor(i, TricoloreRed);
      }
    }
    strip.Show();
  }

  // ---------------------------------------------------------------------------
  // Fade: a brightness ramp up and back down

  /** `c * b / 255` on two `uint8_t` operands promoted to `int`; both are
      non-negative, so C's truncating division and Dafny's agree. */
  function Scale(c: Byte, b: Byte): (r: Byte)
    ensures r <= c && r <= b
    ensures c == 255 ==> r == b
    ensures c == 0 || b == 0 ==> r == 0
  {
    ScaleBound(c, b);
    c * b / 255
  }

  lemma ScaleBound(c: Byte, b: Byte)
    ensures c * b / 255 <= c && c * b / 255 <= b
  {
    assert c * b <= c * 255;
    assert c * b <= 255 * b;
  }

  /** A brighter step never gives a dimmer channel. */
  lemma ScaleMonotone(c: Byte, b1: Byte, b2: Byte)
    requires b1 <= b2
    ensures Scale(c, b1) <= Scale(c, b2)
  {
    assert c * b1 <= c * b2;
  }

  /** The colour `setPixelColor(i, red*b/255, green*b/255, blue*b/255)` gives a pixel. */
  function FadeColor(red: Byte, green: Byte, blue: Byte, b: Byte): Color {
    Rgbw(Scale(red, b), Scale(green, b), Scale(blue, b), 0)
  }

  /** Steps per pass: `b = 10 .. 244` up, `b = 245 .. 11` down. */
  const RampSteps: nat := 235

  /** The brightness of step `k` of the whole ramp. */
  function RampLevel(k: nat): (r: Byte)
    requires k < 2 * RampSteps
    // neither loop's bound is ever reached inside its pass
    ensures 10 <= r <= 245
    ensures k < RampSteps ==> r < 245
    ensures RampSteps <= k ==> 10 < r
  {
    if k < RampSteps then 10 + k else 245 - (k - RampSteps)
  }

  /** The up pass climbs from 10 to 244 and the down pass falls from 245 to 11,
      one unit per step. */
  lemma RampShape()
    ensures RampLevel(0) == 10 && RampLevel(RampSteps - 1) == 244
    ensures RampLevel(RampSteps) == 245 && RampLevel(2 * RampSteps - 1) == 11
    ensures forall k | 0 < k < RampSteps :: RampLevel(k) == RampLevel(k - 1) + 1
    ensures forall k | RampSteps < k < 2 * RampSteps :: RampLevel(k) == RampLevel(k - 1) - 1
  {
  }

  /** The commit test of every ramp step: there is no rainbow check. */
  predicate FadeGuard(f: Modes.Flags) {
    f.fade && !f.tricolore
  }

  /** Engaging or releasing `rainbow` never changes the commit test. */
  lemma FadeGuardIgnoresRainbow(f: Modes.Flags, rb: bool)
    ensures FadeGuard(f.(rainbow := rb)) == FadeGuard(f)
  {
  }

  /** The frames committed by the first `|seen|` steps of the ramp, where
      `seen[k]` holds the flags seen at step `k`'s commit test. */
  function FadeCommits(red: Byte, green: Byte, blue: Byte, seen: seq<Modes.Flags>): (r: seq<seq<Color>>)
    requires |seen| <= 2 * RampSteps
    ensures |r| <= |seen|
    ensures forall j | 0 <= j < |r| :: |r[j]| == NumPixels
    decreases |seen|
  {
    if seen == [] then []
    else
      var k := |seen| - 1;
      FadeCommits(red, green, blue, seen[..k])
        + (if FadeGuard(seen[k]) then [Uniform(FadeColor(red, green, blue, RampLevel(k)))] else [])
  }

  /** `rgbFadeInAndOut`: every step writes every pixel; the step's frame is
      committed only when its guard holds. */
  method RgbFadeInAndOut(strip: Strip, red: Byte, green: Byte, blue: Byte, seen: seq<Modes.Flags>)
    requires strip.Valid() && |seen| == 2 * RampSteps
    modifies strip, strip.pixels
    ensures strip.frames == old(strip.frames) + FadeCommits(red, green, blue, seen)
    ensures strip.pixels[..] == Uniform(FadeColor(red, green, blue, 11))
  {
    var b := 10;
    while b < 245
      invariant 10 <= b <= 245
      invariant strip.frames == old(strip.frames) + FadeCommits(red, green, blue, seen[..b - 10])
    {
      var k := b - 10;
      FillUniform(strip, FadeColor(red, green, blue, b));
      if FadeGuard(seen[k]) {
        strip.Show();
      }
      assert seen[..k + 1][..k] == seen[..k];
      b := b + 1;
    }
    b := 245;
    while b > 10
      invariant 10 <= b <= 245
      invariant strip.frames == old(strip.frames) + FadeCommits(red, green, blue, seen[..RampSteps + 245 - b])
      invariant b < 245 ==> strip.pixels[..] == Uniform(FadeColor(red, green, blue, b + 1))
    {
      var k := RampSteps + 245 - b;
      FillUniform(strip, FadeColor(red, green, blue, b));
      if FadeGuard(seen[k]) {
        strip.Show();
      }
      assert seen[..k + 1][..k] == seen[..k];
      b := b - 1;
    }
    assert seen[..2 * RampSteps] == seen;
  }

  /** With the guard holding at every step, each step commits its own
      uniform frame, in ramp order. */
  lemma {:induction false} FadeUnpreempted(red: Byte, green: Byte, blue: Byte, seen: seq<Modes.Flags>)
    requires |seen| <= 2 * RampSteps
    requires forall k | 0 <= k < |seen| :: FadeGuard(seen[k])
    ensures FadeCommits(red, green, blue, seen)
            == seq(|seen|, k requires 0 <= k < |seen| => Uniform(FadeColor(red, green, blue, RampLevel(k))))
    decreases |seen|
  {
    if seen != [] {
      var k := |seen| - 1;
      FadeUnpreempted(red, green, blue, seen[..k]);
    }
  }

  /** Once the guard fails at every step from `j` on, nothing more is
      committed: the ramp is preempted within one step. */
  lemma {:induction false} FadePreempted(red: Byte, green: Byte, blue: Byte, seen: seq<Modes.Flags>, j: nat)
    requires j <= |seen| <= 2 * RampSteps
    requires forall k | j <= k < |seen| :: !FadeGuard(seen[k])
    ensures FadeCommits(red, green, blue, seen) == FadeCommits(red, green, blue, seen[..j])
    decreases |seen|
  {
    if |seen| > j {
      var k := |seen| - 1;
      assert seen[..k][..j] == seen[..j];
      FadePreempted(red, green, blue, seen[..k], j);
    } else {
      assert seen[..j] == seen;
    }
  }

  /** The guard ignores `rainbow`: with rainbow engaged and fade re-enabled,
      every step of a ramp already under way is committed. */
  lemma FadeCommitsUnderRainbow(red: Byte, green: Byte, blue: Byte, seen: seq<Modes.Flags>)
    requires |seen| == 2 * RampSteps
    requires forall k | 0 <= k < |seen| :: seen[k].fade && !seen[k].tricolore && seen[k].rainbow
    ensures |FadeCommits(red, green, blue, seen)| == 2 * RampSteps
  {
    FadeUnpreempted(red, green, blue, seen);
  }

  /** Brightness and channels rise together on the up pass. */
  lemma FadeBrightens(red: Byte, green: Byte, blue: Byte, j: nat, k: nat)
    requires j <= k < RampSteps
    ensures FadeColor(red, green, blue, RampLevel(j)).r <= FadeColor(red, green, blue, RampLevel(k)).r
    ensures FadeColor(red, green, blue, RampLevel(j)).g <= FadeColor(red, green, blue, RampLevel(k)).g
    ensures FadeColor(red, green, blue, RampLevel(j)).b <= FadeColor(red, green, blue, RampLevel(k)).b
  {
    ScaleMonotone(red, RampLevel(j), RampLevel(k));
    ScaleMonotone(green, RampLevel(j), RampLevel(k));
    ScaleMonotone(blue, RampLevel(j), RampLevel(k));
  }

  /** ... and fall together on the down pass. */
  lemma FadeDims(red: Byte, green: Byte, blue: Byte, j: nat, k: nat)
    requires RampSteps <= j <= k < 2 * RampSteps
    ensures FadeColor(red, green, blue, RampLevel(k)).r <= FadeColor(red, green, blue, RampLevel(j)).r
    ensures FadeColor(red, green, blue, RampLevel(k)).g <= FadeColor(red, green, blue, RampLevel(j)).g
    ensures FadeColor(red, green, blue, RampLevel(k)).b <= FadeColor(red, green, blue, RampLevel(j)).b
  {
    ScaleMonotone(red, RampLevel(k), RampLevel(j));
    ScaleMonotone(green, RampLevel(k), RampLevel(j));
    ScaleMonotone(blue, RampLevel(k), RampLevel(j));
  }

  // ---------------------------------------------------------------------------
  // Rainbow: 1280 hue steps, each re-reading fade twice

  const HueStep: nat := 256
  const HueEnd: nat := 5 * 65536
  /** `5 * 65536 / 256` steps of the `firstPixelHue` loop. */
  const RainbowSteps: nat := HueEnd / HueStep

  /** The two reads of `fade` in one step: before the fill and before the commit. */
  datatype RainbowReads = RainbowReads(fadeAtFill: bool, fadeAtShow: bool)

  /** The hue handed to the driver at step `k`: the driver takes `firstPixelHue`
      as a 16-bit value, so it wraps every 65536. */
  function StepHue(k: nat): int {
    (k * HueStep) % 65536
  }

  /** 1280 steps turn the hue wheel five times: step `k` and step `k + 256`
      start from the same hue, and the first 256 steps start from distinct ones. */
  lemma FiveRotations(k: nat)
    ensures RainbowSteps == 5 * 256
    ensures StepHue(k + 256) == StepHue(k)
    ensures k < 256 ==> StepHue(k) == k * HueStep
  {
    assert (k + 256) * HueStep == k * HueStep + 65536;
  }

  /** The buffer after the first `|seen|` steps, starting from `buf`. */
  function RainbowBuffer(buf: seq<Color>, seen: seq<RainbowReads>): (r: seq<Color>)
    ensures |buf| == NumPixels ==> |r| == NumPixels
    // a step that sees fade at its fill leaves the buffer as it was
    ensures (forall k | 0 <= k < |seen| :: seen[k].fadeAtFill) ==> r == buf
    ensures r != buf ==> exists k | 0 <= k < |seen| :: r == RainbowFrame(StepHue(k))
    decreases |seen|
  {
    if seen == [] then buf
    else
      var k := |seen| - 1;
      if !seen[k].fadeAtFill then RainbowFrame(StepHue(k)) else RainbowBuffer(buf, seen[..k])
  }

  /** The buffer holds the fill of the last step whose first read saw `fade`
      off. */
  lemma {:induction false} RainbowBufferLastFill(buf: seq<Color>, seen: seq<RainbowReads>, k: nat)
    requires k < |seen| && !seen[k].fadeAtFill
    requires forall j | k < j < |seen| :: seen[j].fadeAtFill
    ensures RainbowBuffer(buf, seen) == RainbowFrame(StepHue(k))
    decreases |seen|
  {
    var last := |seen| - 1;
    if k < last {
      assert seen[..last][k] == seen[k];
      assert forall j | k < j < |seen[..last]| :: seen[..last][j].fadeAtFill by {
        forall j | k < j < |seen[..last]| ensures seen[..last][j].fadeAtFill {
          assert seen[..last][j] == seen[j];
        }
      }
      RainbowBufferLastFill(buf, seen[..last], k);
    }
  }

  /** The frames the first `|seen|` steps commit. */
  function RainbowCommits(buf: seq<Color>, seen: seq<RainbowReads>): (r: seq<seq<Color>>)
    ensures |r| <= |seen|
    decreases |seen|
  {
    if seen == [] then []
    else
      var k := |seen| - 1;
      RainbowCommits(buf, seen[..k]) + (if !seen[k].fadeAtShow then [RainbowBuffer(buf, seen)] else [])
  }

  /** The body of `if (rainbow)`: the `firstPixelHue` loop with its two guards. */
  method RainbowRotation(strip: Strip, seen: seq<RainbowReads>)
    requires strip.Valid() && |seen| == RainbowSteps
    modifies strip, strip.pixels
    ensures strip.pixels[..] == RainbowBuffer(old(strip.pixels[..]), seen)
    ensures strip.frames == old(strip.frames) + RainbowCommits(old(strip.pixels[..]), seen)
  {
    ghost var buf := strip.pixels[..];
    var firstPixelHue := 0;
    while firstPixelHue < 5 * 65536
      invariant 0 <= firstPixelHue <= HueEnd && firstPixelHue % HueStep == 0
      invariant strip.pixels[..] == RainbowBuffer(buf, seen[..firstPixelHue / HueStep])
      invariant strip.frames == old(strip.frames) + RainbowCommits(buf, seen[..firstPixelHue / HueStep])
    {
      var k := firstPixelHue / HueStep;
      assert seen[..k + 1][..k] == seen[..k];
      if !seen[k].fadeAtFill {
        strip.Rainbow(firstPixelHue % 65536);
      }
      if !seen[k].fadeAtShow {
        strip.Show();
      }
      firstPixelHue := firstPixelHue + HueStep;
      assert firstPixelHue / HueStep == k + 1;
    }
    assert seen[..RainbowSteps] == seen;
  }

  /** With fade off throughout, every step paints and commits its own hue. */
  lemma {:induction false} RainbowUnpreempted(buf: seq<Color>, seen: seq<RainbowReads>)
    requires forall k | 0 <= k < |seen| :: !seen[k].fadeAtFill && !seen[k].fadeAtShow
    ensures RainbowCommits(buf, seen) == seq(|seen|, (k: nat) => RainbowFrame(StepHue(k)))
    decreases |seen|
  {
    if seen != [] {
      var k := |seen| - 1;
      RainbowUnpreempted(buf, seen[..k]);
    }
  }

  /** Once fade reads true at every commit test from step `j` on, no further
      hue frame is committed. */
  lemma {:induction false} RainbowPreempted(buf: seq<Color>, seen: seq<RainbowReads>, j: nat)
    requires j <= |seen|
    requires forall k | j <= k < |seen| :: seen[k].fadeAtShow
    ensures RainbowCommits(buf, seen) == RainbowCommits(buf, seen[..j])
    decreases |seen|
  {
    if |seen| > j {
      var k := |seen| - 1;
      assert seen[..k][..j] == seen[..j];
      RainbowPreempted(buf, seen[..k], j);
    } else {
      assert seen[..j] == seen;
    }
  }

  /** The two reads are separate: if fade turns true just before a step's fill
      and false again before its commit, that step commits the previous step's
      frame a second time. */
  lemma RainbowRecommitsStaleFrame(buf: seq<Color>)
    ensures RainbowCommits(buf, [RainbowReads(false, false), RainbowReads(true, false)])
            == [RainbowFrame(0), RainbowFrame(0)]
  {
    var seen := [RainbowReads(false, false), RainbowReads(true, false)];
    assert seen[..1] == [RainbowReads(false, false)];
    assert seen[..1][..0] == [];
  }
}
