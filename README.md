# liberte_fragile: effect modes and strip renderers

This project models the firmware core in `src/main.cpp` of an ESP32 sketch. The sketch drives a 16-pixel RGBW NeoPixel strip. Four process-wide flags decide which effect may render: `fade`, `flicker`, `tricolore` and `rainbow`.

- Two debounced buttons engage and release the two manual overrides, `tricolore` and `rainbow`.
- An accelerometer sampler starts a one-second red flicker alert when some axis moves by more than 0.15 between two consecutive samples.
- The flicker task ends its own alert with a wrapping 32-bit tick timer.

The renderers are loops that write the strip buffer with `setPixelColor` and then commit it with `show`.

The model has these modules:

- `Ticks` (ticks.dfy): `TickType_t` as a 32-bit wrapping counter, `pdMS_TO_TICKS`, and the elapsed-time subtraction.
- `Modes` (modes.dfy): the flags and the flicker start tick as one value-level state machine. It has one step per event (button level, motion sample, flicker pass), runs over finite event sequences, and the invariants and scenarios proved about those runs.
- `SharedFlags` (mode_state.dfy): the `ModeState` class. Its four `bool` fields are the `volatile` globals, and its methods assign them in place. Each method is tied to its `Modes` step.
- `Pixels` (pixels.dfy): the `Strip` class. It holds the pixel `array`, `setPixelColor`, `show` and the driver's rainbow fill. Every `show` appends a copy of the buffer to a ghost log of committed frames.
- `Effects` (effects.dfy): the fill loops, the tricolore bands, the fade ramp and the rainbow hue loop. Each method is proved against the function that gives what it commits, and lemmas cover preemption and brightness.
- `Tasks` (tasks.dfy): one pass of each task's loop body. It also holds the flicker task's `startTime`, the motion sampler's baseline, and the button polling loop.

Other tasks and the button loop can change the flags while a fade ramp or a rainbow rotation is running. Each step of those loops re-reads the flags. The model takes what each re-read saw as an input sequence with one entry per step. The fade ramp gets the flags seen at each commit test. The rainbow loop gets two reads of `fade` per step.

The proofs show several behaviours of the code as written:

- The fade commit test is `fade && !tricolore`, with no rainbow check (`Effects.FadeCommitsUnderRainbow`).
- Releasing one button while the other is held sets `fade` back on with an override still engaged (`Modes.FadeUnderOverrideReachable`).
- `fade` and `flicker` can both be on with no override (`Modes.FadeAndFlickerReachable`).
- The rainbow loop reads `fade` twice per step, so one step can re-commit the previous step's frame (`Effects.RainbowRecommitsStaleFrame`); in general the buffer holds the fill of the last step whose first read saw `fade` off (`Effects.RainbowBufferLastFill`).
- If the tick count reads 0 when the start is recorded, the timer stays "unset" (`Modes.FirstPassRecordsStart`).
- Each ramp pass has 235 steps: brightness 10 to 244 going up, then 245 down to 11 (`Effects.RampShape`).
- The flicker start time is recorded after the first (all-off) frame is committed, so the alert's second is counted from after that frame (`Tasks.FlickerTask.Pass`).

## Model

| member | source | states |
|---|---|---|
| `Ticks.MsToTicks` | src/main.cpp:84 | At the 1 kHz tick rate `pdMS_TO_TICKS(ms)` is `ms` ticks while `ms * 1000` fits in 32 bits; beyond that the product wraps and the result is smaller than `ms` |
| `Ticks.Elapsed` | src/main.cpp:111-112 | The elapsed time is the unique 32-bit tick count that, added to the start on the wrapping counter, gives the current time; it equals `now - start` without a wrap and `2^32 - start + now` across one |
| `Ticks.ElapsedAfterAdvance` | src/main.cpp:111-112 | A counter that advanced `d` ticks past the start, wrapping or not, shows exactly `d` elapsed |
| `Ticks.FlickerDurationIsOneSecond` | src/main.cpp:84 | `flickerDuration = pdMS_TO_TICKS(1000)` is the tick rate (one second) and is positive |
| `Modes.PressR` | src/main.cpp:242-247 | A right press engages `tricolore`, drops `rainbow` and `fade`, keeps `flicker`, and leaves the overrides exclusive |
| `Modes.ReleaseR` | src/main.cpp:248-252 | A right release drops `tricolore`, sets `fade`, keeps `rainbow` and `flicker` |
| `Modes.PressL` | src/main.cpp:257-262 | A left press engages `rainbow`, drops `tricolore` and `fade`, keeps `flicker` |
| `Modes.ReleaseL` | src/main.cpp:263-267 | A left release drops `rainbow`, sets `fade`, keeps `tricolore` and `flicker` |
| `Modes.ButtonChangedR` | src/main.cpp:240-253 | Level 0 is a press, level 1 a release, any other level changes nothing |
| `Modes.ButtonChangedL` | src/main.cpp:255-268 | Level 0 is a press, level 1 a release, any other level changes nothing |
| `Modes.MotionFlags` | src/main.cpp:201-205 | A fired sample drops `fade` and raises `flicker`; an unfired one changes nothing; the overrides are never written |
| `Modes.FlickerTimeout` | src/main.cpp:116-117 | The timeout drops `flicker`, sets `fade` and keeps both overrides |
| `Modes.FlickerStep` | src/main.cpp:89-124 | A flicker pass never writes an override; an inactive pass only unsets the timer; the only flag change it makes is the timeout, which also unsets the timer; a running timer keeps its start below the duration and ends the alert at it; an unset timer starts from the tick read on this pass, and when the elapsed-time reading is already a full duration past that tick the alert ends in the same pass; a set timer implies `flicker` |
| `Modes.Step` | src/main.cpp:240-268 | Every event keeps the invariant (overrides exclusive; timer set only while flicker is on); motion and flicker passes never write an override; motion never touches the timer; a flicker pass with the alert inactive only unsets the timer; button handlers never touch `flicker` or the timer; a press always drops `fade`; a level other than 0 or 1 changes nothing |
| `Modes.RunKeepsInv` | src/main.cpp:240-268 | The invariant holds after any finite event sequence from a state that satisfies it |
| `Modes.MutualExclusion` | src/main.cpp:25-28 | From the initial flags, no sequence of presses, releases, motion samples and flicker passes reaches `tricolore && rainbow`, and the timer is only set while flickering |
| `Modes.OverridesOnlyByButtons` | src/main.cpp:201-205 | A run without button events leaves `tricolore` and `rainbow` unchanged |
| `Modes.AlertHoldsUntilTimeout` | src/main.cpp:99-119 | With the timer running and no override engaged, any mix of motion samples, button releases or other non-press levels, and flicker passes below the duration keeps the alert active, keeps the start tick and leaves both overrides off |
| `Modes.AlertEndsAtTimeout` | src/main.cpp:111-119 | After such a run, the first flicker pass whose elapsed time reaches the duration sets `flicker=false`, `fade=true` and unsets the start, with the overrides still off |
| `Modes.FirstPassRecordsStart` | src/main.cpp:99-102 | The first active pass records its start tick only when the timer was unset; a start read as 0 leaves it unset |
| `Modes.OverrideStopsAlert` | src/main.cpp:89-124 | Pressing either button mid-alert, then one flicker pass: the override governs, `fade` is off, `flicker` stays on, and the timer is reset to unset |
| `Modes.FadeUnderOverrideReachable` | src/main.cpp:240-268 | Press right, press left, release right reaches `rainbow && fade` |
| `Modes.FadeAndFlickerReachable` | src/main.cpp:255-268 | Motion, then a left press and release, reaches `fade && flicker` with no override engaged |
| `SharedFlags.ModeState.constructor` | src/main.cpp:25-28 | The globals start as `fade=true`, everything else false |
| `SharedFlags.ModeState.PressR` | src/main.cpp:242-247 | `tricolore=true`, `rainbow=false`, `fade=false`, `flicker` unchanged; overrides exclusive afterwards |
| `SharedFlags.ModeState.ReleaseR` | src/main.cpp:248-252 | `tricolore=false`, `fade=true`; `rainbow` and `flicker` unchanged |
| `SharedFlags.ModeState.PressL` | src/main.cpp:257-262 | `rainbow=true`, `tricolore=false`, `fade=false`, `flicker` unchanged |
| `SharedFlags.ModeState.ReleaseL` | src/main.cpp:263-267 | `rainbow=false`, `fade=true`; `tricolore` and `flicker` unchanged |
| `SharedFlags.ModeState.ButtonChangedR` | src/main.cpp:240-253 | The flags become the right-button step of the machine for the given level, and exclusivity is kept |
| `SharedFlags.ModeState.ButtonChangedL` | src/main.cpp:255-268 | The flags become the left-button step for the given level, and exclusivity is kept |
| `SharedFlags.ModeState.Motion` | src/main.cpp:201-205 | When the threshold fired: `fade=false`, `flicker=true`; otherwise nothing changes; overrides never change |
| `SharedFlags.ModeState.FlickerTimeout` | src/main.cpp:116-117 | `flicker=false`, `fade=true`, overrides unchanged |
| `Pixels.Strip.constructor` | src/main.cpp:52-53 | `begin` and the first `show`: every pixel off, and that frame is the only commit |
| `Pixels.Strip.SetPixelColor` | src/main.cpp:94 | Exactly the addressed in-range pixel gets the colour; an index past the end changes nothing |
| `Pixels.Strip.Show` | src/main.cpp:96 | The current buffer is appended to the commit log and nothing else changes |
| `Pixels.Strip.Rainbow` | src/main.cpp:160 | The whole buffer becomes the driver's rainbow fill for the given first hue |
| `Effects.FillUniform` | src/main.cpp:92-95 | After the loop, every pixel of the strip has the given colour |
| `Effects.TricoloreFrame` | src/main.cpp:135-143 | The band frame has 16 pixels: indices 0-5 blue `(0,0,250,0)`, 6-10 half-white `(0,0,0,127)`, 11-15 red `(250,0,0,0)` |
| `Effects.RenderTricolore` | src/main.cpp:135-144 | The three per-index tests write indices 0-5 as `(0,0,250,0)`, 6-10 as `(0,0,0,127)` and 11-15 as `(250,0,0,0)`, then commit that frame. The result does not depend on the previous buffer, so rendering again gives an identical buffer |
| `Effects.Scale` | src/main.cpp:221 | `c*b/255` is at most `c` and at most `b`, so it fits a `uint8_t`; for `c=255` it equals `b`; it is 0 when either operand is |
| `Effects.ScaleMonotone` | src/main.cpp:221 | A higher brightness never gives a lower channel value |
| `Effects.RampLevel` | src/main.cpp:217-228 | Every ramp brightness lies in 10..245; the up pass never reaches its bound 245 and the down pass never reaches its bound 10 |
| `Effects.RampShape` | src/main.cpp:217-228 | The up pass starts at 10 and ends at 244, going up by one per step; the down pass starts at 245 and ends at 11, going down by one per step |
| `Effects.FadeGuardIgnoresRainbow` | src/main.cpp:223-235 | The per-step commit test `fade && !tricolore` gives the same answer whatever `rainbow` is |
| `Effects.FadeCommits` | src/main.cpp:223-224 | A ramp commits at most one frame per step, each a full 16-pixel frame |
| `Effects.RgbFadeInAndOut` | src/main.cpp:215-238 | The 470 steps commit exactly the frames of the steps whose `fade && !tricolore` test held, in order; the buffer ends at brightness 11 |
| `Effects.FadeUnpreempted` | src/main.cpp:223-235 | When every test holds, step `k` commits the uniform frame at the ramp's `k`-th brightness |
| `Effects.FadePreempted` | src/main.cpp:234-235 | When the test fails at every step from `j` on, nothing is committed after step `j` |
| `Effects.FadeCommitsUnderRainbow` | src/main.cpp:223-224 | With `rainbow` engaged, `fade` on and `tricolore` off at every read, whatever `flicker` is, every step of the ramp commits: the test has no rainbow check |
| `Effects.FadeBrightens` | src/main.cpp:217-221 | On the up pass, each channel of a later step is at least that of an earlier one |
| `Effects.FadeDims` | src/main.cpp:228-232 | On the down pass, each channel of a later step is at most that of an earlier one |
| `Effects.FiveRotations` | src/main.cpp:156 | The loop has `5*65536/256 = 1280` steps; step `k+256` hands the driver the same 16-bit hue as step `k`, so the wheel turns five times |
| `Effects.RainbowBuffer` | src/main.cpp:159-160 | The buffer keeps 16 pixels; if every step saw `fade` at its fill the buffer is untouched, and otherwise it is the rainbow fill of some step's hue |
| `Effects.RainbowBufferLastFill` | src/main.cpp:159-160 | The buffer holds the fill for the hue of the last step whose first read saw `fade` off |
| `Effects.RainbowCommits` | src/main.cpp:162-163 | A rotation commits at most one frame per step |
| `Effects.RainbowRotation` | src/main.cpp:156-164 | The hue loop leaves the buffer and the commit log as the per-step `!fade` tests dictate: fill only when the first read saw `fade` off, commit only when the second did |
| `Effects.RainbowUnpreempted` | src/main.cpp:159-163 | With `fade` off throughout, step `k` paints and commits the frame for hue `256*k mod 65536` |
| `Effects.RainbowPreempted` | src/main.cpp:162-163 | Once `fade` reads true at every commit test from step `j` on, no further frame is committed |
| `Effects.RainbowRecommitsStaleFrame` | src/main.cpp:159-163 | When `fade` is seen true at a step's fill and false at its commit, that step commits the previous step's frame again |
| `Tasks.PollButtons` | src/main.cpp:62-67 | A poll applies the right handler first, then the left one, each only when its debouncer reported a level |
| `Tasks.FadeTaskPass` | src/main.cpp:69-80 | With `fade && !tricolore && !rainbow`, a pass commits the blue ramp's frames followed by the cyan ramp's; otherwise it commits nothing. A running pass leaves every pixel at the cyan ramp's last step (brightness 11); otherwise the buffer is unchanged |
| `Tasks.TricoloreTaskPass` | src/main.cpp:129-148 | With `tricolore`, a pass commits exactly the band frame and leaves it in the buffer; otherwise it commits nothing and the buffer is unchanged |
| `Tasks.RainbowTaskPass` | src/main.cpp:150-168 | With `rainbow`, a pass commits what the guarded hue loop commits and leaves the buffer the loop leaves; otherwise nothing is committed and the buffer is unchanged |
| `Tasks.FlickerFrames` | src/main.cpp:92-109 | An active flicker pass commits two full frames: all `(0,0,0)`, then all `(255,0,0)` |
| `Tasks.FlickerTask.constructor` | src/main.cpp:85 | The start tick begins unset (0) |
| `Tasks.FlickerTask.Pass` | src/main.cpp:89-124 | The flags and start tick become the machine's flicker step: record the start only if unset, time out at the duration, reset the start when inactive. An active pass commits the off frame and then the red frame and leaves the strip red; an inactive pass commits nothing and leaves the buffer alone |
| `Tasks.Abs` | src/main.cpp:201 | `fabs` is non-negative and equals the value or its negation |
| `Tasks.Exceeded` | src/main.cpp:201 | A sample equal to its baseline never fires; a move of more than 0.15 either way on any one axis always fires, and a sample that fires moved more than 0.15 on some axis, so one within 0.15 on every axis never fires |
| `Tasks.Triggers` | src/main.cpp:197-210 | The sampling loop yields one trigger decision per sample |
| `Tasks.TriggersAgainstPrevious` | src/main.cpp:201-209 | Sample `k` is tested against sample `k-1` (the first against the initial baseline), never against an older one |
| `Tasks.SlowDriftUnnoticed` | src/main.cpp:201-209 | Two steps of 0.1 on one axis fire neither sample, though the total movement exceeds the threshold |
| `Tasks.MotionSense.constructor` | src/main.cpp:177-179 | The baseline starts at `(0, 0, 0)` |
| `Tasks.MotionSense.Sample` | src/main.cpp:199-209 | The flags take the motion step for "some axis moved more than 0.15 since the baseline", and the baseline becomes the new sample whether or not it fired |
| `Tasks.MotionSense.SampleEach` | src/main.cpp:197-210 | Successive passes over a finite run of samples raise the alert (`fade=false`, `flicker=true`) exactly when `Triggers` fires for one of them, leave the flags unchanged otherwise, and end with the last sample as the baseline |

## Left out

- FreeRTOS scheduling is not modelled: task creation and priorities, `vTaskDelay` and preemption within a pass. Each handler or task pass is one atomic step. Flag changes during a fade ramp or rainbow rotation enter only as the per-step reads.
- `xTaskGetTickCount` readings are not modelled as a clock. They are parameters of the flicker pass: one read for recording the start, one for the elapsed test.
- The NeoPixel driver internals are abstract. The hue-to-colour computation of `rainbow` (HSV conversion, gamma) is not modelled: a rainbow pixel is named by its first hue and its index. `begin` and `show` are a fresh buffer and a ghost log entry.
- MPU6050 and I2C setup, sensor configuration, `getEvent` and the `Serial` messages are I/O. A sample enters as a parameter. The halt-forever loop on sensor-init failure does not terminate, so it is not modelled.
- Floating point is not modelled. The motion test uses real arithmetic in place of `float`, so single-precision rounding of the differences and of 0.15 is not captured.
- The `ButtonDebounce` timing and `update()` polling are not modelled. A debouncer either reports a level or does not.
- The single-pixel auxiliary strip is not modelled. The source gives its pin and size (`ledPin1`, `totalLEDs1`) but never creates it.
