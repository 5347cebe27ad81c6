# Flicker-free clock

This project models the time integrator behind a dot-grid animation, the `useFlickerFreeClock` hook. Once per display frame, a callback takes the frame's timestamp and reads two inputs: a speed factor and a pause flag. It then updates two persistent cells:

- `integratedTime` is the animation clock.
- `lastTimestamp` is the wall-clock anchor of the previous frame.

Both cells start at 0, and a `lastTimestamp` of 0 also means "no earlier frame to measure from". The callback handles three cases:

- **Paused frame.** It only moves the anchor to the frame's timestamp.
- **Unpaused frame that sees the 0 sentinel.** It first moves the anchor to itself, so the delta it measures is 0.
- **Any other unpaused frame.** It adds `(timestamp - lastTimestamp) * speed` using that frame's own speed, then moves the anchor.

A speed change therefore changes only the rate at which time accumulates from then on. Time already accumulated is never rescaled, and time spent paused is never credited.

The model is one module, `FlickerFreeClock` (`flicker_free_clock.dfy`):

- `Frame` is one callback invocation: a timestamp, a speed and a pause flag.
- `ClockState` holds the two cells.
- `Advance` is the callback as a transition, and `Run` iterates it over a sequence of frames.
- A separate reference definition, `TotalTime`, gives the expected integrated time as the sum of every frame's `Delta * speed`, with 0 for a paused frame. `Delta` is measured from the previous frame's timestamp, whether that frame was paused or not, and is 0 when there is nothing to measure from.
- The class `Clock` holds the two cells as mutable fields. Its `Step` method is the callback body written imperatively, with the early return from the pause branch. A ghost history of frames and `Valid()` tie the fields to the reference after every step.

Timestamps and speeds are exact `real` numbers.

Where the intended behaviour could be expected to differ, the model follows the code:

- The code tests the pause flag before the 0 sentinel. The order does not change the outcome: a paused first frame sets the anchor to its timestamp and leaves the time alone, as the sentinel branch would.
- The code never clamps a negative delta, although a clamp would be the natural intent. An unpaused frame measured from a nonzero anchor can therefore lower `integratedTime`, either when its timestamp goes backwards or when its speed is negative (`BackwardTimestampDecreasesTime`, `NegativeSpeedDecreasesTime`).
- `integratedTime` is therefore not non-negative and non-decreasing in general. It is guaranteed to be non-decreasing, and so non-negative, when timestamps never go backwards and speeds are never negative (`IntegratedTimeNonDecreasing`). Without these hypotheses it can decrease (`BackwardTimestampDecreasesTime`, `NegativeSpeedDecreasesTime`).

## Model

| member | source | states |
|---|---|---|
| `FlickerFreeClock.Clock.constructor` | hooks/flickerFreeClock.ts:11-12 | Both cells start at 0, and the frame history is empty. |
| `FlickerFreeClock.Clock.Step` | hooks/flickerFreeClock.ts:14-34 | The callback body, updating the fields in place. The new cells are `Advance` of the old cells and the frame. The fields still equal the reference total and last timestamp of the history, now one frame longer. |
| `FlickerFreeClock.Advance` | hooks/flickerFreeClock.ts:14-34 | After any frame, the anchor is that frame's timestamp. A paused frame leaves the time unchanged. An unpaused frame seeing the 0 sentinel adds exactly 0. Any other unpaused frame adds exactly `(timestamp - previous anchor) * speed`, using that frame's own speed. |
| `FlickerFreeClock.RunAppend` | hooks/flickerFreeClock.ts:14-34 | Feeding frames to the callback in two batches is the same as feeding their concatenation. |
| `FlickerFreeClock.AdvanceExtendsExpected` | hooks/flickerFreeClock.ts:21-33 | One more frame moves the reference state (sum of contributions, last timestamp) exactly as the callback moves the cells. |
| `FlickerFreeClock.RunMatchesTotal` | hooks/flickerFreeClock.ts:26-33 | After any sequence of frames from the initial state, `integratedTime` is the sum of each frame's delta times that frame's speed, with 0 for paused frames. `lastTimestamp` is the last frame's timestamp. |
| `FlickerFreeClock.SpeedChangeIsLocal` | hooks/flickerFreeClock.ts:28-30 | Changing the speed of any one frame changes the total by that frame's own `delta * (new - old)` and nothing else. No earlier or later contribution is rescaled. |
| `FlickerFreeClock.WithSpeedAtLast` | hooks/flickerFreeClock.ts:28-30 | Changing the last frame's speed leaves every earlier frame alone. It changes that frame's contribution by exactly its delta times the speed difference (0 when paused). |
| `FlickerFreeClock.WithSpeedBeforeLast` | hooks/flickerFreeClock.ts:28-30 | Changing the speed of a frame before the last leaves the last frame's contribution unchanged. It is the same change on the prefix. |
| `FlickerFreeClock.RunSpeedChangeIsLocal` | hooks/flickerFreeClock.ts:28-30 | On the clock itself: after any frames, giving one frame another speed changes `integratedTime` by exactly that frame's delta times the speed difference (0 when paused). Time accumulated by other frames is not rescaled. |
| `FlickerFreeClock.PausesKeepTime` | hooks/flickerFreeClock.ts:15-18 | Any run of paused frames leaves `integratedTime` unchanged and anchors the clock at the last paused frame's timestamp. |
| `FlickerFreeClock.ResumeAfterPause` | hooks/flickerFreeClock.ts:15-26 | After any history, a pause of any length and an unpaused frame, the time grows only by that frame's delta measured from the last paused timestamp (0 if that timestamp is 0). The wall-clock time spent paused adds nothing. |
| `FlickerFreeClock.ContributionNonNegative` | hooks/flickerFreeClock.ts:26-30 | With non-decreasing timestamps and speeds `>= 0`, no frame contributes a negative amount. |
| `FlickerFreeClock.TotalTimeMonotone` | hooks/flickerFreeClock.ts:26-30 | Under the same hypotheses, the reference total over any prefix is at most the total over the whole sequence. |
| `FlickerFreeClock.IntegratedTimeNonDecreasing` | hooks/flickerFreeClock.ts:26-30 | Under the same hypotheses, `integratedTime` after k frames is at most its value after all frames. |
| `FlickerFreeClock.BackwardTimestampDecreasesTime` | hooks/flickerFreeClock.ts:26-30 | Without clamping, frames at 10, 20 and 15 with speed 1 raise the time to 10, then lower it to 5. |
| `FlickerFreeClock.NegativeSpeedDecreasesTime` | hooks/flickerFreeClock.ts:26-30 | A speed of -1 over a 10 ms delta takes the time from 0 to -10. |

## Left out

- app/index.tsx is a static screen with no logic.
- The host scheduler and its shared cells are left out: `useFrameCallback`, `useSharedValue`, and the hook returning its shared value (hooks/flickerFreeClock.ts:1-5, 11-14, 36). The model makes one explicit `Step` call per frame instead. Callers read the `integratedTime` field directly.
- Concurrency between the UI thread and the JavaScript thread is left out. The speed and pause inputs are plain parameters of each step.
- IEEE-754 rounding in `*` and `+=` is left out. Arithmetic is exact over `real`, so NaN, infinities and signed zero do not arise.
- A trajectory generator, pointer tracker, position blender, uniform packager and shader are not in the source files modelled here and are not part of this model.
