# Chunkymator keyframe preprocessing in Dafny

This project models the preprocessing that Chunkymator's `morph.py` applies to
camera keyframes before it interpolates them. It covers three parts:

- **findInflection** (`inflection.dfy`, module `Inflection`). A pure scan. The
  first pair of values fixes a direction: up (`<=`) or down (`>=`). The result
  is the index just after the first pair that breaks that direction. There is
  none for two values or fewer.
- **overrideSunMovement** (`sun_movement.dfy`, module `SunMovement`). The
  recursive in-place rewrite of the sun altitudes of the scenes. The altitudes
  are one `array<real>`, and a call works on an index range `[lo, hi)`. The
  Python slices `scenes[:ip]` and `scenes[ip-1:]` share their scene objects
  with the caller's list, so a slice is such a range of the one array. The
  method is proved against the function `Override` on sequences. Its
  postcondition `RangeOverridden` says that the range holds `Override` of what
  it held and that nothing outside the range changed.
- **getTimes** (`timing.dfy`, module `Timing`). It turns 3-D keyframe
  positions into a cumulative time axis and a total path length. The method
  `GetTimes` keeps the code's loop (`AccumulateTimes`), with its
  `times.append`, its `times[-1] += times[-2]` and its running `totalLength`.
  It also keeps the coincident-keyframes branch and the in-place rescale to a
  fixed length. It is proved equal to the function `Times`, and the
  properties the tests check are lemmas about `Times`: scaling laws, append,
  prefix, triangle additivity, the fixed-length rescale and the coincident
  case.

`wrappers.dfy` holds `Option` and `Result`. `arith.dfy` (module `RealArith`)
holds a few facts about real multiplication and division.

Python failures become error values of `Timing.TimesError`:

| error | where the code fails |
|---|---|
| `EmptyPath` | `xes[0]` indexes an empty list |
| `MissingFixedLength` | `i * None` in the coincident branch |
| `ZeroSpeed` | `v == 0` divides by zero in the loop |
| `ZeroRawDuration` | the rescale divides by a last time of 0 |

Three behaviours of the code worth noting:

- findInflection fixes the direction once, from the first pair, and never
  changes it, so `[1, 2, 2, 1]` gives 3 (morph.py:49-54).
- With coincident keyframes, `totalLength` is the fixed length, not the
  length of the path, which is 0 (morph.py:97).
- The monotone rewrite writes `i * step` with no `dawn` added (morph.py:80).
  This is the finding listed below.

The square root `** 0.5` at morph.py:107 is a parameter `sqrt: real -> real`.
The lemmas that need distances to be non-negative, and zero exactly between
equal points, require `MeasuresDistance(sqrt)`.

## Model

| member | source | states |
|---|---|---|
| Inflection.Follows | morph.py:46-47 | definition of the direction test `isUp` / `isDown`: `x <= y` going up, `x >= y` going down |
| Inflection.Monotone | morph.py:62-65 | definition of `isIncreasing` / `isDecreasing`: every pair of neighbours follows the direction |
| Inflection.Direction | morph.py:49-50 | definition of the direction the first pair fixes: up when `values[0] <= values[1]` |
| Inflection.ScanFrom | morph.py:52-54 | a found index lies after the start of the scan and inside the sequence |
| Inflection.ScanFromCorrect | morph.py:52-54 | the scan stops just after the first pair from `i` on that breaks the direction, and finds nothing exactly when every such pair follows it |
| Inflection.FindInflection | morph.py:41-54 | None for two values or fewer; a found index `k` satisfies `2 <= k <= len - 1` |
| Inflection.FindInflectionCorrect | morph.py:46-54 | pair `(k-1, k)` breaks the direction fixed by `values[0] <= values[1]`, every earlier pair follows it, and the result is None exactly when the whole sequence follows it |
| Inflection.NonMonotoneHasInflection | morph.py:62-70 | a sequence that is neither non-decreasing nor non-increasing has an inflection `k`, and both recursive ranges `[0, k)` and `[k-1, n)` have at least 2 and fewer than `n` values |
| Inflection.FindInflectionExamples | morph_test.py:186-211 | the results the tests expect: None for `[]`, `[5]`, `[4,3]`, `[1,2,3]`, `[3,2,1]`; 2 for `[1,2,1]` and `[1,0,1]`; 3 for `[1,2,3,0]` and `[3,2,1,4]`; and 3 for `[1,2,2,1]` |
| SunMovement.Dawn | morph.py:73 | definition of dawn: the first value of a non-decreasing run, else the last |
| SunMovement.Dusk | morph.py:74 | definition of dusk: the first value of a non-increasing run, else the last |
| SunMovement.Step | morph.py:76-77 | definition of the step `(dusk - dawn) / (num - 1)`; its value by direction is proved in `StepByDirection` |
| SunMovement.Override | morph.py:56-80 | the rewrite of one range keeps its length and its first and last value, and leaves a range of two values or fewer unchanged |
| SunMovement.OverrideAtInflection | morph.py:67-71 | the split rewrite keeps the length and both ends of the range |
| SunMovement.Ramp | morph.py:73-80 | the monotone rewrite keeps both ends and sets every interior index `i` to `i * step` |
| SunMovement.OverrideSunMovement | morph.py:56-71 | on the array, the range `[lo, hi)` ends up holding `Override` of its old contents, and every altitude outside the range stays as it was |
| SunMovement.RewriteMonotoneRange | morph.py:73-80 | the monotone branch on the array: dawn, dusk and step from the range, interior index `lo + i` set to `i * step`, ends and outside unchanged |
| SunMovement.RewriteRange | morph.py:79-80 | the array the loop leaves is the monotone rewrite of the range, with everything else untouched |
| SunMovement.OverrideSplit | morph.py:67-70 | unfolding of `Override`'s split case: the left side's rewrite without its last value, then the right side's rewrite |
| SunMovement.OverrideRangeSplit | morph.py:68-70 | rewriting `[lo, mid)` and then `[mid-1, hi)` in place is rewriting `[lo, hi)`, for `mid - lo` the inflection |
| SunMovement.RangeKeepsLast | morph.py:69-70 | `Override`'s last-value clause restated for a range of an array: the value at the range's last index is kept, which is where the second recursive call starts |
| SunMovement.SplitFrames | morph.py:69-70 | the index bookkeeping of the two overlapping in-place calls |
| SunMovement.OverrideKeepsTurningPoint | morph.py:67-70 | in the split case the value at the shared index `ip - 1` is never changed |
| SunMovement.MonotoneEnds | morph.py:62-65 | the ends of a non-decreasing or non-increasing run are ordered that way |
| SunMovement.OverrideOfMonotone | morph.py:73-80 | unfolding of `Override`'s monotone case: `Ramp` with the run's own step |
| SunMovement.RampAt | morph.py:79-80 | `Ramp`'s interior clause at one index: `i * step` |
| SunMovement.StepByDirection | morph.py:73-77 | the step is `(last - first) / (num - 1)` for a non-decreasing run and `(first - last) / (num - 1)` for a non-increasing one |
| SunMovement.OverrideMonotoneRun | morph.py:73-80 | every interior altitude `i` of a monotone run of more than two becomes `i * (dusk - dawn) / (num - 1)` |
| SunMovement.RunEndsDifference | morph.py:73-74 | `dusk - dawn` is the rise of a non-decreasing run and the fall of a non-increasing one, also when the run is both |
| SunMovement.OverrideKeepsRampFromZero | morph.py:73-80 | an evenly spaced non-decreasing ramp starting at 0 is left unchanged |
| SunMovement.RampRunStep | morph.py:73-77 | for `c >= 0`, the step of the ramp `i * c` is `c` |
| SunMovement.RampOfRamp | morph.py:79-80 | the ramp `i * c` rewritten with step `c` is itself |
| SunMovement.OverrideExamples | morph_test.py:170-178 | the altitudes 0 to 4 of the sun test stay the same |
| SunMovement.RewriteRunMovesRaisedRun | morph.py:80 | as written, `[10, 11, 12]` becomes `[10, 1, 12]`, and `[4, 3, 2, 1, 0]` becomes `[4, 1, 2, 3, 0]`, which is no longer non-increasing |
| SunMovement.InterpolateRun | morph.py:73-80 | the corrected rewrite keeps the length and both ends |
| SunMovement.InterpolateRunAt | morph.py:73-80 | every value of the corrected rewrite lies on the line from the first value to the last |
| SunMovement.InterpolateRunKeepsDirection | morph.py:73-80 | the corrected rewrite of a monotone run is monotone in the same direction |
| SunMovement.InterpolateRunKeepsEvenSpacing | morph.py:73-80 | the corrected rewrite leaves an evenly spaced run unchanged, wherever it starts |
| Timing.AllSame | morph.py:86-92 | definition of `areAllSame`: every keyframe has the x, y and z of the first |
| Timing.Distance | morph.py:103-107 | definition of the distance between neighbouring keyframes, the square root of the sum of the squared coordinate differences |
| Timing.SegmentTime | morph.py:109 | definition of a segment's time `distance * r / v` |
| Timing.PathLength | morph.py:111 | definition of `totalLength` accumulated by the loop: the sum of the distances between neighbours |
| Timing.SegmentTimeZero | morph.py:109 | a segment of length 0 takes no time |
| Timing.SegmentTimeAdd | morph.py:109-111 | segment times add up like the lengths |
| Timing.SegmentTimeScaleRate | morph.py:109 | multiplying the rate by `c` multiplies a segment time by `c` |
| Timing.SegmentTimeScaleSpeed | morph.py:109 | multiplying the speed by a non-zero `c` divides a segment time by `c` |
| Timing.SegmentTimeSign | morph.py:109 | a segment time is non-negative for a non-negative length and rate at a positive speed, and positive when length and rate are positive |
| Timing.RawTimes | morph.py:99-110 | the loop's times: one per keyframe, the first 0 |
| Timing.Uniform | morph.py:95-96 | definition of the coincident times `i * L / (n - 1)`, one per keyframe; their spacing is proved in `UniformSpacing` |
| Timing.Scale | morph.py:115 | definition of the rescale's comprehension, every time multiplied by the factor; what the rescale achieves is proved in `FitLength` and `TimesFixed` |
| Timing.Measure | morph.py:89-111 | the timing before the rescale has one time per keyframe, starting at 0 |
| Timing.FitLength | morph.py:113-115 | the rescale fails exactly when a fixed length meets a last time of 0; otherwise it keeps the number of times, the length and the first time 0, and with a fixed length it makes the last time the fixed length; without one it changes nothing |
| Timing.Times | morph.py:82-117 | an empty path fails at `xes[0]`; coincident keyframes without a fixed length fail; speed 0 with a segment fails; each of these exactly in its case; a result has one time per keyframe, the first 0 |
| Timing.AccumulateTimes | morph.py:99-111 | the loop's result is the times `RawTimes` and the length `PathLength`, or the speed-0 error when there is a segment |
| Timing.GetTimes | morph.py:82-117 | the method returns `Times` of its inputs |
| Timing.RawTimesExtend | morph.py:109-110 | one turn of the loop appends the segment time plus the previous last time |
| Timing.RawTimesPrefix | morph.py:99-111 | the times of a prefix of the path are a prefix of the times |
| Timing.PathLengthPrefix | morph.py:111 | the length grows by each segment's distance |
| Timing.RawTimesStep | morph.py:107-110 | `times[i+1] == times[i] + distance_i * r / v` |
| Timing.RawTimesAt | morph.py:107-111 | the time of keyframe `i` is the length of the path up to it times `r / v` |
| Timing.RawTimesIncrease | morph.py:109-110 | at a non-negative rate and a positive speed the times never decrease, and they strictly increase across distinct points when the rate is positive |
| Timing.RawTimesScaleRate | morph.py:109 | multiplying the rate by `c` multiplies every loop time by `c` |
| Timing.RawTimesScaleSpeed | morph.py:109 | multiplying the speed by a non-zero `c` divides every loop time by `c` |
| Timing.PathLengthSplit | morph.py:111 | the length of a path is the length up to keyframe `k` plus the length from it on |
| Timing.TimesUnfixed | morph.py:98-111 | unfolding of `Times` without a fixed length and away from the coincident case: the loop's times and the path length |
| Timing.TimesSingle | morph.py:83-115 | one keyframe gives `([0], 0)`, and with a fixed length the rescale divides by 0 |
| Timing.TimesScaleRate | morph.py:109 | without a fixed length, multiplying the rate by `c` fails in the same cases, multiplies every time by `c` and keeps the length |
| Timing.TimesScaleSpeed | morph.py:109 | without a fixed length, multiplying the speed by a non-zero `c` fails in the same cases, divides every time by `c` and keeps the length |
| Timing.TimesAppend | morph.py:99-111 | appending a keyframe keeps every earlier time and adds one after the old last by the new segment's time, strictly later for a distinct point; the length grows by the new distance |
| Timing.TimesTriangle | morph.py:99-111 | for a distinct new point, the last-time difference and the added length are those of the two-point path from the old last keyframe |
| Timing.TimesFixed | morph.py:113-115 | with fixed length `l` every time is multiplied by `l / last`; the last time is then `l` and the length is unchanged; it fails exactly when the last time before the rescale is 0 |
| Timing.TimesFixedScalesUnfixed | morph.py:113-115 | away from the coincident case, the fixed-length times are the times without a fixed length times one scalar; the length is the same |
| Timing.TimesCoincident | morph.py:94-115 | coincident keyframes fail without a fixed length, fail the rescale exactly when it is 0, and otherwise get `i * l / (n - 1)` and length `l` |
| Timing.UniformSpacing | morph.py:95-96 | the coincident times run from 0 to `l`, `l / (n - 1)` apart |
| Timing.TimesCoincidentExample | morph_test.py:157-167 | three coincident keyframes with fixed length 100 get the times 0, 50, 100 |

## Left out

- `getCameraAngles`, `saveFiles`, `main` and the module's command-line
  handling are not part of this model. They are trigonometry on floats, file
  output and argument parsing.
- The spline engine in `dictionary_spline.py` is not part of this model.
- Numbers are mathematical reals. Float rounding, NaN and infinities are not
  modelled.
- Timing.Uniform: does not model Python 2 floor division at morph.py:95.
  `main` passes the `-t` length as an `int` (morph.py:160-163, 238), so with
  coincident keyframes `i * fixedLength / (len - 1)` divides two integers:
  `n = 4, L = 10` gives `[0, 3, 6, 10]`, where the model gives thirds of 10.
  The rescale after that branch, `fixedLength / times[-1]` (morph.py:114),
  is also int by int: `times[-1]` is the int `(n - 1) * L / (n - 1) == L`,
  so the factor is `L / L == 1` and the rescale changes nothing there. In the
  loop branch the times are floats, since `distance` comes from `** 0.5`
  (morph.py:107), so the loop and its rescale divide as floats.
- The square root at morph.py:107 is a parameter. The lemmas assume
  `MeasuresDistance`: non-negative, and zero exactly between equal points.
  They do not derive this from `(dx*dx + dy*dy + dz*dz) ** 0.5`.
- Keyframes are reduced to their position (`Point`), scenes to their sun
  altitude. So overrideSunMovement cannot change a position: the model has
  no positions there.
- SunMovement.OverrideSunMovement: the one array of altitudes assumes that
  the scene list holds distinct scene objects. If one object stood at two indices,
  `setSunAltitude` (morph.py:80) would change both; the model does not
  capture that aliasing.
- The `xes`, `yes`, `zes` lists are not built. `AllSame` states the
  `count(...) == len(...)` tests directly.
- The monotone branch of overrideSunMovement is its own method,
  `RewriteMonotoneRange`, which the recursive method calls.
- The loop of getTimes is its own method, `AccumulateTimes`, which
  `GetTimes` calls.
- The rescale's `times[:] = ...` reassigns the sequence variable. No other
  reference to the old list exists in getTimes, so nothing observes the
  aliasing.

## Findings

| source | as written | input that shows it | evidently intended | confidence | as-written member | corrected member |
|---|---|---|---|---|---|---|
| morph.py:80 | interior altitudes become `i * step`, with no `dawn` added | `[10, 11, 12]` becomes `[10, 1, 12]`; the decreasing `[4, 3, 2, 1, 0]` becomes `[4, 1, 2, 3, 0]` | straight-line interpolation between the run's ends, `dawn + i * step` from the lower end, which keeps a monotone run monotone | medium, not executed | SunMovement.RewriteRunMovesRaisedRun | SunMovement.InterpolateRunKeepsDirection |

The sun test uses altitudes 0 to 4. They start at 0, so both versions pass
it (`OverrideKeepsRampFromZero`, `InterpolateRunKeepsEvenSpacing`).
`OverrideSunMovement` models the code as written. The corrected rewrite is
the separate function `InterpolateRun`.
