# PowerControl: fixed-point PI regulator and slew-rate limiter in Dafny

This project models the two stateful integer engines of `PowerControl/PowerControl.cpp`.

- **`PIControl`** is a PI regulator. Its gains and output limits are held in Q8 fixed point (scale 256). Its integral part is clamped to the output limits. It applies one of two anti-windup rules: freeze the integral while saturated, or back-calculate it.
- **`SRControl`** is a slew-rate limiter. Its scaled state follows a scaled input by at most `maxrsr` upward and `-maxfsr` downward per call.

Each class is a Dafny class with the source's fields. Its methods assign them in the source's order:

- the if/else-if clamp chains;
- the conditional commit of `prevPartI`;
- the in-place update of `py`.

Each mutating method is proved against a pure function of the state before the call (`Law`, `SlewStep`). The properties of those functions are proved as their own `ensures` and as lemmas.

Modules:

- `FixedPoint` (`fixed_point.dfy`): C++ truncating division `TruncDiv` and the lemmas about it, the clamp chain `Clamp`, the `Int32` and `Int16` ranges, and the constants 256 and 10.
- `PIController` (`pi_control.dfy`): the anti-windup switch as a datatype, the control law `Law` and its parts, multi-call and configuration lemmas, and class `PIControl`.
- `SlewRateLimiter` (`sr_control.dfy`): the step function `SlewStep`, the n-call ramp with its convergence and no-overshoot lemmas, and class `SRControl`.

Modelling decisions:

- **Integers.** All integers are mathematical. Each method's `requires` keeps every intermediate of the call inside `Int32`, and keeps the result of `control` inside the `Int16` it is narrowed to at line 125. Under those conditions the source's arithmetic is exact.
- **Division.** Every `/` of the source is `TruncDiv`. It is specified by its remainder: the remainder has the sign of the dividend and is smaller than the divisor in magnitude.
- **Anti-windup switch.** `ANTI_WINDUP_METHOD` (line 25) becomes `const antiWindup: AntiWindup`, given to the constructor. Method 1 is `Freeze`, which is what the file builds with. Method 2 is `BackCalc`.
- **`yCutoff`.** The function-static `yCutoff` (lines 70, 114) becomes a field of `PIControl`. The source has a single regulator, so one static and one field behave alike.
- **Uninitialised `py`.** `SRControl`'s constructor leaves `py` uninitialised. A ghost flag `presetDone` records that `Preset` has run, and `LimitSlewRate` requires it.

In four places the code does not do what its intended behaviour calls for. The model follows the code:

- **Rounding.** The final rounding of `control` is meant to be round-half-away-from-zero. The code computes `(yLimited + 128) / 256` with truncating division. For `yLimited >= -128` that rounds to nearest, with halves going up. For smaller values it is one unit above the nearest with halves rounded down, that is `yLimited/256 + 1/2` truncated toward zero; at an exact half such as -384 this coincides with the halves-up nearest, -1 (`RoundOutput`). So a negative limit `a` set by `with_minY(a)` comes back as `a + 1` (`RoundScaledLimit`).
- **`reset`.** `reset` is meant to zero the previous error as well. The code's `reset` (line 40) zeroes only `prevPartI`, and so does `Reset`.
- **Integral bound.** The integral memory is meant to lie always within `[minY, maxY]`. That holds for `Freeze` once the memory is inside the limits (`FreezeNeverWindsUp`). It does not hold for `BackCalc` (`BackCalcCanLeaveLimits`). The shipped regulator starts with the memory at 0, below `minY`, and a saturated first call leaves it there (`ShippedConfiguration`). From any start, the freeze rule either leaves the memory where it started or brings it inside the limits (`FreezeStaysOrEntersLimits`).
- **Configuration checks.** Configuration errors (`minY > maxY`, `maxrsr < maxfsr`, a zero denominator) are meant to be rejected. The code checks none of them. The model therefore states each bound under the ordering it needs. A zero denominator is a `requires` of the constructor and of `Preset`, because the source divides by it.

## Model

| member | source | states |
|---|---|---|
| `FixedPoint.TruncDiv` | PowerControl/PowerControl.cpp:139-140 | C++ `/`: the remainder `a - q*b` has the sign of `a` and is smaller than `b` in magnitude, which fixes `q` (`TruncDivUnique`) |
| `FixedPoint.TruncDivMonotone` | PowerControl/PowerControl.cpp:125 | C++ `/` by a positive divisor preserves order |
| `FixedPoint.Clamp` | PowerControl/PowerControl.cpp:82-89 | the upper-bound-first clamp chain: in `[lo, hi]` when `lo <= hi`; unchanged exactly when already inside; `hi` above, `lo` below |
| `PIController.ScaleGain` | PowerControl/PowerControl.cpp:41-42 | `with_kp`/`with_ki` scaling: `10*g` is `256*x` truncated toward zero by less than 10 |
| `PIController.CommitIntegral` | PowerControl/PowerControl.cpp:105-118 | both rules store the clamped integral when the output is in range; Freeze keeps the old memory on a saturated call and keeps it within the limits; BackCalc makes P part plus stored integral equal the limited output |
| `PIController.RoundOutput` | PowerControl/PowerControl.cpp:125 | nearest-unit rounding with halves up for values from -128 on; below that, one unit above the nearest with halves rounded down |
| `PIController.RoundOutputMonotone` | PowerControl/PowerControl.cpp:125 | a larger limited output never rounds to a smaller result |
| `PIController.Law` | PowerControl/PowerControl.cpp:72-125 | one call of `control` as a value: deviation, P part, clamped integral, output limited and rounded, next memory. It has no `ensures` of its own; `LawWithinLimits`, `LawFreezeKeepsMemoryInLimits`, `FreezeNeverWindsUp`, `FreezeStaysOrEntersLimits` and `OutputWithinConfiguredLimits` state its properties |
| `PIController.LawWithinLimits` | PowerControl/PowerControl.cpp:80-112 | for one call of the control law `Law`: with `minY <= maxY` the clamped integral and the limited output lie in the limits; the integral candidate is kept exactly when it lies inside; the output is left unlimited exactly when it lies inside |
| `PIController.LawFreezeKeepsMemoryInLimits` | PowerControl/PowerControl.cpp:95-112 | under Freeze, one call keeps an integral memory that lies in `[minY, maxY]` inside it |
| `PIController.FreezeNeverWindsUp` | PowerControl/PowerControl.cpp:95-112 | under Freeze, with `minY <= maxY` and a memory that starts inside `[minY, maxY]`, any sequence of calls keeps it there (the shipped regulator starts at 0, below `minY`, so it does not meet this) |
| `PIController.Integrate` | PowerControl/PowerControl.cpp:72-125 | the integral memory after a sequence of `control` calls; no `ensures` of its own, described by `FreezeNeverWindsUp` and `FreezeStaysOrEntersLimits` |
| `PIController.FreezeStaysOrEntersLimits` | PowerControl/PowerControl.cpp:95-112 | under Freeze, with `minY <= maxY` and any start (the shipped 0 below `minY` included), the memory after any sequence of calls is either its start or inside `[minY, maxY]` |
| `PIController.BackCalcCanLeaveLimits` | PowerControl/PowerControl.cpp:114-118 | under BackCalc a saturated call can store an integral below `minY` |
| `PIController.RoundScaledLimit` | PowerControl/PowerControl.cpp:125 | a limit `a*256` rounds back to `a` for `a >= 0` and to `a + 1` for `a < 0` |
| `PIController.OutputWithinConfiguredLimits` | PowerControl/PowerControl.cpp:95-125 | with limits from `with_minY(a)`, `with_maxY(b)`, `a <= b`, `b >= 0`, every call returns a value in `[a, b]` |
| `PIController.PureProportional` | PowerControl/PowerControl.cpp:76-125 | with `ki = 0`, zero memory and limits around 0, the output is the rounded, clamped P part |
| `PIController.ZeroDeviationIdentity` | PowerControl/PowerControl.cpp:72-125 | with limits around zero (`minY <= 0 <= maxY`), a call after reset with `target == actual` returns 0 and leaves the memory 0 |
| `PIController.ShippedConfiguration` | PowerControl/PowerControl.cpp:18-22 | `with_kp(500)` is 12800, `with_ki(5)` is 128, `with_kp(-1)` is -25; with the shipped limits a deviation of 100 saturates at 5000 and leaves the memory at 0; a P-only regulator limited to `[-100, 100]` returns 100 |
| `PIController.PIControl.constructor` | PowerControl/PowerControl.cpp:47-55 | all fields zero, anti-windup rule as given |
| `PIController.PIControl.Reset` | PowerControl/PowerControl.cpp:40 | `prevPartI` becomes 0, nothing else changes |
| `PIController.PIControl.WithKp` | PowerControl/PowerControl.cpp:41 | `kp` becomes `ScaleGain(x)`, nothing else changes |
| `PIController.PIControl.WithKi` | PowerControl/PowerControl.cpp:42 | `ki` becomes `ScaleGain(x)`, nothing else changes |
| `PIController.PIControl.WithMaxY` | PowerControl/PowerControl.cpp:43 | `maxY` becomes `x*256`, nothing else changes |
| `PIController.PIControl.WithMinY` | PowerControl/PowerControl.cpp:44 | `minY` becomes `x*256`, nothing else changes |
| `PIController.PIControl.Control` | PowerControl/PowerControl.cpp:62-126 | `prevDeltaX` becomes `xTarget - xActual`; the new integral memory, `yCutoff` and the result are those of `Law` on the old state; gains and limits untouched; all fields stay `Int32` |
| `SlewRateLimiter.SlewStep` | PowerControl/PowerControl.cpp:151-160 | rate bound `maxfsr <= step <= maxrsr`; exact arrival when the target is in reach; no overshoot when `maxfsr <= 0 <= maxrsr`; strictly closer when both rates are non-zero |
| `SlewRateLimiter.Ramp` | PowerControl/PowerControl.cpp:151-160 | the scaled state after a sequence of `n` calls with one input; no `ensures` of its own, described by `RampReachesTarget`, `RampNeverOvershoots` and `HoldIsIdempotent` |
| `SlewRateLimiter.RampReachesTarget` | PowerControl/PowerControl.cpp:153-158 | `n` calls with one input reach it once `n` full-rate steps cover the distance |
| `SlewRateLimiter.RampNeverOvershoots` | PowerControl/PowerControl.cpp:153-158 | over any number of calls the state stays between its start and the target and never moves away from it |
| `SlewRateLimiter.HoldIsIdempotent` | PowerControl/PowerControl.cpp:153-158 | repeating a call whose input equals the state changes nothing |
| `SlewRateLimiter.PresetThenHold` | PowerControl/PowerControl.cpp:145-160 | after `preset(v, 1)` the state is `v` scaled; `limitSlewRate(v)` keeps it and returns `v` |
| `SlewRateLimiter.OutputRateBound` | PowerControl/PowerControl.cpp:158-159 | successive results differ by less than `(max(maxrsr, -maxfsr) + f) / f` |
| `SlewRateLimiter.DriverLimiters` | PowerControl/PowerControl.cpp:178-182 | `SRControl(100, 830, 505, -830, 505)` gets rates 164 and -164 (not floor's -165); `SRControl(1, 83, 1, -83, 1)` gets 83 and -83 |
| `SlewRateLimiter.SRControl.constructor` | PowerControl/PowerControl.cpp:136-143 | scale factor stored, rates are the truncated quotients, state not yet preset |
| `SlewRateLimiter.SRControl.Preset` | PowerControl/PowerControl.cpp:145-149 | `py` becomes `(a * scaleFactor) / b` truncated; only `py` changes |
| `SlewRateLimiter.SRControl.LimitSlewRate` | PowerControl/PowerControl.cpp:151-160 | `py` becomes `SlewStep` of the old state toward `x*scaleFactor`; returns `py / scaleFactor` truncated; scale factor and rates untouched |

## Left out

- `main` (lines 169-233): argument parsing with `atoi`, the 400-step simulation over `double` time and temperature, and the trace. It is floating-point orchestration and console I/O; its configuration constants appear only as the test vectors in `ShippedConfiguration` and `DriverLimiters`.
- All `printf` tracing (lines 59, 74, 98, 103, 111, 122-123, 141-142, 148): it has no effect on state. The trace in `preset` divides by `scaleFactor`; with the trace gone, `Preset` does not require a non-zero scale factor.
- The destructor, the `stdafx.h` and `System` includes and the commented-out managed `main` (lines 163-167): platform plumbing.
- `Int32` wrap-around and `Int16` truncation: overflow of `int` is undefined in the source. The model instead requires every intermediate to fit (`Representable`, `ConfigRepresentable`, `StepRepresentable`).
- `yCutoff` shared between several `PIControl` objects: the source's function-static is shared by all instances, while the model gives each instance its own field. The source creates only one regulator.
- PIController.OutputWithinConfiguredLimits: stated for a non-negative upper limit only, because for `b < 0` the rounding returns `b + 1` when the output saturates high (see `RoundScaledLimit`).
- SlewRateLimiter.OutputRateBound: stated for a positive scale factor only; every limiter the source builds has one.
