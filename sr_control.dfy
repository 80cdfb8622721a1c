/** The slew-rate limiter of PowerControl.cpp (class `SRControl`): a scaled
    state that follows the scaled input by at most `maxrsr` upward and at
    most `-maxfsr` downward per call. */
module SlewRateLimiter {
  import opened FixedPoint

  /** One call of `limitSlewRate` on the scaled state: the step toward the
      scaled input `target` is clamped to `[maxfsr, maxrsr]`. */
  function SlewStep(py: int, target: int, maxfsr: int, maxrsr: int): (next: int)
    // The rate bound.
    ensures maxfsr <= maxrsr ==> maxfsr <= next - py <= maxrsr
    // A reachable target is reached exactly.
    ensures maxfsr <= target - py <= maxrsr ==> next == target
    // No overshoot: the new state lies between the old state and the target.
    ensures maxfsr <= 0 <= maxrsr ==> (py <= next <= target || target <= next <= py)
    // With both rates non-zero, every call away from the target gets closer.
    ensures maxfsr < 0 < maxrsr && py != target ==> Abs(target - next) < Abs(target - py)
  {
    py + Clamp(target - py, maxfsr, maxrsr)
  }

  /** The scaled state after `n` calls with the same scaled input. */
  function Ramp(py: int, target: int, maxfsr: int, maxrsr: int, n: nat): (p: int)
    decreases n
  {
    if n == 0 then py else Ramp(SlewStep(py, target, maxfsr, maxrsr), target, maxfsr, maxrsr, n - 1)
  }

  lemma MulStep(n: nat, rate: int)
    requires n >= 1
    ensures (n - 1) * rate == n * rate - rate
  {
  }

  /** Convergence: `n` calls with a constant input reach it as soon as `n`
      full-rate steps cover the distance. */
  lemma {:induction false} RampReachesTarget(py: int, target: int, maxfsr: int, maxrsr: int, n: nat)
    requires maxfsr < 0 < maxrsr
    requires target - py <= n * maxrsr
    requires py - target <= n * (-maxfsr)
    ensures Ramp(py, target, maxfsr, maxrsr, n) == target
    decreases n
  {
    if n == 0 {
      assert py == target;
    } else {
      var next := SlewStep(py, target, maxfsr, maxrsr);
      MulStep(n, maxrsr);
      MulStep(n, -maxfsr);
      RampReachesTarget(next, target, maxfsr, maxrsr, n - 1);
    }
  }

  /** No overshoot over any number of calls: the state stays between its
      start and the constant target, and never moves away from the target. */
  lemma {:induction false} RampNeverOvershoots(py: int, target: int, maxfsr: int, maxrsr: int, n: nat)
    requires maxfsr <= 0 <= maxrsr
    ensures var p := Ramp(py, target, maxfsr, maxrsr, n);
            (py <= p <= target || target <= p <= py) && Abs(target - p) <= Abs(target - py)
    decreases n
  {
    if n > 0 {
      RampNeverOvershoots(SlewStep(py, target, maxfsr, maxrsr), target, maxfsr, maxrsr, n - 1);
    }
  }

  /** Once on target, repeating the same call changes nothing. */
  lemma {:induction false} HoldIsIdempotent(target: int, maxfsr: int, maxrsr: int, n: nat)
    requires maxfsr <= 0 <= maxrsr
    ensures Ramp(target, target, maxfsr, maxrsr, n) == target
    decreases n
  {
    if n > 0 {
      HoldIsIdempotent(target, maxfsr, maxrsr, n - 1);
    }
  }

  /** `preset(v, 1)` followed by `limitSlewRate(v)`: the state is `v` scaled,
      the call leaves it there and returns `v`. */
  lemma PresetThenHold(v: int, f: int, maxfsr: int, maxrsr: int)
    requires f != 0 && maxfsr <= 0 <= maxrsr
    ensures TruncDiv(v * f, 1) == v * f
    ensures SlewStep(v * f, v * f, maxfsr, maxrsr) == v * f
    ensures TruncDiv(v * f, f) == v
  {
    TruncDivOfMultiple(v * f, 1);
    TruncDivOfMultiple(v, f);
  }

  /** The returned, unscaled values of two consecutive calls differ by less
      than one unit more than the state's step allows. */
  lemma OutputRateBound(py: int, target: int, maxfsr: int, maxrsr: int, f: int)
    requires f > 0 && maxfsr <= maxrsr
    ensures var next := SlewStep(py, target, maxfsr, maxrsr);
            var rate := if maxrsr >= -maxfsr then maxrsr else -maxfsr;
            Abs(TruncDiv(next, f) - TruncDiv(py, f)) * f < rate + f
  {
    TruncDivStep(py, SlewStep(py, target, maxfsr, maxrsr), f);
  }

  /** The limiters the driver builds: `SRControl(100, +830, 505, -830, 505)`
      and `SRControl(1, +83, 1, -83, 1)`. Truncation gives -164 where
      floor division would give -165. */
  lemma DriverLimiters()
    ensures TruncDiv(830 * 100, 505) == 164 && TruncDiv(-830 * 100, 505) == -164
    ensures (-830 * 100) / 505 == -165
    ensures TruncDiv(83 * 1, 1) == 83 && TruncDiv(-83 * 1, 1) == -83
  {
  }

  /** The constructor's arithmetic stays in `Int32`. */
  predicate ConfigRepresentable(f: int, rsra: int, rsrb: int, fsra: int, fsrb: int)
  {
    rsrb != 0 && fsrb != 0 && IsInt32(f) &&
    IsInt32(rsra * f) && IsInt32(TruncDiv(rsra * f, rsrb)) &&
    IsInt32(fsra * f) && IsInt32(TruncDiv(fsra * f, fsrb))
  }

  /** One call of `limitSlewRate(x)` stays in `Int32`. */
  predicate StepRepresentable(py: int, x: int, f: int, maxfsr: int, maxrsr: int)
  {
    f != 0 && IsInt32(x * f) && IsInt32(x * f - py) &&
    IsInt32(SlewStep(py, x * f, maxfsr, maxrsr)) &&
    IsInt32(TruncDiv(SlewStep(py, x * f, maxfsr, maxrsr), f))
  }

  class SRControl {
    var py: int
    var maxrsr: int
    var maxfsr: int
    var scaleFactor: int
    /** The constructor leaves `py` uninitialised; `preset` sets it. */
    ghost var presetDone: bool

    ghost predicate Valid()
      reads this
    {
      IsInt32(maxrsr) && IsInt32(maxfsr) && IsInt32(scaleFactor) && (presetDone ==> IsInt32(py))
    }

    constructor (f: int, rsra: int, rsrb: int, fsra: int, fsrb: int)
      requires ConfigRepresentable(f, rsra, rsrb, fsra, fsrb)
      ensures Valid() && !presetDone
      ensures scaleFactor == f
      ensures maxrsr == TruncDiv(rsra * f, rsrb) && maxfsr == TruncDiv(fsra * f, fsrb)
    {
      scaleFactor := f;
      maxrsr := TruncDiv(rsra * f, rsrb);
      maxfsr := TruncDiv(fsra * f, fsrb);
      presetDone := false;
    }

    /** Sets the state to `a / b` in units of the scale factor. */
    method Preset(a: int, b: int)
      requires Valid() && b != 0
      requires IsInt32(a * scaleFactor) && IsInt32(TruncDiv(a * scaleFactor, b))
      modifies this`py, this`presetDone
      ensures Valid() && presetDone
      ensures py == TruncDiv(a * old(scaleFactor), b)
    {
      py := TruncDiv(a * scaleFactor, b);
      presetDone := true;
    }

    /** One ramp step toward `x`; the scale factor and both rates are not
        touched (only `py` is in the frame). */
    method LimitSlewRate(x: int) returns (r: int)
      requires Valid() && presetDone
      requires StepRepresentable(py, x, scaleFactor, maxfsr, maxrsr)
      modifies this`py
      ensures Valid() && presetDone
      ensures py == SlewStep(old(py), x * scaleFactor, maxfsr, maxrsr)
      ensures r == TruncDiv(py, scaleFactor)
    {
      var dx := x * scaleFactor - py;
      if dx > maxrsr {
        dx := maxrsr;
      } else if dx < maxfsr {
        dx := maxfsr;
      }
      py := py + dx;
      r := TruncDiv(py, scaleFactor);
    }
  }
}
