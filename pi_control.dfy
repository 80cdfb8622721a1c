/** The integer PI regulator of PowerControl.cpp (class `PIControl`): gains
    and output limits in Q8 fixed point, an integral part clamped to the
    output limits, and one of two anti-windup rules. */
module PIController {
  import opened FixedPoint

  /** The compile-time switch `ANTI_WINDUP_METHOD`: 1 freezes the integral
      while the output is saturated, 2 back-calculates it. The shipped build
      uses Freeze. */
  datatype AntiWindup = Freeze | BackCalc

  /** The configuration a call of `control` reads: scaled gains, scaled
      output limits and the anti-windup rule. */
  datatype Tuning = Tuning(kp: int, ki: int, minY: int, maxY: int, antiWindup: AntiWindup)

  /** Every intermediate of one call of `control`, in Q8 fixed point except
      `deviation` and `output`. */
  datatype Step = Step(
    deviation: int,
    partP: int,
    partI: int,
    y: int,
    yLimited: int,
    nextPartI: int,
    output: int)

  /** `with_kp` / `with_ki`: `(x * 256) / 10` with C++ division, so the
      scaled gain is the Q8 value of `x / 10` rounded toward zero. */
  function ScaleGain(x: int): (g: int)
    ensures x >= 0 ==> 0 <= x * FixedPointOne - KpDiv * g < KpDiv
    ensures x < 0 ==> -KpDiv < x * FixedPointOne - KpDiv * g <= 0
  {
    TruncDiv(x * FixedPointOne, KpDiv)
  }

  /** The anti-windup step: the integral memory that the call leaves behind,
      given the P part and the clamped integral part of this call. */
  function CommitIntegral(
    antiWindup: AntiWindup, prevPartI: int, partP: int, partI: int, minY: int, maxY: int): (next: int)
    // Both rules store the clamped integral when the output is not saturated.
    ensures minY <= partP + partI <= maxY ==> next == partI
    // Freeze: a saturated call, high or low, leaves the memory untouched ...
    ensures antiWindup == Freeze && !(minY <= partP + partI <= maxY) ==> next == prevPartI
    // ... so the memory stays inside the limits once it is inside them.
    ensures antiWindup == Freeze && minY <= prevPartI <= maxY && minY <= partI <= maxY ==>
              minY <= next <= maxY
    // BackCalc: the P part plus the stored integral reproduces the limited output.
    ensures antiWindup == BackCalc ==> partP + next == Clamp(partP + partI, minY, maxY)
  {
    var y := partP + partI;
    match antiWindup
    case Freeze => if y > maxY || y < minY then prevPartI else partI
    case BackCalc => partI - (y - Clamp(y, minY, maxY))
  }

  /** `(yLimited + 128) / 256` with C++ division: round to the nearest whole
      unit, halves upward, for values from -128 on; below that, truncation
      toward zero gives one unit above the nearest with halves rounded down. */
  function RoundOutput(yLimited: int): (r: int)
    ensures yLimited >= -FixedPointOne / 2 ==>
              r * FixedPointOne - FixedPointOne / 2 <= yLimited < r * FixedPointOne + FixedPointOne / 2
    ensures yLimited < -FixedPointOne / 2 ==>
              r * FixedPointOne - 3 * (FixedPointOne / 2) < yLimited <= r * FixedPointOne - FixedPointOne / 2
  {
    TruncDiv(yLimited + FixedPointOne / 2, FixedPointOne)
  }

  /** The final rounding preserves order: a larger limited output never
      returns a smaller result. */
  lemma RoundOutputMonotone(y1: int, y2: int)
    requires y1 <= y2
    ensures RoundOutput(y1) <= RoundOutput(y2)
  {
    TruncDivMonotone(y1 + FixedPointOne / 2, y2 + FixedPointOne / 2, FixedPointOne);
  }

  /** One call of `control(xTarget, xActual)` as a value. */
  function Law(t: Tuning, prevPartI: int, xTarget: int, xActual: int): (s: Step)
  {
    var deviation := xTarget - xActual;
    var partP := deviation * t.kp;
    var partI := Clamp(deviation * t.ki + prevPartI, t.minY, t.maxY);
    var y := partP + partI;
    var yLimited := Clamp(y, t.minY, t.maxY);
    Step(deviation, partP, partI, y, yLimited,
         CommitIntegral(t.antiWindup, prevPartI, partP, partI, t.minY, t.maxY),
         RoundOutput(yLimited))
  }

  /** Provided the limits are ordered, the clamped integral and the limited
      output of a call lie within them. The integral candidate is kept
      exactly when it already lies inside, and the output is left unlimited
      exactly when it lies inside. */
  lemma LawWithinLimits(t: Tuning, prevPartI: int, xTarget: int, xActual: int)
    ensures var s := Law(t, prevPartI, xTarget, xActual);
            (t.minY <= t.maxY ==> t.minY <= s.partI <= t.maxY && t.minY <= s.yLimited <= t.maxY) &&
            (s.partI == s.deviation * t.ki + prevPartI <==>
               t.minY <= s.deviation * t.ki + prevPartI <= t.maxY) &&
            (s.yLimited == s.y <==> t.minY <= s.y <= t.maxY)
  {
  }

  /** One call under the freeze rule keeps an integral memory that lies
      within the limits within them. */
  lemma LawFreezeKeepsMemoryInLimits(t: Tuning, prevPartI: int, xTarget: int, xActual: int)
    requires t.antiWindup == Freeze && t.minY <= prevPartI <= t.maxY
    ensures t.minY <= Law(t, prevPartI, xTarget, xActual).nextPartI <= t.maxY
  {
  }

  /** The call stays inside the source's `Int32` arithmetic and its result
      inside the `Int16` it is narrowed to. */
  predicate Representable(t: Tuning, prevPartI: int, xTarget: int, xActual: int)
  {
    var s := Law(t, prevPartI, xTarget, xActual);
    IsInt32(s.deviation) && IsInt32(s.partP) && IsInt32(s.deviation * t.ki) &&
    IsInt32(s.deviation * t.ki + prevPartI) && IsInt32(s.y) &&
    IsInt32(s.y - s.yLimited) && IsInt32(s.yLimited + FixedPointOne / 2) &&
    IsInt32(s.nextPartI) && IsInt16(s.output)
  }

  /** The integral memory after a sequence of calls, each a (target, actual)
      pair. */
  function Integrate(t: Tuning, prevPartI: int, inputs: seq<(int, int)>): (p: int)
    decreases |inputs|
  {
    if inputs == [] then prevPartI
    else Integrate(t, Law(t, prevPartI, inputs[0].0, inputs[0].1).nextPartI, inputs[1..])
  }

  /** With freeze-on-saturation, no sequence of calls, however long it pins
      the output, winds the integral memory out of the output limits. */
  lemma {:induction false} FreezeNeverWindsUp(t: Tuning, prevPartI: int, inputs: seq<(int, int)>)
    requires t.antiWindup == Freeze && t.minY <= t.maxY
    requires t.minY <= prevPartI <= t.maxY
    ensures t.minY <= Integrate(t, prevPartI, inputs) <= t.maxY
    decreases |inputs|
  {
    if inputs != [] {
      var next := Law(t, prevPartI, inputs[0].0, inputs[0].1).nextPartI;
      LawFreezeKeepsMemoryInLimits(t, prevPartI, inputs[0].0, inputs[0].1);
      FreezeNeverWindsUp(t, next, inputs[1..]);
    }
  }

  /** From any start, also one outside the limits such as the shipped
      regulator's 0 below `minY`, the freeze rule either leaves the memory
      where it started or brings it inside the limits, where it then stays. */
  lemma {:induction false} FreezeStaysOrEntersLimits(t: Tuning, prevPartI: int, inputs: seq<(int, int)>)
    requires t.antiWindup == Freeze && t.minY <= t.maxY
    ensures var p := Integrate(t, prevPartI, inputs);
            p == prevPartI || t.minY <= p <= t.maxY
    decreases |inputs|
  {
    if inputs != [] {
      var next := Law(t, prevPartI, inputs[0].0, inputs[0].1).nextPartI;
      LawWithinLimits(t, prevPartI, inputs[0].0, inputs[0].1);
      if next == prevPartI {
        FreezeStaysOrEntersLimits(t, prevPartI, inputs[1..]);
      } else {
        FreezeNeverWindsUp(t, next, inputs[1..]);
      }
    }
  }

  /** Back-calculation gives no such guarantee: a large P part drives the
      stored integral below `minY`. */
  lemma BackCalcCanLeaveLimits()
    ensures Law(Tuning(256, 0, 0, 256, BackCalc), 0, 10, 0).nextPartI == -2304
  {
  }

  /** A limit set by `with_minY(a)` / `with_maxY(b)` comes back as `a` for
      `a >= 0`, but as `a + 1` for negative `a`. */
  lemma RoundScaledLimit(a: int)
    ensures RoundOutput(a * FixedPointOne) == if a >= 0 then a else a + 1
  {
    var q := if a >= 0 then a else a + 1;
    TruncDivUnique(a * FixedPointOne + FixedPointOne / 2, FixedPointOne, q);
  }

  /** With limits set by `with_minY(a)` and `with_maxY(b)`, `a <= b`, and a
      non-negative upper limit, every call returns a value in `[a, b]`. */
  lemma OutputWithinConfiguredLimits(
    kp: int, ki: int, a: int, b: int, antiWindup: AntiWindup, prevPartI: int, xTarget: int, xActual: int)
    requires a <= b && 0 <= b
    ensures var r := Law(Tuning(kp, ki, a * FixedPointOne, b * FixedPointOne, antiWindup),
                         prevPartI, xTarget, xActual).output;
            a <= r <= b
  {
    var t := Tuning(kp, ki, a * FixedPointOne, b * FixedPointOne, antiWindup);
    var s := Law(t, prevPartI, xTarget, xActual);
    LawWithinLimits(t, prevPartI, xTarget, xActual);
    TruncDivMonotone(t.minY + FixedPointOne / 2, s.yLimited + FixedPointOne / 2, FixedPointOne);
    TruncDivMonotone(s.yLimited + FixedPointOne / 2, t.maxY + FixedPointOne / 2, FixedPointOne);
    RoundScaledLimit(a);
    RoundScaledLimit(b);
  }

  /** Pure P control: without integral gain and memory, and with limits
      around zero, the output is the rounded, clamped P part. */
  lemma PureProportional(t: Tuning, xTarget: int, xActual: int)
    requires t.ki == 0 && t.minY <= 0 <= t.maxY
    ensures Law(t, 0, xTarget, xActual).output ==
            RoundOutput(Clamp((xTarget - xActual) * t.kp, t.minY, t.maxY))
  {
  }

  /** After `reset`, a call without deviation returns 0 and, with limits
      around zero, leaves the integral memory at 0 under either rule. */
  lemma ZeroDeviationIdentity(t: Tuning, x: int)
    requires t.minY <= 0 <= t.maxY
    ensures Law(t, 0, x, x).output == 0
    ensures Law(t, 0, x, x).nextPartI == 0
  {
  }

  /** The shipped configuration (`KP = 500`, `KI = 5`, `KPDIV = 10`,
      `MINOUT = 2000`, `MAXOUT = 5000`). A first call with a deviation of 100
      saturates high and, under Freeze, leaves the memory at its initial 0,
      which lies below `minY`. A P-only regulator limited to `[-100, 100]`
      saturates on the same deviation. */
  lemma ShippedConfiguration()
    ensures ScaleGain(500) == 12800 && ScaleGain(5) == 128 && ScaleGain(-1) == -25
    ensures var s := Law(Tuning(12800, 128, 2000 * FixedPointOne, 5000 * FixedPointOne, Freeze), 0, 800, 700);
            s.y == 1792000 && s.output == 5000 && s.nextPartI == 0
    ensures Law(Tuning(12800, 0, -100 * FixedPointOne, 100 * FixedPointOne, Freeze), 0, 800, 700).output == 100
  {
  }

  /** The regulator object. `yCutoff` is the function-static diagnostic of
      `control`, held here as a field; `antiWindup` is the build switch. */
  class PIControl {
    var kp: int
    var ki: int
    var maxY: int
    var minY: int
    var prevPartI: int
    var prevDeltaX: int
    var yCutoff: int
    const antiWindup: AntiWindup

    /** All fields hold `Int32` values. */
    ghost predicate Valid()
      reads this
    {
      IsInt32(kp) && IsInt32(ki) && IsInt32(maxY) && IsInt32(minY) &&
      IsInt32(prevPartI) && IsInt32(prevDeltaX) && IsInt32(yCutoff)
    }

    function Config(): Tuning
      reads this`kp, this`ki, this`minY, this`maxY
    {
      Tuning(kp, ki, minY, maxY, antiWindup)
    }

    constructor (antiWindup: AntiWindup)
      ensures Valid() && this.antiWindup == antiWindup
      ensures kp == 0 && ki == 0 && maxY == 0 && minY == 0
      ensures prevPartI == 0 && prevDeltaX == 0 && yCutoff == 0
    {
      kp, ki, maxY, minY := 0, 0, 0, 0;
      prevPartI, prevDeltaX, yCutoff := 0, 0, 0;
      this.antiWindup := antiWindup;
    }

    method Reset()
      requires Valid()
      modifies this`prevPartI
      ensures Valid() && prevPartI == 0
    {
      prevPartI := 0;
    }

    method WithKp(x: int)
      requires Valid() && IsInt32(x * FixedPointOne)
      modifies this`kp
      ensures Valid() && kp == ScaleGain(x)
    {
      kp := TruncDiv(x * FixedPointOne, KpDiv);
    }

    method WithKi(x: int)
      requires Valid() && IsInt32(x * FixedPointOne)
      modifies this`ki
      ensures Valid() && ki == ScaleGain(x)
    {
      ki := TruncDiv(x * FixedPointOne, KpDiv);
    }

    method WithMaxY(x: int)
      requires Valid() && IsInt32(x * FixedPointOne)
      modifies this`maxY
      ensures Valid() && maxY == x * FixedPointOne
    {
      maxY := x * FixedPointOne;
    }

    method WithMinY(x: int)
      requires Valid() && IsInt32(x * FixedPointOne)
      modifies this`minY
      ensures Valid() && minY == x * FixedPointOne
    {
      minY := x * FixedPointOne;
    }

    /** One control step; the new integral memory, the diagnostic and the
        result are those of `Law` on the state before the call. */
    method Control(xTarget: int, xActual: int) returns (r: int)
      requires Valid() && IsInt32(xTarget) && IsInt32(xActual)
      requires Representable(Config(), prevPartI, xTarget, xActual)
      modifies this`prevPartI, this`prevDeltaX, this`yCutoff
      ensures Valid()
      ensures var s := Law(old(Config()), old(prevPartI), xTarget, xActual);
              prevPartI == s.nextPartI && prevDeltaX == xTarget - xActual &&
              yCutoff == s.y - s.yLimited && r == s.output
    {
      ghost var t := Config();
      ghost var s := Law(t, prevPartI, xTarget, xActual);
      var deltaX := xTarget - xActual;
      var partP := deltaX * kp;
      assert partP == s.partP;
      var partI := deltaX * ki + prevPartI;
      if partI > maxY {
        partI := maxY;
      } else if partI < minY {
        partI := minY;
      }
      assert partI == s.partI;
      var y := partP + partI;
      var yLimited;
      if y > maxY {
        yLimited := maxY;
      } else if y < minY {
        yLimited := minY;
      } else {
        if antiWindup == Freeze {
          prevPartI := partI;
        }
        yLimited := y;
      }
      assert yLimited == s.yLimited;
      yCutoff := y - yLimited;
      assert yCutoff == s.y - s.yLimited;
      if antiWindup == BackCalc {
        prevPartI := partI - yCutoff;
      }
      assert prevPartI == s.nextPartI;
      prevDeltaX := deltaX;
      r := TruncDiv(yLimited + FixedPointOne / 2, FixedPointOne);
    }
  }
}
