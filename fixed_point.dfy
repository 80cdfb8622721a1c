/** Integer arithmetic shared by the PI regulator and the slew-rate limiter:
    C++ truncating division, the if/else-if clamp both classes use, the
    fixed-point scale and the ranges of the source's `Int32` and `Int16`. */
module FixedPoint {

  /** `PID_FIXED_POINT_POSITION`: 8 fractional bits. */
  const FixedPointOne: int := 256

  /** `KPDIV`: gains are given in units per tenth of a degree. */
  const KpDiv: int := 10

  const Int32Min: int := -0x8000_0000
  const Int32Max: int := 0x7fff_ffff
  const Int16Min: int := -0x8000
  const Int16Max: int := 0x7fff

  predicate IsInt32(v: int) { Int32Min <= v <= Int32Max }

  predicate IsInt16(v: int) { Int16Min <= v <= Int16Max }

  function Abs(v: int): (r: int)
    ensures r >= 0 && (r == v || r == -v)
  {
    if v < 0 then -v else v
  }

  /** C++ integer division `a / b`: the quotient is rounded toward zero, so
      the remainder `a - q * b` has the sign of `a` and is smaller than `b`
      in magnitude. */
  function TruncDiv(a: int, b: int): (q: int)
    requires b != 0
    ensures a >= 0 ==> 0 <= a - q * b < Abs(b)
    ensures a < 0 ==> -Abs(b) < a - q * b <= 0
  {
    if a >= 0 then a / b else -((-a) / b)
  }

  /** The remainder condition of TruncDiv determines the quotient. */
  lemma TruncDivUnique(a: int, b: int, q: int)
    requires b != 0
    requires a >= 0 ==> 0 <= a - q * b < Abs(b)
    requires a < 0 ==> -Abs(b) < a - q * b <= 0
    ensures q == TruncDiv(a, b)
  {
    var t := TruncDiv(a, b);
    MulDiff(q, t, b);
    if b > 0 {
      FactorSign(q - t, b);
    } else {
      assert (q - t) * b == (t - q) * (-b);
      FactorSign(t - q, -b);
    }
  }

  lemma MulAtLeast(d: int, b: int)
    requires d >= 1 && b > 0
    ensures d * b >= b
  {
    assert d * b == (d - 1) * b + b;
  }

  lemma MulDiff(x: int, y: int, b: int)
    ensures x * b - y * b == (x - y) * b
  {
  }

  /** A multiple of a positive `b` strictly between `-b` and `b` is zero;
      one side of that is enough to fix the sign of the factor. */
  lemma FactorSign(q: int, b: int)
    requires b > 0
    ensures q * b < b ==> q <= 0
    ensures q * b > -b ==> q >= 0
  {
    if q >= 1 {
      MulAtLeast(q, b);
    } else if q <= -1 {
      MulAtLeast(-q, b);
      assert (-q) * b == -(q * b);
    }
  }

  /** Dividing an exact multiple gives back the factor, whatever the signs. */
  lemma TruncDivOfMultiple(q: int, b: int)
    requires b != 0
    ensures TruncDiv(q * b, b) == q
  {
    TruncDivUnique(q * b, b, q);
  }

  /** Truncating division by a positive divisor preserves order. */
  lemma TruncDivMonotone(a1: int, a2: int, b: int)
    requires b > 0 && a1 <= a2
    ensures TruncDiv(a1, b) <= TruncDiv(a2, b)
  {
    var q1, q2 := TruncDiv(a1, b), TruncDiv(a2, b);
    var p1, p2 := q1 * b, q2 * b;
    if q1 > q2 {
      MulDiff(q1, q2, b);
      MulAtLeast(q1 - q2, b);
      assert p1 - p2 >= b;
      if !(a1 >= 0 || a2 < 0) {
        FactorSign(q1, b);
        FactorSign(q2, b);
      }
    }
  }

  /** Between two values, the quotients by a positive `b` differ by less
      than one unit more than the values do, counted in units of `b`. */
  lemma TruncDivStep(a1: int, a2: int, b: int)
    requires b > 0
    ensures Abs(TruncDiv(a2, b) - TruncDiv(a1, b)) * b < Abs(a2 - a1) + b
  {
    var q1, q2 := TruncDiv(a1, b), TruncDiv(a2, b);
    var p1, p2 := q1 * b, q2 * b;
    var d := q2 - q1;
    MulDiff(q2, q1, b);
    assert d * b == p2 - p1;
    if a1 < 0 <= a2 {
      FactorSign(q1, b);
      FactorSign(q2, b);
    } else if a2 < 0 <= a1 {
      FactorSign(q1, b);
      FactorSign(q2, b);
    }
    if d < 0 {
      assert Abs(d) * b == -(d * b);
    }
  }

  /** The saturation chain of the source: test the upper bound first, then
      the lower bound (PowerControl.cpp lines 82-89, 95-104 and 154-157). */
  function Clamp(v: int, lo: int, hi: int): (r: int)
    ensures lo <= hi ==> lo <= r <= hi
    ensures r == v <==> lo <= v <= hi
    ensures v > hi ==> r == hi
    ensures v < lo <= hi ==> r == lo
  {
    if v > hi then hi else if v < lo then lo else v
  }
}
