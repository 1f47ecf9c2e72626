/**
 * The two Arduino core helpers `voltageToPercentage` is built from:
 * `map`, by its documented integer formula
 *   (x - in_min) * (out_max - out_min) / (in_max - in_min) + out_min
 * computed in 32-bit `long` with C's truncating `/`, and the `constrain`
 * macro, which clamps a value into [low, high].
 */
module ArduinoCore {
  import opened CArith

  /** `map` is defined for these arguments: the input range is not empty and
      no step of the formula leaves the 32-bit `long` of the target (signed
      overflow is undefined behaviour in C). */
  predicate MapDefined(x: int, inMin: int, inMax: int, outMin: int, outMax: int) {
    && inMin != inMax
    && IsInt32(x) && IsInt32(inMin) && IsInt32(inMax) && IsInt32(outMin) && IsInt32(outMax)
    && IsInt32(x - inMin) && IsInt32(inMax - inMin) && IsInt32(outMax - outMin)
    && IsInt32((x - inMin) * (outMax - outMin))
    && IsInt32(TruncDiv((x - inMin) * (outMax - outMin), inMax - inMin))
    && IsInt32(TruncDiv((x - inMin) * (outMax - outMin), inMax - inMin) + outMin)
  }

  /** Arduino's `map`: re-maps x from [inMin, inMax] onto [outMin, outMax].
      The endpoints go to the endpoints, and on an increasing input range a
      point of the range lands inside the output range. */
  function Map(x: int, inMin: int, inMax: int, outMin: int, outMax: int): (r: int)
    requires MapDefined(x, inMin, inMax, outMin, outMax)
    ensures IsInt32(r)
    ensures x == inMin ==> r == outMin
    ensures x == inMax ==> r == outMax
    ensures inMin < inMax && outMin <= outMax && inMin <= x <= inMax ==> outMin <= r <= outMax
  {
    var run := inMax - inMin;
    var rise := outMax - outMin;
    var delta := x - inMin;
    MapEndpoints(run, rise, delta);
    TruncDiv(delta * rise, run) + outMin
  }

  /** The facts behind Map's contract, on the run, rise and delta of the
      formula. */
  lemma MapEndpoints(run: int, rise: int, delta: int)
    requires run != 0
    ensures delta == 0 ==> TruncDiv(delta * rise, run) == 0
    ensures delta == run ==> TruncDiv(delta * rise, run) == rise
    ensures run > 0 && rise >= 0 && 0 <= delta <= run ==> 0 <= TruncDiv(delta * rise, run) <= rise
  {
    TruncDivExact(run, 0);
    TruncDivExact(run, rise);
    if run > 0 && rise >= 0 && 0 <= delta <= run {
      MulMonotone(rise, 0, delta);
      MulMonotone(rise, delta, run);
      assert rise * delta == delta * rise && rise * run == run * rise;
      TruncDivMonotone(run * 0, delta * rise, run);
      TruncDivMonotone(delta * rise, run * rise, run);
    }
  }

  /** On an increasing input range and a non-decreasing output range `map`
      is monotone. */
  lemma MapMonotone(x: int, y: int, inMin: int, inMax: int, outMin: int, outMax: int)
    requires inMin < inMax && outMin <= outMax && x <= y
    requires MapDefined(x, inMin, inMax, outMin, outMax)
    requires MapDefined(y, inMin, inMax, outMin, outMax)
    ensures Map(x, inMin, inMax, outMin, outMax) <= Map(y, inMin, inMax, outMin, outMax)
  {
    var rise := outMax - outMin;
    MulMonotone(rise, x - inMin, y - inMin);
    assert rise * (x - inMin) == (x - inMin) * rise && rise * (y - inMin) == (y - inMin) * rise;
    TruncDivMonotone((x - inMin) * rise, (y - inMin) * rise, inMax - inMin);
  }

  /** Distance between two integers. */
  function Dist(x: int, y: int): nat { Abs(x - y) }

  /** Arduino's `constrain(amt, low, high)`: amt when it lies in [low, high],
      otherwise the bound it passed. On a non-empty range the result is the
      point of the range nearest amt. */
  function Constrain(amt: int, low: int, high: int): (r: int)
    ensures low <= amt <= high ==> r == amt
    ensures low <= high ==> low <= r <= high
    ensures low <= high ==> forall y :: low <= y <= high ==> Dist(r, amt) <= Dist(y, amt)
  {
    if amt < low then low else if amt > high then high else amt
  }

  /** Clamping keeps the order of its inputs. */
  lemma ConstrainMonotone(x: int, y: int, low: int, high: int)
    requires x <= y && low <= high
    ensures Constrain(x, low, high) <= Constrain(y, low, high)
  {
  }
}
