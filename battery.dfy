/**
 * The battery gauge of src/main.cpp: `voltageToPercentage` maps a voltage in
 * millivolts linearly from [3700, 4200] onto [0, 100] and clamps, and
 * `getStableBatteryPercentage` averages ten readings (C integer division)
 * before mapping. The readings come from the hardware; here they are the
 * sequence of values the ten calls return.
 */
module Battery {
  import opened CArith
  import opened ArduinoCore

  const NUM_READINGS: int := 10

  /** The voltages the 32-bit arithmetic of voltageToPercentage can handle
      without overflow (VoltageDomain), far beyond any real battery. */
  const VOLTAGE_LOW: int := -21471136
  const VOLTAGE_HIGH: int := 21478536

  predicate ValidVoltage(voltage: int) {
    MapDefined(voltage, 3700, 4200, 0, 100)
  }

  /** voltageToPercentage: a percentage, whatever the voltage. */
  function VoltageToPercentage(voltage: int): (percentage: int)
    requires ValidVoltage(voltage)
    ensures 0 <= percentage <= 100
  {
    Constrain(Map(voltage, 3700, 4200, 0, 100), 0, 100)
  }

  /** The voltages for which no intermediate of the conversion overflows
      form exactly the interval [VOLTAGE_LOW, VOLTAGE_HIGH]; every 16-bit
      reading lies in it. */
  lemma VoltageDomain(voltage: int)
    ensures ValidVoltage(voltage) <==> VOLTAGE_LOW <= voltage <= VOLTAGE_HIGH
    ensures IsInt16(voltage) ==> ValidVoltage(voltage)
  {
    TruncDivShrinks((voltage - 3700) * 100, 4200 - 3700);
  }

  /** The documented endpoints: 3700 mV is 0% and 4200 mV is 100%. */
  lemma VoltageToPercentageEndpoints()
    ensures ValidVoltage(3700) && ValidVoltage(4200)
    ensures VoltageToPercentage(3700) == 0
    ensures VoltageToPercentage(4200) == 100
  {
    VoltageDomain(3700);
    VoltageDomain(4200);
  }

  /** Between the endpoints the percentage is (v - 3700) * 100 / 500, that is
      the whole number of 5 mV steps above 3700 mV. */
  lemma VoltageToPercentageLinear(voltage: int)
    requires 3700 <= voltage <= 4200
    ensures ValidVoltage(voltage)
    ensures VoltageToPercentage(voltage) == (voltage - 3700) * 100 / 500
    ensures VoltageToPercentage(voltage) == (voltage - 3700) / 5
  {
    VoltageDomain(voltage);
    TruncDivNonNegative((voltage - 3700) * 100, 4200 - 3700);
  }

  /** voltageToPercentage never decreases as the voltage rises. */
  lemma VoltageToPercentageMonotone(v: int, w: int)
    requires ValidVoltage(v) && ValidVoltage(w) && v <= w
    ensures VoltageToPercentage(v) <= VoltageToPercentage(w)
  {
    MapMonotone(v, w, 3700, 4200, 0, 100);
    ConstrainMonotone(Map(v, 3700, 4200, 0, 100), Map(w, 3700, 4200, 0, 100), 0, 100);
  }

  /** At or below 3700 mV the gauge reads 0%. */
  lemma VoltageToPercentageEmpty(voltage: int)
    requires ValidVoltage(voltage) && voltage <= 3700
    ensures VoltageToPercentage(voltage) == 0
  {
    VoltageToPercentageEndpoints();
    VoltageToPercentageMonotone(voltage, 3700);
  }

  /** At or above 4200 mV the gauge reads 100%. */
  lemma VoltageToPercentageFull(voltage: int)
    requires ValidVoltage(voltage) && voltage >= 4200
    ensures VoltageToPercentage(voltage) == 100
  {
    VoltageToPercentageEndpoints();
    VoltageToPercentageMonotone(4200, voltage);
  }

  /** Every percentage is reached: 3700 + 5 * p mV reads as exactly p%. */
  lemma PercentageRoundTrip(p: int)
    requires 0 <= p <= 100
    ensures VoltageToPercentage(3700 + 5 * p) == p
  {
    VoltageToPercentageLinear(3700 + 5 * p);
  }

  /** The gauge shows at least p% (for 1 <= p <= 100) exactly when the
      voltage is at least 3700 + 5 * p mV. */
  lemma PercentageThreshold(voltage: int, p: int)
    requires ValidVoltage(voltage) && 1 <= p <= 100
    ensures VoltageToPercentage(voltage) >= p <==> voltage >= 3700 + 5 * p
  {
    PercentageRoundTrip(p);
    VoltageToPercentageLinear(3700 + 5 * p - 1);
    if voltage >= 3700 + 5 * p {
      VoltageToPercentageMonotone(3700 + 5 * p, voltage);
    } else {
      VoltageToPercentageMonotone(voltage, 3700 + 5 * p - 1);
    }
  }

  /** Just below 3700 mV the C formula truncates toward zero and `map` yields
      0, where a floor division would yield -1; the clamp makes the two agree
      on the final percentage. */
  lemma MapTruncatesTowardZero()
    ensures MapDefined(3700 - 1, 3700, 4200, 0, 100)
    ensures Map(3700 - 1, 3700, 4200, 0, 100) == 0
    ensures (3700 - 1 - 3700) * 100 / 500 == -1
  {
    VoltageDomain(3700 - 1);
    TruncQuotientUnique(-100, 500, 0);
  }

  /** Sum of the readings, accumulated front to back. */
  function Sum(s: seq<int>): int {
    if |s| == 0 then 0 else Sum(s[..|s| - 1]) + s[|s| - 1]
  }

  /** Smallest reading. */
  function Min(s: seq<int>): (m: int)
    requires |s| > 0
    ensures m in s
    ensures forall i :: 0 <= i < |s| ==> m <= s[i]
  {
    if |s| == 1 then s[0]
    else
      var m' := Min(s[..|s| - 1]);
      assert forall i :: 0 <= i < |s| - 1 ==> s[..|s| - 1][i] == s[i];
      if s[|s| - 1] < m' then s[|s| - 1] else m'
  }

  /** Largest reading. */
  function Max(s: seq<int>): (m: int)
    requires |s| > 0
    ensures m in s
    ensures forall i :: 0 <= i < |s| ==> s[i] <= m
  {
    if |s| == 1 then s[0]
    else
      var m' := Max(s[..|s| - 1]);
      assert forall i :: 0 <= i < |s| - 1 ==> s[..|s| - 1][i] == s[i];
      if s[|s| - 1] > m' then s[|s| - 1] else m'
  }

  /** If every reading lies in [lo, hi], the sum lies in [n * lo, n * hi]. */
  lemma {:induction false} SumBounds(s: seq<int>, lo: int, hi: int)
    requires forall i :: 0 <= i < |s| ==> lo <= s[i] <= hi
    ensures |s| * lo <= Sum(s) <= |s| * hi
  {
    if |s| > 0 {
      var init := s[..|s| - 1];
      assert forall i :: 0 <= i < |init| ==> init[i] == s[i];
      SumBounds(init, lo, hi);
      assert |s| * lo == |init| * lo + lo && |s| * hi == |init| * hi + hi;
    }
  }

  /** Each reading fits in 16 bits. */
  predicate AllInt16(s: seq<int>) {
    forall i :: 0 <= i < |s| ==> IsInt16(s[i])
  }

  /** The averaged voltage of getStableBatteryPercentage: the sum of the ten
      readings divided by ten in C. It lies between the smallest and the
      largest reading. */
  function StableAverage(readings: seq<int>): (average: int)
    requires |readings| == NUM_READINGS && AllInt16(readings)
    ensures Min(readings) <= average <= Max(readings)
    ensures IsInt16(average)
  {
    var lo, hi := Min(readings), Max(readings);
    SumBounds(readings, lo, hi);
    TruncDivMonotone(NUM_READINGS * lo, Sum(readings), NUM_READINGS);
    TruncDivMonotone(Sum(readings), NUM_READINGS * hi, NUM_READINGS);
    TruncDivExact(NUM_READINGS, lo);
    TruncDivExact(NUM_READINGS, hi);
    TruncDiv(Sum(readings), NUM_READINGS)
  }

  /** Ten equal readings average to that reading. */
  lemma SteadyReadings(readings: seq<int>, v: int)
    requires |readings| == NUM_READINGS && AllInt16(readings)
    requires forall i :: 0 <= i < |readings| ==> readings[i] == v
    ensures StableAverage(readings) == v
  {
    assert Min(readings) == v && Max(readings) == v;
  }

  /** The stable percentage lies between the percentages of the lowest and
      the highest reading. */
  lemma StablePercentageBetween(readings: seq<int>)
    requires |readings| == NUM_READINGS && AllInt16(readings)
    ensures ValidVoltage(Min(readings)) && ValidVoltage(Max(readings))
    ensures ValidVoltage(StableAverage(readings))
    ensures VoltageToPercentage(Min(readings)) <= VoltageToPercentage(StableAverage(readings))
    ensures VoltageToPercentage(StableAverage(readings)) <= VoltageToPercentage(Max(readings))
  {
    var lo, avg, hi := Min(readings), StableAverage(readings), Max(readings);
    VoltageDomain(lo);
    VoltageDomain(avg);
    VoltageDomain(hi);
    VoltageToPercentageMonotone(lo, avg);
    VoltageToPercentageMonotone(avg, hi);
  }

  /** getStableBatteryPercentage: accumulates the ten readings in a 32-bit
      `int` (which never overflows), divides by ten and converts the average. */
  method GetStableBatteryPercentage(readings: seq<int>) returns (percentage: int)
    requires |readings| == NUM_READINGS && AllInt16(readings)
    ensures ValidVoltage(StableAverage(readings))
    ensures percentage == VoltageToPercentage(StableAverage(readings))
    ensures 0 <= percentage <= 100
  {
    var totalVoltage := 0;
    for i := 0 to NUM_READINGS
      invariant totalVoltage == Sum(readings[..i])
      invariant i * INT16_MIN <= totalVoltage <= i * INT16_MAX
    {
      assert readings[..i + 1][..i] == readings[..i];
      totalVoltage := totalVoltage + readings[i];
      assert IsInt32(totalVoltage);
    }
    assert readings[..NUM_READINGS] == readings;
    var averageVoltage := TruncDiv(totalVoltage, NUM_READINGS);
    VoltageDomain(averageVoltage);
    percentage := VoltageToPercentage(averageVoltage);
  }
}
