# M5StickC PLUS2 soil-moisture sketch: battery gauge and status decision

A Dafny model of the logic in the firmware sketch `src/main.cpp` for an
M5StickC PLUS2 board with a soil-moisture sensor. Once a second the sketch
does three things when the display is not paused:

- it shows a battery percentage, the average of ten battery-voltage readings
  mapped from 3700 mV (0%) to 4200 mV (100%);
- it reads the sensor's analog level (pin 33) and digital "dry" line (pin 32);
- it shows one status line: "No sensor", "NEEDS WATER" or "All good". When a
  sensor is attached it also copies the digital line to pin 19.

The model has four modules, one per file:

- `CArith` (`c_arith.dfy`): the C integer semantics involved. It fixes the
  32-bit width of `int`/`long` on the ESP32 target and bounds each battery
  reading to 16 bits. It defines C's `/`, which truncates toward zero (section
  6.5.5 of the C standard, C99). Dafny's own `/` is Euclidean, so `TruncDiv`
  is written out and proved equal to the unique truncated quotient.
- `ArduinoCore` (`arduino_core.dfy`): Arduino's `map`, using its documented
  formula `(x - in_min) * (out_max - out_min) / (in_max - in_min) + out_min`
  in 32-bit `long`, and the `constrain` macro.
- `Battery` (`battery.dfy`): `voltageToPercentage` as a function.
  `getStableBatteryPercentage` is a method whose `for` loop accumulates the
  readings. The ten hardware readings are its input sequence.
- `Sketch` (`sketch.dfy`): the decision made on each pass of `loop`, as a
  pure function of `(displayPaused, analog, digital)`. Its only effect, the
  write to pin 19, is returned as a value. `Tick` is one whole pass.

Integer widths are modelled explicitly:

- Every intermediate value of `map` must fit in 32 bits. For
  `voltageToPercentage` that is exactly the voltages in
  [-21471136, 21478536] (`VoltageDomain`).
- The readings are 16-bit values. The loop proves that the 32-bit
  accumulator never overflows.

## Model

| member | source | states |
|---|---|---|
| `CArith.TruncDiv` | src/main.cpp:30 | C's `/`: the remainder is smaller than the divisor in magnitude and never has the opposite sign of the dividend |
| `CArith.TruncQuotientUnique` | src/main.cpp:30 | only one quotient has that property, so it specifies C's `/` completely |
| `CArith.TruncDivMonotone` | src/main.cpp:30 | C's `/` by a positive divisor never decreases when the dividend grows |
| `ArduinoCore.Map` | src/main.cpp:17 | `map` sends in_min to out_min and in_max to out_max; on increasing ranges, a point of the input range lands in the output range; the result fits 32 bits |
| `ArduinoCore.MapMonotone` | src/main.cpp:17 | on an increasing input range and a non-decreasing output range, `map` is monotone |
| `ArduinoCore.Constrain` | src/main.cpp:18 | `constrain` leaves in-range values alone; on a non-empty range the result lies in [low, high] and is the point of the range nearest the input |
| `ArduinoCore.ConstrainMonotone` | src/main.cpp:18 | clamping keeps the order of its inputs |
| `Battery.VoltageToPercentage` | src/main.cpp:14-19 | the result is always a percentage in [0, 100] |
| `Battery.VoltageDomain` | src/main.cpp:14-17 | the voltages that cause no 32-bit overflow are exactly [-21471136, 21478536]; every 16-bit reading is among them |
| `Battery.VoltageToPercentageEndpoints` | src/main.cpp:16-17 | 3700 mV gives 0% and 4200 mV gives 100% |
| `Battery.VoltageToPercentageLinear` | src/main.cpp:17 | for 3700 <= v <= 4200 the result is (v - 3700) * 100 / 500, the number of whole 5 mV steps above 3700 mV |
| `Battery.VoltageToPercentageMonotone` | src/main.cpp:17-18 | the percentage never decreases as the voltage rises |
| `Battery.VoltageToPercentageEmpty` | src/main.cpp:17-18 | every voltage at or below 3700 mV gives 0% |
| `Battery.VoltageToPercentageFull` | src/main.cpp:17-18 | every voltage at or above 4200 mV gives 100% |
| `Battery.PercentageRoundTrip` | src/main.cpp:16-18 | every percentage p is reached: 3700 + 5p mV gives exactly p% |
| `Battery.PercentageThreshold` | src/main.cpp:16-18 | for 1 <= p <= 100, the gauge shows at least p% if and only if the voltage is at least 3700 + 5p mV |
| `Battery.MapTruncatesTowardZero` | src/main.cpp:17 | at 3699 mV the C formula gives 0 where a floor division would give -1 |
| `Battery.SumBounds` | src/main.cpp:23-28 | if every reading lies in [lo, hi], the sum of n readings lies in [n * lo, n * hi] |
| `Battery.StableAverage` | src/main.cpp:22-30 | the truncated average of the ten readings lies between the smallest and the largest reading, so it is a 16-bit value |
| `Battery.SteadyReadings` | src/main.cpp:22-30 | ten equal readings average to that reading |
| `Battery.StablePercentageBetween` | src/main.cpp:21-32 | the stable percentage lies between the percentages of the lowest and the highest reading |
| `Battery.GetStableBatteryPercentage` | src/main.cpp:21-32 | sums the ten readings with no 32-bit overflow and returns `voltageToPercentage` of the truncated average, a value in [0, 100] |
| `Sketch.Label` | src/main.cpp:84-102 | each status has a non-empty text: "No sensor", "NEEDS WATER", "All good" |
| `Sketch.LabelInjective` | src/main.cpp:84-102 | different statuses show different texts |
| `Sketch.Decide` | src/main.cpp:69-104 | a paused pass does nothing; otherwise exactly one status: "No sensor" iff analog < 1500 and digital == 1; "NEEDS WATER" iff a sensor is attached and digital == 1; "All good" iff digital != 1; pin 19 is written iff a sensor is attached, with the digital value |
| `Sketch.PinFollowsStatus` | src/main.cpp:82-103 | for a 0/1 digital line: pin 19 is set to 1 iff "NEEDS WATER" shows, to 0 iff "All good" shows, and is not written iff "No sensor" shows |
| `Sketch.AnalogOnlyDetectsSensor` | src/main.cpp:82-103 | with the digital line low, the analog level does not affect the decision |
| `Sketch.SensorDetectionMonotone` | src/main.cpp:82 | raising the analog level never turns an attached sensor into a missing one |
| `Sketch.Tick` | src/main.cpp:56-108 | a paused pass leaves everything unchanged; otherwise the frame shows the stable battery percentage (in [0, 100]) and the status and pin 19 write chosen by `Decide` |

## Left out

- The StickCP2/M5 library calls are not modelled: `begin`, `update`, the
  display settings, `clear`, `setCursor`, `printf` and the text coordinates
  (src/main.cpp:38-49, 58, 70-77, 84-102). They are vendor hardware wrappers.
  Only the choice of status line and the battery percentage are modelled.
- Two display lines are not in `Frame`: the raw millivolt reading
  (src/main.cpp:76), which is an eleventh hardware read, and the
  `Analog:%d` line (src/main.cpp:92). The `Analog:%d` line is shown exactly
  when pin 19 is written.
- `Serial`, `delay` and the `pinMode` setup (src/main.cpp:40-53, 27, 107) are
  not modelled. They are I/O and timing.
- `getBatteryVoltage`, `analogRead` and `digitalRead` (src/main.cpp:26, 79-80)
  are hardware reads. Their results are inputs to the model.
- Repeating `loop` forever is not modelled. `Tick` is one pass.
- The button handling (src/main.cpp:60-67) is commented out. So
  `displayPaused` never changes at runtime, and it is only an input flag.
- The UV sensor, the UV-index weighting and the gauge of other revisions of
  the firmware are not part of this model. They are not in `src/main.cpp`,
  and they use floating point.
- `ArduinoCore.Map`: requires in_min != in_max, as the documented formula
  divides by that difference. How the board's Arduino core handles an empty
  range is not modelled. The sketch only calls `map` with the constants 3700
  and 4200.
- `ArduinoCore.Map`: also requires every intermediate value to fit in 32 bits,
  since signed overflow is undefined behaviour in C. So
  `Battery.VoltageToPercentage` accepts only voltages in [-21471136, 21478536].
- `Battery.GetStableBatteryPercentage`: requires each reading to fit in
  16 bits. A battery voltage in millivolts is far below 32767. The vendor
  library that produces the readings is not part of this model. This bound is
  what keeps the sum of ten readings within a 32-bit `int`.
