/**
 * One pass of the sketch's `loop` (src/main.cpp): unless the display is
 * paused, it reads the battery, the moisture sensor's analog level (pin 33)
 * and its digital "dry" line (pin 32), chooses the status line to show, and
 * when a sensor is attached copies the digital line to pin 19.
 */
module Sketch {
  import opened Battery

  /** An analog level below this with the digital line high means no sensor
      is plugged in. */
  const NO_SENSOR_ANALOG: int := 1500
  /** digitalRead's HIGH. */
  const HIGH: int := 1

  /** The status line shown at the bottom of the screen. */
  datatype Status = NoSensor | NeedsWater | AllGood

  /** The text of each status line. */
  function Label(status: Status): (line: string)
    ensures |line| > 0
  {
    match status
    case NoSensor => "No sensor"
    case NeedsWater => "NEEDS WATER"
    case AllGood => "All good"
  }

  /** What one pass does to pin 19. */
  datatype PinWrite = NoWrite | Write(level: int)

  /** The decision of one pass: nothing when paused, otherwise a status line
      and what happens to pin 19. */
  datatype Decision = Skip | Show(status: Status, pin19: PinWrite)

  /** The readings identify an attached sensor: a missing sensor leaves the
      analog level low while the digital line floats high. */
  predicate SensorAttached(analog: int, digital: int) {
    !(analog < NO_SENSOR_ANALOG && digital == HIGH)
  }

  /** The per-pass decision of `loop` on the display flag and the two sensor
      readings. */
  function Decide(displayPaused: bool, analog: int, digital: int): (d: Decision)
    ensures d.Skip? <==> displayPaused
    ensures d.Show? ==> (d.status == NoSensor <==> !SensorAttached(analog, digital))
    ensures d.Show? ==> (d.status == NeedsWater <==> SensorAttached(analog, digital) && digital == HIGH)
    ensures d.Show? ==> (d.status == AllGood <==> digital != HIGH)
    ensures d.Show? ==> (d.pin19.Write? <==> SensorAttached(analog, digital))
    ensures d.Show? && d.pin19.Write? ==> d.pin19.level == digital
  {
    if displayPaused then Skip
    else if analog < NO_SENSOR_ANALOG && digital == HIGH then Show(NoSensor, NoWrite)
    else Show(if digital == HIGH then NeedsWater else AllGood, Write(digital))
  }

  /** The three status lines are different texts, so the screen tells them
      apart. */
  lemma LabelInjective(s: Status, t: Status)
    requires Label(s) == Label(t)
    ensures s == t
  {
  }

  /** With a 0/1 digital line, pin 19 goes high exactly when "NEEDS WATER"
      is shown, low exactly when "All good" is shown, and is left alone
      exactly when "No sensor" is shown. */
  lemma PinFollowsStatus(analog: int, digital: int)
    requires digital == 0 || digital == 1
    ensures Decide(false, analog, digital).pin19 == Write(1) <==> Decide(false, analog, digital).status == NeedsWater
    ensures Decide(false, analog, digital).pin19 == Write(0) <==> Decide(false, analog, digital).status == AllGood
    ensures Decide(false, analog, digital).pin19 == NoWrite <==> Decide(false, analog, digital).status == NoSensor
  {
  }

  /** The analog level only matters for detecting the sensor: with the
      digital line low, the decision is the same for every analog level. */
  lemma AnalogOnlyDetectsSensor(analog: int, analog': int, digital: int)
    requires digital != HIGH
    ensures Decide(false, analog, digital) == Decide(false, analog', digital)
  {
  }

  /** A higher analog level never turns an attached sensor into a missing
      one. */
  lemma SensorDetectionMonotone(analog: int, analog': int, digital: int)
    requires analog <= analog'
    requires Decide(false, analog, digital).status != NoSensor
    ensures Decide(false, analog', digital) == Decide(false, analog, digital)
  {
  }

  /** What one pass leaves on the screen and on pin 19. */
  datatype Frame = Unchanged | Redrawn(battery: int, status: Status, pin19: PinWrite)

  /** One pass of `loop`. The battery readings are only taken when the
      display is not paused; a paused pass changes nothing. */
  method Tick(displayPaused: bool, readings: seq<int>, analog: int, digital: int) returns (frame: Frame)
    requires |readings| == NUM_READINGS && AllInt16(readings)
    ensures displayPaused <==> frame == Unchanged
    ensures frame.Redrawn? ==> ValidVoltage(StableAverage(readings))
    ensures frame.Redrawn? ==> frame.battery == VoltageToPercentage(StableAverage(readings))
    ensures frame.Redrawn? ==> 0 <= frame.battery <= 100
    ensures frame.Redrawn? ==> Decide(displayPaused, analog, digital) == Show(frame.status, frame.pin19)
  {
    if displayPaused {
      return Unchanged;
    }
    var percentage := GetStableBatteryPercentage(readings);
    var decision := Decide(displayPaused, analog, digital);
    frame := Redrawn(percentage, decision.status, decision.pin19);
  }
}
