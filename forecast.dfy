/**
 * The forecast scanner (app.js): aligning "now" with an hourly slot, reading
 * the outdoor absolute humidity at a slot, and the first-match search for a
 * slot that is drier than indoors by the ventilation margin.
 */
module Forecast {
  import opened Wrappers
  import opened Humidity
  import opened JsArray

  /**
   * A forecast or clock timestamp, already decomposed in local time as
   * `getFullYear`, `getMonth`, `getDate` and `getHours` return it.
   */
  datatype Stamp = Stamp(year: int, month: int, day: int, hour: int)

  /**
   * The `hourly` section of the weather payload: three parallel arrays
   * (`time`, `temperature_2m`, `relative_humidity_2m`).
   */
  datatype Hourly = Hourly(time: seq<Stamp>, temperature: seq<Celsius>, humidity: seq<real>)

  /** The provider's promise: the three arrays have one entry per hour each. */
  predicate WellFormed(h: Hourly) {
    |h.time| == |h.temperature| == |h.humidity|
  }

  /** Outdoor air counts as drier only below the indoor value minus this margin (g/m³). */
  const VentilationMargin: real := 1.0

  /** `ahOut < ahIn - 1`: the single comparison behind every verdict. */
  predicate Drier(ahOut: real, ahIn: real): (drier: bool)
    ensures drier ==> ahOut < ahIn
    ensures ahOut == ahIn - VentilationMargin ==> !drier
  {
    ahOut < ahIn - VentilationMargin
  }

  /**
   * A reading that JavaScript may have computed from `undefined` entries:
   * `None` stands for NaN, for which every comparison is false.
   */
  predicate DrierReading(ahOut: Option<real>, ahIn: real) {
    ahOut.Some? && Drier(ahOut.value, ahIn)
  }

  /** Match used by `updateWeatherNow`: hour, day of month, month and year. */
  predicate SameHourStrict(t: Stamp, now: Stamp) {
    t.hour == now.hour && t.day == now.day && t.month == now.month && t.year == now.year
  }

  /** Match used by `drawChart` and `checkLueften`: hour and day of month only. */
  predicate SameHourLoose(t: Stamp, now: Stamp) {
    t.hour == now.hour && t.day == now.day
  }

  /** The first slot of the series whose time matches `now` strictly, or `NotFound`. */
  function CurrentIndexStrict(h: Hourly, now: Stamp): (idx: int)
    ensures NotFound <= idx < |h.time|
    ensures idx == NotFound <==> forall i :: 0 <= i < |h.time| ==> !SameHourStrict(h.time[i], now)
    ensures idx != NotFound ==>
              SameHourStrict(h.time[idx], now) && forall j :: 0 <= j < idx ==> !SameHourStrict(h.time[j], now)
  {
    FindIndex(h.time, (t, i) => SameHourStrict(t, now))
  }

  /** The first slot of the series whose hour and day of month match `now`, or `NotFound`. */
  function CurrentIndexLoose(h: Hourly, now: Stamp): (idx: int)
    ensures NotFound <= idx < |h.time|
    ensures idx == NotFound <==> forall i :: 0 <= i < |h.time| ==> !SameHourLoose(h.time[i], now)
    ensures idx != NotFound ==>
              SameHourLoose(h.time[idx], now) && forall j :: 0 <= j < idx ==> !SameHourLoose(h.time[j], now)
  {
    FindIndex(h.time, (t, i) => SameHourLoose(t, now))
  }

  /**
   * `absFeuchte(temperature_2m[idx], relative_humidity_2m[idx])`. An index
   * outside either array reads `undefined`, and the result is NaN (`None`).
   */
  function ReadingAt(h: Hourly, svp: VapourPressure, idx: int): (ah: Option<real>)
    ensures idx == NotFound ==> ah == None
    ensures WellFormed(h) && 0 <= idx < |h.time| ==> ah.Some?
  {
    if 0 <= idx < |h.temperature| && idx < |h.humidity| then
      Some(AbsHumidity(svp, h.temperature[idx], h.humidity[idx]))
    else
      None
  }

  /** Slot `i` is drier outdoors than `ahIn` by more than the margin. */
  predicate IsGoodSlot(h: Hourly, svp: VapourPressure, ahIn: real, i: int) {
    DrierReading(ReadingAt(h, svp, i), ahIn)
  }

  /**
   * The `findIndex` over `temperature_2m` in `updateWeatherNow`: the first
   * good slot of the whole series (from position 0, whatever the current
   * hour), or `NotFound`.
   */
  function GoodSlot(h: Hourly, svp: VapourPressure, ahIn: real): (g: int)
    ensures NotFound <= g < |h.temperature|
    ensures g == NotFound <==> forall i :: 0 <= i < |h.temperature| ==> !IsGoodSlot(h, svp, ahIn, i)
    ensures g != NotFound ==>
              IsGoodSlot(h, svp, ahIn, g) && forall j :: 0 <= j < g ==> !IsGoodSlot(h, svp, ahIn, j)
  {
    FindIndex(h.temperature, (t, i) => IsGoodSlot(h, svp, ahIn, i))
  }

  /** Every slot matched strictly is matched loosely. */
  lemma StrictMatchIsLooseMatch(t: Stamp, now: Stamp)
    requires SameHourStrict(t, now)
    ensures SameHourLoose(t, now)
  {
  }

  /** Whenever the strict search finds a slot, the loose search finds one at or before it. */
  lemma LooseIndexNoLaterThanStrict(h: Hourly, now: Stamp)
    requires CurrentIndexStrict(h, now) != NotFound
    ensures NotFound < CurrentIndexLoose(h, now) <= CurrentIndexStrict(h, now)
  {
    var s := CurrentIndexStrict(h, now);
    StrictMatchIsLooseMatch(h.time[s], now);
  }

  /**
   * The two searches can disagree: with two slots a month apart at the same
   * hour and day of month, the loose search stops at the earlier one.
   */
  lemma LooseIndexMayPrecedeStrict()
    ensures var h := Hourly([Stamp(2024, 0, 15, 10), Stamp(2024, 1, 15, 10)], [5.0, 5.0], [90.0, 90.0]);
            var now := Stamp(2024, 1, 15, 10);
            CurrentIndexLoose(h, now) == 0 && CurrentIndexStrict(h, now) == 1
  {
    var h := Hourly([Stamp(2024, 0, 15, 10), Stamp(2024, 1, 15, 10)], [5.0, 5.0], [90.0, 90.0]);
    var now := Stamp(2024, 1, 15, 10);
    assert !SameHourStrict(h.time[0], now);
  }

  /** The good slot found is never later than any slot that is good. */
  lemma GoodSlotNoLaterThanAnyGood(h: Hourly, svp: VapourPressure, ahIn: real, i: int)
    requires IsGoodSlot(h, svp, ahIn, i)
    ensures NotFound < GoodSlot(h, svp, ahIn) <= i
  {
    assert 0 <= i < |h.temperature|;
  }

  /** A more humid interior can only make the first good slot come earlier. */
  lemma GoodSlotMonotone(h: Hourly, svp: VapourPressure, ahIn1: real, ahIn2: real)
    requires ahIn1 <= ahIn2
    requires GoodSlot(h, svp, ahIn1) != NotFound
    ensures NotFound < GoodSlot(h, svp, ahIn2) <= GoodSlot(h, svp, ahIn1)
  {
    var g := GoodSlot(h, svp, ahIn1);
    assert IsGoodSlot(h, svp, ahIn2, g);
    GoodSlotNoLaterThanAnyGood(h, svp, ahIn2, g);
  }

  /** The margin test is strict: a reading exactly the margin below indoors is not drier. */
  lemma MarginIsStrict(ahIn: real)
    ensures !Drier(ahIn - VentilationMargin, ahIn)
    ensures forall ahOut :: Drier(ahOut, ahIn) <==> ahIn - ahOut > 1.0
  {
  }
}
