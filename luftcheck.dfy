/**
 * The three user-facing computations of app.js with their DOM, network and
 * chart-widget glue removed: `checkLueften`, `updateWeatherNow` and
 * `drawChart`. The forecast and the clock reading are parameters; each
 * indoor field is the result of `parseFloat`, `None` when it is NaN.
 */
module Luftcheck {
  import opened Wrappers
  import opened Humidity
  import opened JsArray
  import opened Forecast

  /** What `checkLueften` writes to the output element. */
  datatype CheckResult =
    | InvalidInput
    | Compared(indoor: real, outdoor: Option<real>, ventilateNow: bool)

  /**
   * `checkLueften`: an unparsable indoor field ends the check before the
   * forecast is touched; otherwise the indoor reading is compared with the
   * outdoor reading of the loosely matched current slot.
   */
  function CheckVentilation(h: Hourly, now: Stamp, svp: VapourPressure,
                            tempIn: Option<Celsius>, rhIn: Option<real>): (r: CheckResult)
    ensures r == InvalidInput <==> tempIn.None? || rhIn.None?
    ensures r.Compared? ==>
              r.indoor == AbsHumidity(svp, tempIn.value, rhIn.value) &&
              r.outdoor == ReadingAt(h, svp, CurrentIndexLoose(h, now))
    ensures r.Compared? ==>
              (r.ventilateNow <==> r.outdoor.Some? && r.outdoor.value < r.indoor - 1.0)
    ensures r.Compared? && CurrentIndexLoose(h, now) == NotFound ==> !r.ventilateNow
  {
    if tempIn.None? || rhIn.None? then
      InvalidInput
    else
      var ahIn := AbsHumidity(svp, tempIn.value, rhIn.value);
      var ahOut := ReadingAt(h, svp, CurrentIndexLoose(h, now));
      Compared(ahIn, ahOut, DrierReading(ahOut, ahIn))
  }

  /** The line `updateWeatherNow` appends about the next good slot. */
  datatype SlotAdvice =
    | NotChecked
    | NextGoodSlot(index: nat)
    | NoWindowToday

  /** What `updateWeatherNow` reports: the current outdoor reading and the slot advice. */
  datatype WeatherNow = WeatherNow(outdoor: Option<real>, advice: SlotAdvice)

  /**
   * `updateWeatherNow`: the outdoor reading at the strictly matched current
   * slot, and, when both indoor fields parse, the first good slot of the
   * whole series.
   */
  function UpdateWeatherNow(h: Hourly, now: Stamp, svp: VapourPressure,
                            tempIn: Option<Celsius>, rhIn: Option<real>): (w: WeatherNow)
    ensures w.outdoor == ReadingAt(h, svp, CurrentIndexStrict(h, now))
    ensures w.advice == NotChecked <==> tempIn.None? || rhIn.None?
    ensures w.advice.NoWindowToday? ==>
              forall i :: 0 <= i < |h.temperature| ==>
                !IsGoodSlot(h, svp, AbsHumidity(svp, tempIn.value, rhIn.value), i)
    ensures w.advice.NextGoodSlot? ==>
              var ahIn := AbsHumidity(svp, tempIn.value, rhIn.value);
              w.advice.index < |h.temperature| &&
              IsGoodSlot(h, svp, ahIn, w.advice.index) &&
              forall j :: 0 <= j < w.advice.index ==> !IsGoodSlot(h, svp, ahIn, j)
  {
    var ahOut := ReadingAt(h, svp, CurrentIndexStrict(h, now));
    if tempIn.None? || rhIn.None? then
      WeatherNow(ahOut, NotChecked)
    else
      var g := GoodSlot(h, svp, AbsHumidity(svp, tempIn.value, rhIn.value));
      WeatherNow(ahOut, if g == NotFound then NoWindowToday else NextGoodSlot(g))
  }

  /** The four data arrays `drawChart` hands to the chart widget. */
  datatype ChartSeries = ChartSeries(labels: seq<Stamp>, temps: seq<Celsius>, hums: seq<real>, abs: seq<real>)

  /** The absolute humidity of each hour: `temps.map((t, i) => absFeuchte(t, hums[i]))`. */
  function AbsSeries(svp: VapourPressure, temps: seq<Celsius>, hums: seq<real>): (abs: seq<real>)
    requires |hums| == |temps|
    ensures |abs| == |temps|
    ensures forall i :: 0 <= i < |abs| ==> abs[i] == AbsHumidity(svp, temps[i], hums[i])
  {
    seq(|temps|, i requires 0 <= i < |temps| => AbsHumidity(svp, temps[i], hums[i]))
  }

  /** The chart arrays sliced from position `idx`, which `findIndex` produced. */
  function ChartFrom(h: Hourly, svp: VapourPressure, idx: int): (c: ChartSeries)
    requires WellFormed(h)
    requires NotFound <= idx < |h.time|
    ensures |c.labels| == |c.temps| == |c.hums| == |c.abs|
    ensures forall i :: 0 <= i < |c.abs| ==> c.abs[i] == AbsHumidity(svp, c.temps[i], c.hums[i])
    ensures idx != NotFound ==>
              |c.labels| == |h.time| - idx &&
              forall i :: 0 <= i < |c.labels| ==>
                c.labels[i] == h.time[idx + i] && c.temps[i] == h.temperature[idx + i] &&
                c.hums[i] == h.humidity[idx + i]
    ensures idx == NotFound && |h.time| == 0 ==> c.labels == []
    ensures idx == NotFound && |h.time| > 0 ==>
              var last := |h.time| - 1;
              c.labels == [h.time[last]] && c.temps == [h.temperature[last]] && c.hums == [h.humidity[last]]
  {
    var temps := Slice(h.temperature, idx);
    var hums := Slice(h.humidity, idx);
    ChartSeries(Slice(h.time, idx), temps, hums, AbsSeries(svp, temps, hums))
  }

  /**
   * `drawChart`: every array sliced from the loosely matched current slot,
   * and the absolute humidity of each sliced hour. When no slot matches,
   * `slice(-1)` keeps the last hour only.
   */
  function DrawChart(h: Hourly, now: Stamp, svp: VapourPressure): (c: ChartSeries)
    requires WellFormed(h)
    ensures |c.labels| == |c.temps| == |c.hums| == |c.abs|
    ensures forall i :: 0 <= i < |c.abs| ==> c.abs[i] == AbsHumidity(svp, c.temps[i], c.hums[i])
    ensures var idx := CurrentIndexLoose(h, now);
            idx != NotFound ==>
              |c.labels| == |h.time| - idx &&
              forall i :: 0 <= i < |c.labels| ==>
                c.labels[i] == h.time[idx + i] && c.temps[i] == h.temperature[idx + i] &&
                c.hums[i] == h.humidity[idx + i]
    ensures CurrentIndexLoose(h, now) == NotFound ==>
              (|h.time| == 0 ==> c.labels == []) &&
              (|h.time| > 0 ==>
                 var last := |h.time| - 1;
                 c.labels == [h.time[last]] && c.temps == [h.temperature[last]] && c.hums == [h.humidity[last]])
  {
    ChartFrom(h, svp, CurrentIndexLoose(h, now))
  }

  /** An unparsable indoor field decides the check whatever the forecast and the clock say. */
  lemma InvalidInputIgnoresForecast(h1: Hourly, h2: Hourly, now1: Stamp, now2: Stamp, svp: VapourPressure,
                                    tempIn: Option<Celsius>, rhIn: Option<real>)
    requires tempIn.None? || rhIn.None?
    ensures CheckVentilation(h1, now1, svp, tempIn, rhIn) == CheckVentilation(h2, now2, svp, tempIn, rhIn)
    ensures UpdateWeatherNow(h1, now1, svp, tempIn, rhIn).advice == NotChecked
  {
  }

  /** The slot advice does not depend on the current time: the scan starts at position 0. */
  lemma AdviceIndependentOfNow(h: Hourly, now1: Stamp, now2: Stamp, svp: VapourPressure,
                               tempIn: Option<Celsius>, rhIn: Option<real>)
    ensures UpdateWeatherNow(h, now1, svp, tempIn, rhIn).advice == UpdateWeatherNow(h, now2, svp, tempIn, rhIn).advice
  {
  }

  /**
   * When the check says "ventilate now", the slot advice names a slot, and
   * that slot is no later than the current one: the scan from position 0
   * may even name an hour that has already passed.
   */
  lemma VentilateNowImpliesSlotNoLater(h: Hourly, now: Stamp, svp: VapourPressure,
                                       tempIn: Option<Celsius>, rhIn: Option<real>)
    requires CheckVentilation(h, now, svp, tempIn, rhIn).Compared?
    requires CheckVentilation(h, now, svp, tempIn, rhIn).ventilateNow
    ensures UpdateWeatherNow(h, now, svp, tempIn, rhIn).advice.NextGoodSlot?
    ensures UpdateWeatherNow(h, now, svp, tempIn, rhIn).advice.index <= CurrentIndexLoose(h, now)
  {
    var ahIn := AbsHumidity(svp, tempIn.value, rhIn.value);
    GoodSlotNoLaterThanAnyGood(h, svp, ahIn, CurrentIndexLoose(h, now));
  }

  /** On a well-formed series, a found strict index always yields an outdoor reading. */
  lemma WeatherNowReadingWhenFound(h: Hourly, now: Stamp, svp: VapourPressure,
                                   tempIn: Option<Celsius>, rhIn: Option<real>)
    requires WellFormed(h)
    requires CurrentIndexStrict(h, now) != NotFound
    ensures UpdateWeatherNow(h, now, svp, tempIn, rhIn).outdoor.Some?
  {
  }

  /**
   * On a well-formed series, a found loose index always yields an outdoor
   * reading, and the verdict is the margin test on it.
   */
  lemma CheckReadingWhenFound(h: Hourly, now: Stamp, svp: VapourPressure,
                              tempIn: Option<Celsius>, rhIn: Option<real>)
    requires WellFormed(h)
    requires CurrentIndexLoose(h, now) != NotFound
    requires tempIn.Some? && rhIn.Some?
    ensures var r := CheckVentilation(h, now, svp, tempIn, rhIn);
            r.Compared? && r.outdoor.Some? && (r.ventilateNow <==> Drier(r.outdoor.value, r.indoor))
  {
  }

  /**
   * The slot advice can name an hour before the current one: at 10:00, with
   * dry air already at 09:00, the advice is slot 0 while the current slot is 1.
   */
  lemma AdviceMayPrecedeNow()
    ensures var h := Hourly([Stamp(2024, 0, 15, 9), Stamp(2024, 0, 15, 10)], [5.0, 5.0], [0.0, 0.0]);
            var now := Stamp(2024, 0, 15, 10);
            var svp: VapourPressure := t => 100.0;
            UpdateWeatherNow(h, now, svp, Some(20.0), Some(50.0)).advice == NextGoodSlot(0) &&
            CurrentIndexStrict(h, now) == 1
  {
    var h := Hourly([Stamp(2024, 0, 15, 9), Stamp(2024, 0, 15, 10)], [5.0, 5.0], [0.0, 0.0]);
    var now := Stamp(2024, 0, 15, 10);
    var svp: VapourPressure := t => 100.0;
    assert !SameHourStrict(h.time[0], now);
    assert IsGoodSlot(h, svp, AbsHumidity(svp, 20.0, 50.0), 0);
  }

  /** Every hour the chart shows has its absolute humidity within the forecast's own readings. */
  lemma ChartAbsMatchesReadings(h: Hourly, now: Stamp, svp: VapourPressure, i: int)
    requires WellFormed(h)
    requires CurrentIndexLoose(h, now) != NotFound
    requires 0 <= i < |DrawChart(h, now, svp).abs|
    ensures ReadingAt(h, svp, CurrentIndexLoose(h, now) + i) == Some(DrawChart(h, now, svp).abs[i])
  {
  }
}
