# Luftcheck core in Dafny

Luftcheck is a small browser app. It tells the user whether opening the windows will dry the room. It compares the indoor absolute humidity, computed from the temperature and relative humidity the user types in, with the outdoor absolute humidity from an hourly Open-Meteo forecast. This project models the decision-and-search layer of `app.js`:

- **Humidity** (`humidity.dfy`): `absFeuchte`. It computes `AH = 216.7 · (rh/100) · svp(T) / (T + 273.15)` in g/m³ over the reals. The saturation vapour pressure `svp` is a parameter that is known only to be positive.
- **JsArray** (`js_array.dfy`): the JavaScript primitives that the core is built from. These are `findIndex`, which returns the first match or -1, and `slice(start)` with its negative-start rule.
- **Forecast** (`forecast.dfy`): the forecast scanner.
  - The strict current-hour search matches hour, day, month and year. The loose search matches hour and day of month only.
  - Reading an index outside the arrays gives `undefined`, so the source computes NaN. The model writes this as `None`.
  - The good-slot scan over the whole series looks for `AH < ahIn - 1`.
- **Luftcheck** (`luftcheck.dfy`): `checkLueften`, `updateWeatherNow` and `drawChart`, without the DOM, network and widget glue. The forecast, the decomposed clock reading `now` and the parsed indoor fields are parameters. A parsed field is `None` where `parseFloat` gives NaN.

Three behaviours of `app.js` that the model states explicitly:

- `app.js` has no single recommendation function. The verdict comes from `checkLueften`, which uses the loose current index. The slot advice comes from `updateWeatherNow`, whose displayed reading uses the strict current index.
- When no slot matches the current hour, `checkLueften` reads `undefined`, computes NaN and answers "keep windows closed". `CheckVentilation` states this.
- The good-slot scan starts at position 0 of the series and ignores the current hour. So the "next" good time it reports is at or before the current slot whenever ventilating now is advised (`VentilateNowImpliesSlotNoLater`). It can be an hour that has already passed (`AdviceMayPrecedeNow`).

## Model

| member | source | states |
|---|---|---|
| Humidity.AbsHumidity | app.js:4-7 | Above absolute zero, the absolute humidity is positive exactly when rh is positive and negative exactly when rh is negative. It is zero at rh = 0. |
| Humidity.SaturationHumidity | app.js:5-6 | Saturated-air humidity is positive above absolute zero and negative below it. |
| Humidity.AbsHumidityIsFraction | app.js:6 | The formula equals rh/100 times the saturation humidity. |
| Humidity.AbsHumiditySaturated | app.js:4-7 | At rh = 100 % the result is the saturation humidity. |
| Humidity.AbsHumidityLinear | app.js:6 | For a fixed temperature, AH(a·rh1 + rh2) = a·AH(rh1) + AH(rh2). |
| Humidity.AbsHumidityStrictlyIncreasing | app.js:4-6 | For T > -273.15 °C, AH strictly increases with rh. |
| JsArray.FindIndexFrom | app.js:52-58 | Returns the first position at or after `from` that satisfies the callback, or -1. Every earlier position in range fails. |
| JsArray.FindIndex | app.js:71-77 | `findIndex`: returns -1 exactly when no position satisfies the callback. Otherwise it returns a satisfying position with no earlier one. |
| JsArray.Slice | app.js:125-126 | `slice(start)` for start in range, beyond the end, negative within the length, and below minus the length. |
| Forecast.CurrentIndexStrict | app.js:52-58 | Returns the first slot whose hour, day, month and year equal `now`'s. Returns -1 exactly when no slot matches. |
| Forecast.CurrentIndexLoose | app.js:109-111 | Returns the first slot whose hour and day of month equal `now`'s. Returns -1 exactly when no slot matches. |
| Forecast.ReadingAt | app.js:60-62 | Reading at index -1 gives NaN (no reading). On a series whose arrays have equal lengths, every index the time search can return has a reading. |
| Forecast.Drier | app.js:247-250 | `ahOut < ahIn - 1`: "drier" implies the outdoor value is strictly lower, and a value exactly 1 g/m³ below indoors is not drier. |
| Forecast.GoodSlot | app.js:71-77 | Returns the first slot with AH < ahIn - 1, counting from position 0. Every earlier slot fails. Returns -1 exactly when no slot qualifies. |
| Forecast.StrictMatchIsLooseMatch | app.js:109-111 | A strict hour match is also a loose match. |
| Forecast.LooseIndexNoLaterThanStrict | app.js:236-238 | When the strict index is found, the loose index is found and is at most the strict index. |
| Forecast.LooseIndexMayPrecedeStrict | app.js:236-238 | Two slots one month apart at the same hour and day: the loose search picks the earlier one, the strict search the later. |
| Forecast.GoodSlotNoLaterThanAnyGood | app.js:71-77 | The slot found is at or before every qualifying slot (first match, not the driest one). |
| Forecast.GoodSlotMonotone | app.js:70-77 | A higher indoor humidity never makes the first good slot later, and never makes it disappear. |
| Forecast.MarginIsStrict | app.js:247-250 | The test `ahOut < ahIn - 1` is strict: a reading exactly 1 g/m³ below indoors is not "drier". |
| Luftcheck.CheckVentilation | app.js:222-251 | The result is invalid input exactly when a field fails to parse. Otherwise it advises ventilating exactly when the outdoor reading at the loose index is below indoor - 1. With no current slot it never advises ventilating. |
| Luftcheck.UpdateWeatherNow | app.js:45-91 | The outdoor reading is taken at the strict index. The scan is skipped exactly when a field fails to parse. Otherwise it reports the first good slot, or "no window today" when no slot qualifies. |
| Luftcheck.AbsSeries | app.js:127 | `temps.map((t, i) => absFeuchte(t, hums[i]))`: the result is as long as the temperatures, and entry i is AH(temps[i], hums[i]). |
| Luftcheck.ChartFrom | app.js:113-127 | For a given `findIndex` result idx, the four arrays have equal lengths. Entry i is the forecast slot idx + i. For -1, only the last hour remains. |
| Luftcheck.DrawChart | app.js:102-127 | Labels, temperatures, humidities and absolute humidities have equal lengths. Each abs[i] is AH(temps[i], hums[i]), and entry i is the forecast slot idx + i. With no current slot, only the last hour remains. |
| Luftcheck.InvalidInputIgnoresForecast | app.js:227-230 | An unparsable field gives the same check result for every forecast and clock reading, and the slot scan is skipped. |
| Luftcheck.AdviceIndependentOfNow | app.js:69-77 | The slot advice does not depend on the current time. |
| Luftcheck.VentilateNowImpliesSlotNoLater | app.js:236-250 | If the check advises ventilating now, the slot advice names a slot at or before the current index. |
| Luftcheck.WeatherNowReadingWhenFound | app.js:52-62 | On a series with equal-length arrays, a found strict index always gives an outdoor reading. |
| Luftcheck.CheckReadingWhenFound | app.js:236-250 | On a series with equal-length arrays, with both fields parsed and a found loose index, there is an outdoor reading. The verdict is the margin test on it. |
| Luftcheck.AdviceMayPrecedeNow | app.js:69-77 | At 10:00, with dry air already at 09:00, the advice names slot 0 while the current slot is 1. |
| Luftcheck.ChartAbsMatchesReadings | app.js:125-127 | Each absolute-humidity point of the chart is the forecast reading at position idx + i. |

## Left out

- The Magnus constants and `Math.exp` in the saturation vapour pressure are not modelled. `svp` is any positive function, and all arithmetic is over the reals rather than IEEE-754 doubles.
- The temperature -273.15 °C, where the final division of `absFeuchte` is by zero, is excluded by the type `Celsius`. At that point JavaScript yields ±Infinity or NaN.
- Humidity.AbsHumidity: the second pole, in the Magnus exponent at -243.12 °C, is not captured, because `svp` is assumed positive and finite everywhere. At -243.12 °C JavaScript computes svp = 0, so AH = 0 for every rh. Just below it `exp` overflows, so AH is Infinity, or NaN at rh = 0. The sign statements of `AbsHumidity` do not describe the program at these temperatures.
- `toFixed(1)` rounding and all message texts are not modelled. The model returns the numbers and verdicts that the messages are built from.
- The Open-Meteo fetch, the Nominatim geocoding, browser geolocation and the cache globals (`latitude`, `longitude`, `lastHourly`, `forecastChart`) are not modelled. The forecast is a parameter, and the error branches of the `try`/`catch` blocks belong to this glue.
- DOM reads and writes, mobile detection, `debounce` and the resize listener are not modelled. `parseFloat` is modelled only as "a number or NaN".
- The Chart.js configuration object is not modelled; labels are the timestamps themselves, without locale formatting.
- `new Date(...)` parsing and time zones are not modelled. Timestamps are given already decomposed into year, month, day and hour.
- `checkLueften`'s calls to `updateWeatherNow` and `drawChart` after printing the verdict are not modelled as a sequence. Each of the three is a function of its own.
- Luftcheck.DrawChart requires the three forecast arrays to have equal lengths, as the provider promises. `app.js` does not check this. With unequal lengths each array would be sliced separately, so `labels`, `temps` and `hums` would differ in length, and `abs` would contain NaN where `hums` is shorter.
