/**
 * Absolute humidity of moist air (app.js, `absFeuchte`).
 *
 * The saturation vapour pressure `svp(T)` (the Magnus approximation with
 * `Math.exp` in the source) is a parameter: the model only relies on it
 * being positive. Arithmetic is over the reals, not IEEE-754 doubles.
 */
module Humidity {

  /** Offset between the Celsius and the Kelvin scale. */
  const KelvinOffset: real := 273.15

  /** Grams of water per cubic metre per hPa·K⁻¹ (the gas constant of water vapour folded in). */
  const VapourDensityFactor: real := 216.7

  /**
   * A temperature in °C. The value at which the final division by
   * `t + 273.15` is by zero (-273.15 °C) is excluded; every other real is
   * allowed, as in the source. The other division, by `243.12 + t` inside
   * the Magnus exponent, belongs to `svp` and is not modelled.
   */
  type Celsius = t: real | t != -273.15 witness 0.0

  type Positive = x: real | x > 0.0 witness 1.0

  /** Saturation vapour pressure in hPa as a function of the temperature in °C. */
  type VapourPressure = real -> Positive

  /** Temperature is physically meaningful: above absolute zero. */
  predicate AboveAbsoluteZero(t: real) {
    t + KelvinOffset > 0.0
  }

  /** Absolute humidity (g/m³) of air saturated with water vapour at temperature `t`. */
  function SaturationHumidity(svp: VapourPressure, t: Celsius): (s: real)
    ensures AboveAbsoluteZero(t) ==> s > 0.0
    ensures !AboveAbsoluteZero(t) ==> s < 0.0
  {
    VapourDensityFactor * svp(t) / (t + KelvinOffset)
  }

  /**
   * `absFeuchte(tempC, rhPercent)`: absolute humidity in g/m³ of air at `t` °C
   * with relative humidity `rh` percent. `rh` is not clamped to [0, 100].
   */
  function AbsHumidity(svp: VapourPressure, t: Celsius, rh: real): (ah: real)
    ensures AboveAbsoluteZero(t) ==> (ah > 0.0 <==> rh > 0.0)
    ensures AboveAbsoluteZero(t) ==> (ah < 0.0 <==> rh < 0.0)
    ensures rh == 0.0 ==> ah == 0.0
  {
    AbsHumidityIsFraction(svp, t, rh);
    VapourDensityFactor * (rh / 100.0) * svp(t) / (t + KelvinOffset)
  }

  /** Absolute humidity is the fraction rh/100 of the saturation humidity. */
  lemma AbsHumidityIsFraction(svp: VapourPressure, t: Celsius, rh: real)
    ensures VapourDensityFactor * (rh / 100.0) * svp(t) / (t + KelvinOffset)
            == (rh / 100.0) * SaturationHumidity(svp, t)
  {
  }

  /** Saturated air (rh = 100 %) holds exactly the saturation humidity. */
  lemma AbsHumiditySaturated(svp: VapourPressure, t: Celsius)
    ensures AbsHumidity(svp, t, 100.0) == SaturationHumidity(svp, t)
  {
    AbsHumidityIsFraction(svp, t, 100.0);
  }

  /** For a fixed temperature, absolute humidity is linear in the relative humidity. */
  lemma AbsHumidityLinear(svp: VapourPressure, t: Celsius, a: real, rh1: real, rh2: real)
    ensures AbsHumidity(svp, t, a * rh1 + rh2) == a * AbsHumidity(svp, t, rh1) + AbsHumidity(svp, t, rh2)
  {
    var s := SaturationHumidity(svp, t);
    AbsHumidityIsFraction(svp, t, a * rh1 + rh2);
    AbsHumidityIsFraction(svp, t, rh1);
    AbsHumidityIsFraction(svp, t, rh2);
    assert ((a * rh1 + rh2) / 100.0) * s == a * ((rh1 / 100.0) * s) + (rh2 / 100.0) * s;
  }

  /** Above absolute zero, absolute humidity strictly increases with the relative humidity. */
  lemma AbsHumidityStrictlyIncreasing(svp: VapourPressure, t: Celsius, rh1: real, rh2: real)
    requires AboveAbsoluteZero(t)
    requires rh1 < rh2
    ensures AbsHumidity(svp, t, rh1) < AbsHumidity(svp, t, rh2)
  {
    var s := SaturationHumidity(svp, t);
    AbsHumidityIsFraction(svp, t, rh1);
    AbsHumidityIsFraction(svp, t, rh2);
    assert (rh2 / 100.0 - rh1 / 100.0) * s > 0.0;
  }
}
