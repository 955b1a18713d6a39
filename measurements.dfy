/**
 * One measurement group as fetched from the Withings account, and the values
 * the sync loop derives from it before writing a weight-scale record.
 *
 * Timestamps are integers (seconds); masses, ratios and the height are reals.
 * Python's truthiness of an optional float (`if height and weight`) is
 * "present and not zero", written `Truthy` here.
 */
module Measurements {
  import opened Wrappers

  /** A measurement group: its time and the optional readings it carries. */
  datatype Group = Group(
    dt: int,
    weight: Option<real>,
    fatRatio: Option<real>,
    muscleMass: Option<real>,
    hydration: Option<real>,
    boneMass: Option<real>)

  /** Python truthiness of an optional float: not `None` and not `0.0`. */
  predicate Truthy(x: Option<real>)
  {
    x.Some? && x.value != 0.0
  }

  /**
   * The BMI written with a record: present exactly when the height and the
   * weight are both truthy, and then the weight over the squared height
   * (so that BMI times height squared gives the weight back).
   */
  function Bmi(weight: real, height: Option<real>): (bmi: Option<real>)
    ensures bmi.Some? <==> Truthy(height) && weight != 0.0
    ensures bmi.Some? ==> bmi.value * (height.value * height.value) == weight
  {
    if Truthy(height) && weight != 0.0 then
      SquareIsPositive(height.value);
      Some(weight / (height.value * height.value))
    else
      None
  }

  /** A non-zero height squared is positive, so BMI never divides by zero. */
  lemma SquareIsPositive(h: real)
    requires h != 0.0
    ensures h * h > 0.0
  {
  }

  /**
   * The hydration percentage written with a record: present exactly when the
   * hydration mass and the weight are both truthy, and then the share of the
   * weight that the hydration mass is, times 100.
   */
  function PercentHydration(hydration: Option<real>, weight: real): (p: Option<real>)
    ensures p.Some? <==> Truthy(hydration) && weight != 0.0
    ensures p.Some? ==> p.value * weight == hydration.value * 100.0
  {
    if Truthy(hydration) && weight != 0.0 then
      Some(hydration.value * 100.0 / weight)
    else
      None
  }
}
