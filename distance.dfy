/**
  * The tail shared by both release-distance computations: a distance is
  * `other - one` only when both looked-up values are truthy in Python's
  * sense, and a day count is read off a time difference with
  * `delta.days if delta else None`.
  */
module Distance {

  import opened Wrappers

  /** The `unit` argument of the distance functions. */
  datatype Unit = Days | Releases

  const SECONDS_PER_DAY: int := 86400

  /**
    * Whether a looked-up value passes `if value`: a date (a datetime) is
    * truthy whenever it exists, a rank (an int) only when it is not 0.
    */
  predicate Present(unit: Unit, v: Option<int>) {
    v.Some? && (unit.Releases? ==> v.value != 0)
  }

  /** `other_value - one_value if other_value and one_value else None` */
  function Difference(unit: Unit, one: Option<int>, other: Option<int>): (r: Option<int>)
    ensures r.Some? <==> Present(unit, one) && Present(unit, other)
    ensures r.Some? ==> one.value + r.value == other.value
  {
    if Present(unit, other) && Present(unit, one) then Some(other.value - one.value) else None
  }

  /** Two truthy ranks are their difference apart. */
  lemma DifferenceOfRanks(x: Option<int>, one: Option<int>, other: Option<int>, p: int, q: int)
    requires one == Some(p) && other == Some(q) && p >= 1 && q >= 1
    requires x == Difference(Releases, one, other)
    ensures x == Some(q - p)
  {
  }

  function Negated(d: Option<int>): Option<int> {
    if d.Some? then Some(-d.value) else None
  }

  /** Swapping the two values negates the difference, and both sides agree on None. */
  lemma DifferenceAntisymmetric(unit: Unit, one: Option<int>, other: Option<int>)
    ensures Difference(unit, one, other) == Negated(Difference(unit, other, one))
  {
  }

  /**
    * `delta.days if delta else None` for a time difference of `delta`
    * seconds: a zero difference is falsy and gives None; otherwise the
    * whole days, rounded towards minus infinity as timedelta does.
    */
  function WholeDays(delta: Option<int>): (r: Option<int>)
    ensures r.None? <==> delta.None? || delta.value == 0
    ensures r.Some? ==> r.value * SECONDS_PER_DAY <= delta.value < (r.value + 1) * SECONDS_PER_DAY
  {
    if delta.Some? && delta.value != 0 then Some(delta.value / SECONDS_PER_DAY) else None
  }
}
