/** The values the point-record cache works with: points, physical units,
    closed time ranges and their five-way intersection classification. */
module Points {
  import IntSets

  datatype Option<T> = None | Some(value: T)

  /** An OPC-style quality code (an `unsigned int` in the source). */
  type Quality = nat

  /** The quality code the filters stamp on every point they keep
      (`Point::opc_rtx_override`). Its numeric value is declared in Point.h,
      which is not part of this model; the value below is a stand-in and no
      property depends on it beyond its being one fixed code. */
  const OpcRtxOverride: Quality := 256

  /** A time-stamped measurement. `value` and `confidence` are `double` in the
      source; here they are integers (see README, "Left out"). */
  datatype Point = Point(time: int, value: int, quality: Quality, confidence: int, isValid: bool)

  /** `Point()`: the "no data here" sentinel. */
  const Invalid: Point := Point(0, 0, 0, 0, false)

  /** `Point(time, value, quality, confidence)`: a valid point. */
  function Measured(time: int, value: int, quality: Quality, confidence: int): (p: Point)
    ensures p.isValid && p.time == time && p.value == value
    ensures p.quality == quality && p.confidence == confidence
  {
    Point(time, value, quality, confidence, true)
  }

  /** The timestamps occurring in a sequence of points. */
  function TimesOf(ps: seq<Point>): set<int> {
    set i | 0 <= i < |ps| :: ps[i].time
  }

  lemma TimesOfCons(ps: seq<Point>)
    requires ps != []
    ensures TimesOf(ps) == {ps[0].time} + TimesOf(ps[1..])
  {
    forall t | t in TimesOf(ps)
      ensures t in {ps[0].time} + TimesOf(ps[1..])
    {
      var i :| 0 <= i < |ps| && ps[i].time == t;
      if i > 0 {
        assert ps[1..][i - 1].time == t;
      }
    }
    forall t | t in TimesOf(ps[1..])
      ensures t in TimesOf(ps)
    {
      var i :| 0 <= i < |ps[1..]| && ps[1..][i].time == t;
      assert ps[i + 1].time == t;
    }
  }

  lemma TimesOfSnoc(ps: seq<Point>, p: Point)
    ensures TimesOf(ps + [p]) == TimesOf(ps) + {p.time}
  {
    var qs := ps + [p];
    forall t | t in TimesOf(qs)
      ensures t in TimesOf(ps) + {p.time}
    {
      var i :| 0 <= i < |qs| && qs[i].time == t;
      if i < |ps| {
        assert ps[i].time == t;
      }
    }
    forall t | t in TimesOf(ps)
      ensures t in TimesOf(qs)
    {
      var i :| 0 <= i < |ps| && ps[i].time == t;
      assert qs[i].time == t;
    }
    assert qs[|ps|].time == p.time;
  }

  /** The greatest element of `s` strictly below `t` (what stepping back
      from `lower_bound(t)` of an ordered map or set reaches). */
  function LastBelow(s: set<int>, t: int): (k: Option<int>)
    ensures k.Some? ==> k.value in s && k.value < t && forall x :: x in s && x < t ==> x <= k.value
    ensures k.None? ==> forall x :: x in s ==> t <= x
  {
    var below := set x | x in s && x < t;
    assert forall x :: x in s && x < t ==> x in below;
    if below == {} then None else Some(IntSets.Max(below))
  }

  /** The least element of `s` strictly above `t`. */
  function FirstAbove(s: set<int>, t: int): (k: Option<int>)
    ensures k.Some? ==> k.value in s && t < k.value && forall x :: x in s && t < x ==> k.value <= x
    ensures k.None? ==> forall x :: x in s ==> x <= t
  {
    var above := set x | x in s && t < x;
    assert forall x :: x in s && t < x ==> x in above;
    if above == {} then None else Some(IntSets.Min(above))
  }

  /** Points strictly ordered by time (hence with distinct times). */
  predicate Ascending(ps: seq<Point>) {
    forall i, j :: 0 <= i < j < |ps| ==> ps[i].time < ps[j].time
  }

  /** A physical-unit descriptor; `NoUnits` is `RTX_NO_UNITS`. */
  datatype Units = NoUnits | Unit(symbol: string)

  /** A closed interval of timestamps. */
  datatype TimeRange = TimeRange(start: int, end: int) {
    predicate Contains(t: int) {
      start <= t <= end
    }

    predicate ContainsRange(other: TimeRange) {
      start <= other.start && other.end <= end
    }
  }

  /** `TimeRange()`: the empty sentinel range. */
  const EmptyRange: TimeRange := TimeRange(0, 0)

  /** How a query range sits relative to a reference range (the span the
      buffer holds): `intersect_other_internal`, `intersect_left`,
      `intersect_right`, `intersect_other_external`, or none of these. */
  datatype Intersect = Internal | Left | Right | External | Other

  /** `reference.intersection(query)`. The classification is tried in the
      order internal, left, right, external; what matches none of them is
      `Other`. */
  function Intersection(reference: TimeRange, query: TimeRange): (x: Intersect)
    ensures x == Internal <==> reference.ContainsRange(query)
    ensures x == Left <==>
      query.start < reference.start && reference.start <= query.end <= reference.end
    ensures x == Right <==>
      reference.start <= query.start <= reference.end && reference.end < query.end
    ensures x == External <==>
      query.start < reference.start && reference.end < query.end
  {
    if reference.ContainsRange(query) then Internal
    else if query.start < reference.start && reference.start <= query.end <= reference.end then Left
    else if reference.start <= query.start <= reference.end && reference.end < query.end then Right
    else if query.start < reference.start && reference.end < query.end then External
    else Other
  }

  /** For well-formed ranges the fall-back class is exactly "no common
      instant": every overlapping configuration is one of the four named
      classes. */
  lemma OtherIsDisjoint(reference: TimeRange, query: TimeRange)
    requires reference.start <= reference.end && query.start <= query.end
    ensures Intersection(reference, query) == Other <==>
      forall t :: !(reference.Contains(t) && query.Contains(t))
  {
    if Intersection(reference, query) != Other {
      var t := if reference.start <= query.start then query.start else reference.start;
      assert reference.Contains(t) && query.Contains(t);
    }
  }
}
