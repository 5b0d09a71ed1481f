/** The pieces of range reconciliation in `pointsInRange` that do not touch
    the record's state: which spans go to the adapter, which span the buffer
    supplies, and the first-occurrence de-duplication with clipping. */
module Reconcile {
  import opened Points

  /** The spans `pointsInRange` asks the adapter for, in call order, when the
      memo does not cover the query, the adapter is connected and the buffered
      span is `range`. */
  function GapQueries(range: TimeRange, q: TimeRange): (gaps: seq<TimeRange>)
    ensures Intersection(range, q) == Internal <==> gaps == []
    ensures |gaps| <= 2
    ensures Intersection(range, q) == External <==> |gaps| == 2
    ensures range.start <= range.end && Intersection(range, q) != Other ==>
      forall g :: g in gaps ==> q.ContainsRange(g)
  {
    match Intersection(range, q)
    case Internal => []
    case Left => [TimeRange(q.start, range.start)]
    case Right => [TimeRange(range.end, q.end)]
    case External => [TimeRange(q.start, range.start), TimeRange(range.end, q.end)]
    case Other => [q]
  }

  /** The span `pointsInRange` reads from the buffer (none for `Other`). */
  function BufferedPart(range: TimeRange, q: TimeRange): Option<TimeRange> {
    match Intersection(range, q)
    case Internal => Some(q)
    case Left => Some(TimeRange(range.start, q.end))
    case Right => Some(TimeRange(q.start, range.end))
    case External => Some(range)
    case Other => None
  }

  /** The adapter gaps and the buffered part together cover every instant of
      the query, and the buffered part never reaches outside the buffered
      span or the query: no instant of the query is left unasked. */
  lemma GapsAndBufferCoverQuery(range: TimeRange, q: TimeRange, t: int)
    requires q.Contains(t)
    ensures BufferedPart(range, q).Some? ==>
      range.ContainsRange(BufferedPart(range, q).value) && q.ContainsRange(BufferedPart(range, q).value)
    ensures (exists g :: g in GapQueries(range, q) && g.Contains(t)) ||
      (BufferedPart(range, q).Some? && BufferedPart(range, q).value.Contains(t))
  {
    var gaps := GapQueries(range, q);
    match Intersection(range, q)
    case Internal =>
    case Left =>
      if t <= range.start {
        assert gaps[0].Contains(t);
      }
    case Right =>
      if range.end <= t {
        assert gaps[0].Contains(t);
      }
    case External =>
      if t <= range.start {
        assert gaps[0].Contains(t);
      } else if range.end <= t {
        assert gaps[1].Contains(t);
      }
    case Other =>
      assert gaps[0].Contains(t);
  }

  /** `pointsInRange`'s merge step: walk the concatenation left to right,
      keep a point only if its time has not been seen before and lies in the
      query. */
  function Dedup(s: seq<Point>, q: TimeRange): seq<Point>
    decreases |s|
  {
    if s == [] then []
    else
      var init := s[..|s| - 1];
      var p := s[|s| - 1];
      Dedup(init, q) + (if p.time !in TimesOf(init) && q.Contains(p.time) then [p] else [])
  }

  /** The de-duplicated merge keeps exactly the input's times that lie in
      the query, and nothing outside it. */
  lemma {:induction false} DedupTimes(s: seq<Point>, q: TimeRange)
    ensures var r := Dedup(s, q);
      && (forall i :: 0 <= i < |r| ==> q.Contains(r[i].time))
      && (forall t :: t in TimesOf(r) <==> t in TimesOf(s) && q.Contains(t))
    decreases |s|
  {
    if s != [] {
      var init := s[..|s| - 1];
      var p := s[|s| - 1];
      var prev := Dedup(init, q);
      DedupTimes(init, q);
      assert s == init + [p];
      TimesOfSnoc(init, p);
      var r := Dedup(s, q);
      if p.time !in TimesOf(init) && q.Contains(p.time) {
        assert r == prev + [p];
        TimesOfSnoc(prev, p);
      } else {
        assert r == prev;
      }
    }
  }

  /** The de-duplicated merge has pairwise distinct times. */
  lemma {:induction false} DedupDistinct(s: seq<Point>, q: TimeRange)
    ensures var r := Dedup(s, q);
      forall i, j :: 0 <= i < j < |r| ==> r[i].time != r[j].time
    decreases |s|
  {
    if s != [] {
      var init := s[..|s| - 1];
      var p := s[|s| - 1];
      var prev := Dedup(init, q);
      DedupDistinct(init, q);
      DedupTimes(init, q);
      var r := Dedup(s, q);
      if p.time !in TimesOf(init) && q.Contains(p.time) {
        assert r == prev + [p];
        forall i, j | 0 <= i < j < |r|
          ensures r[i].time != r[j].time
        {
          if j == |prev| {
            assert r[i] == prev[i];
            assert r[i].time in TimesOf(prev);
          }
        }
      }
    }
  }

  /** `x` occurs in `s` at an index before which no point has its time. */
  ghost predicate FirstWithItsTime(s: seq<Point>, x: Point) {
    exists i :: 0 <= i < |s| && s[i] == x && x.time !in TimesOf(s[..i])
  }

  /** Each point the merge keeps is the first point of the input with its
      time. */
  lemma {:induction false} DedupKeepsFirst(s: seq<Point>, q: TimeRange)
    ensures forall k :: 0 <= k < |Dedup(s, q)| ==> FirstWithItsTime(s, Dedup(s, q)[k])
    decreases |s|
  {
    if s != [] {
      var init := s[..|s| - 1];
      var p := s[|s| - 1];
      var prev := Dedup(init, q);
      DedupKeepsFirst(init, q);
      var keep := p.time !in TimesOf(init) && q.Contains(p.time);
      var r := Dedup(s, q);
      assert r == prev + (if keep then [p] else []);
      forall k | 0 <= k < |r|
        ensures FirstWithItsTime(s, r[k])
      {
        if k < |prev| {
          assert r[k] == prev[k];
          assert FirstWithItsTime(init, prev[k]);
          var i :| 0 <= i < |init| && init[i] == prev[k] && prev[k].time !in TimesOf(init[..i]);
          assert s[..i] == init[..i];
          assert s[i] == r[k];
        } else {
          assert keep && r[k] == p;
          assert s[..|s| - 1] == init;
          assert s[|s| - 1] == r[k];
        }
      }
    }
  }

  /** The loop of `pointsInRange` that fills `addedTimes` and `deDuped`. */
  method DedupClip(merged: seq<Point>, q: TimeRange) returns (deDuped: seq<Point>)
    ensures deDuped == Dedup(merged, q)
    ensures forall i, j :: 0 <= i < j < |deDuped| ==> deDuped[i].time != deDuped[j].time
    ensures forall x :: x in TimesOf(deDuped) <==> x in TimesOf(merged) && q.Contains(x)
    ensures forall i :: 0 <= i < |deDuped| ==> q.Contains(deDuped[i].time)
  {
    var addedTimes: set<int> := {};
    deDuped := [];
    for i := 0 to |merged|
      invariant addedTimes == TimesOf(merged[..i])
      invariant deDuped == Dedup(merged[..i], q)
    {
      var p := merged[i];
      assert merged[..i + 1] == merged[..i] + [p];
      assert merged[..i + 1][..i] == merged[..i];
      TimesOfSnoc(merged[..i], p);
      if p.time !in addedTimes {
        addedTimes := addedTimes + {p.time};
        if q.start <= p.time && p.time <= q.end {
          deDuped := deDuped + [p];
        }
      }
    }
    assert merged[..|merged|] == merged;
    DedupTimes(merged, q);
    DedupDistinct(merged, q);
  }
}
