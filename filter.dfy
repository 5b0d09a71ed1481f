/** The quality-code filter modes of the point record (`OpcFilterType`) and
    the per-point functions they install. */
module OpcFilter {
  import opened Points

  /** `OpcNoFilter` is the type a fresh record starts with before the
      constructor installs `OpcPassThrough`; it has no filter function. */
  datatype FilterType = NoFilter | PassThrough | WhiteList | BlackList | CodesToValues | CodesToConfidence

  /** The filter function installed for type `ft`, applied to `p` with the
      record's current code set `codes`. */
  function FilterPoint(ft: FilterType, codes: set<Quality>, p: Point): (r: Point)
    requires ft != NoFilter
    ensures ft == PassThrough ==> r == p
    ensures ft == WhiteList ==> (r.isValid <==> p.quality in codes)
    ensures ft == BlackList ==> (r.isValid <==> p.quality !in codes)
    ensures ft == CodesToValues || ft == CodesToConfidence ==> r.isValid
    ensures ft != PassThrough && !r.isValid ==> r == Invalid
    ensures ft != PassThrough && r.isValid ==> r.time == p.time && r.quality == OpcRtxOverride
    ensures ft != PassThrough && ft != CodesToValues && r.isValid ==> r.value == p.value
    ensures ft != PassThrough && ft != CodesToConfidence && r.isValid ==> r.confidence == p.confidence
    ensures ft == CodesToValues ==> r.value == p.quality
    ensures ft == CodesToConfidence ==> r.confidence == p.quality
  {
    match ft
    case PassThrough => p
    case WhiteList =>
      if p.quality in codes then Measured(p.time, p.value, OpcRtxOverride, p.confidence) else Invalid
    case BlackList =>
      if p.quality in codes then Invalid else Measured(p.time, p.value, OpcRtxOverride, p.confidence)
    case CodesToValues => Measured(p.time, p.quality, OpcRtxOverride, p.confidence)
    case CodesToConfidence => Measured(p.time, p.value, OpcRtxOverride, p.quality)
  }

  /** `pointsWithOpcFilter`: filter every point, keep the valid results, in
      their original order. */
  function FilterAll(ft: FilterType, codes: set<Quality>, ps: seq<Point>): (r: seq<Point>)
    requires ft != NoFilter
    ensures |r| <= |ps|
    ensures forall i :: 0 <= i < |r| ==> r[i].isValid
    decreases |ps|
  {
    if ps == [] then []
    else
      var q := FilterPoint(ft, codes, ps[|ps| - 1]);
      FilterAll(ft, codes, ps[..|ps| - 1]) + (if q.isValid then [q] else [])
  }

  /** Filtering distributes over concatenation, so the output keeps the
      input order. */
  lemma {:induction false} FilterAllAppend(ft: FilterType, codes: set<Quality>, a: seq<Point>, b: seq<Point>)
    requires ft != NoFilter
    ensures FilterAll(ft, codes, a + b) == FilterAll(ft, codes, a) + FilterAll(ft, codes, b)
    decreases |b|
  {
    if b == [] {
      assert a + b == a;
    } else {
      var init := b[..|b| - 1];
      assert (a + b)[..|a + b| - 1] == a + init;
      assert (a + b)[|a + b| - 1] == b[|b| - 1];
      FilterAllAppend(ft, codes, a, init);
    }
  }

  /** Every output point is the filtered image of some input point. */
  lemma {:induction false} FilterAllFrom(ft: FilterType, codes: set<Quality>, ps: seq<Point>)
    requires ft != NoFilter
    ensures forall r :: r in FilterAll(ft, codes, ps) ==> exists p :: p in ps && r == FilterPoint(ft, codes, p)
    decreases |ps|
  {
    if ps != [] {
      var init := ps[..|ps| - 1];
      FilterAllFrom(ft, codes, init);
      assert forall p :: p in init ==> p in ps;
    }
  }

  /** Filtering changes no timestamp. */
  lemma {:induction false} FilterAllTimes(ft: FilterType, codes: set<Quality>, ps: seq<Point>)
    requires ft != NoFilter
    ensures TimesOf(FilterAll(ft, codes, ps)) <= TimesOf(ps)
  {
    FilterAllFrom(ft, codes, ps);
    forall t | t in TimesOf(FilterAll(ft, codes, ps))
      ensures t in TimesOf(ps)
    {
      var r := FilterAll(ft, codes, ps);
      var i :| 0 <= i < |r| && r[i].time == t;
      assert r[i] in r;
      var p :| p in ps && r[i] == FilterPoint(ft, codes, p);
      var j :| 0 <= j < |ps| && ps[j] == p;
    }
  }

  /** Filtering a time-ordered sequence leaves it time-ordered. */
  lemma {:induction false} FilterAllAscending(ft: FilterType, codes: set<Quality>, ps: seq<Point>)
    requires ft != NoFilter
    requires Ascending(ps)
    ensures Ascending(FilterAll(ft, codes, ps))
    decreases |ps|
  {
    if ps != [] {
      var init := ps[..|ps| - 1];
      var last := ps[|ps| - 1];
      var prev := FilterAll(ft, codes, init);
      FilterAllAscending(ft, codes, init);
      FilterAllTimes(ft, codes, init);
      var q := FilterPoint(ft, codes, last);
      if q.isValid {
        var r := prev + [q];
        assert FilterAll(ft, codes, ps) == r;
        forall i, j | 0 <= i < j < |r|
          ensures r[i].time < r[j].time
        {
          if j == |prev| {
            assert r[i].time in TimesOf(prev);
            var k :| 0 <= k < |init| && init[k].time == r[i].time;
            assert ps[k] == init[k];
          }
        }
      }
    }
  }

  /** A white-listed point carries the override code, so white-listing it a
      second time keeps it only if the override code itself is listed. */
  lemma WhiteListTwice(codes: set<Quality>, p: Point)
    requires p.quality in codes
    ensures FilterPoint(WhiteList, codes, FilterPoint(WhiteList, codes, p)).isValid <==>
      OpcRtxOverride in codes
  {
    assert FilterPoint(WhiteList, codes, p).quality == OpcRtxOverride;
  }

  /** Applying CodesToValues twice puts the override code, not the original
      quality, into the value. */
  lemma CodesToValuesTwice(codes: set<Quality>, p: Point)
    ensures FilterPoint(CodesToValues, codes, FilterPoint(CodesToValues, codes, p)).value == OpcRtxOverride
  {
  }
}
