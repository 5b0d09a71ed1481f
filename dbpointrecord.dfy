/** The point-record cache orchestrator (`DbPointRecord`): a memory buffer in
    front of a backing-store adapter, a memo of the last adapter request, a
    readonly policy and a quality-code filter. Every operation is
    sequential; locking is not modelled. */
module DbPointRecords {
  import opened Points
  import opened BufferTier
  import opened OpcFilter
  import opened Reconcile
  import opened DbAdapter

  /** Half-width of the window `point` fetches around a missed time: 12 h. */
  const LookupMargin: int := 60 * 60 * 12
  const DefaultSearchMaxIterations: int := 8
  const DefaultSearchStride: int := 3 * 60 * 60

  /** `request_t`: the identifier and span of the last adapter request. */
  datatype Request = Request(id: string, range: TimeRange) {
    /** `request_t::contains`. */
    predicate Contains(ident: string, t: int) {
      range.start <= t && t <= range.end && ident == id
    }
  }

  /** What `request_t::clear` leaves behind. */
  const ClearedRequest: Request := Request("", EmptyRange)

  /** `IdentifierUnitsList::doesHaveIdUnits`: is the name registered, and is
      it registered with these units. */
  function DoesHaveIdUnits(list: map<string, Units>, name: string, units: Units): (m: (bool, bool))
    ensures m.0 <==> name in list
    ensures m.1 <==> name in list && list[name] == units
    ensures m.1 ==> m.0
  {
    (name in list, name in list && list[name] == units)
  }

  /** The window `point` asks the adapter for around `t`. */
  function Window(t: int): (w: TimeRange)
    ensures w.Contains(t) && w.end - w.start == 2 * LookupMargin
  {
    TimeRange(t - LookupMargin, t + LookupMargin)
  }

  /** What `pointsWithOpcFilter(adapter.selectRange(id, r))` yields. */
  function Fetched(store: Buffer, ft: FilterType, codes: set<Quality>, id: string, r: TimeRange): seq<Point>
    requires ft != NoFilter
  {
    FilterAll(ft, codes, BufferedInRange(store, id, r))
  }

  lemma FetchedFacts(store: Buffer, ft: FilterType, codes: set<Quality>, id: string, r: TimeRange)
    requires ft != NoFilter && Consistent(store)
    ensures var ps := Fetched(store, ft, codes, id, r);
      Ascending(ps) && (forall i :: 0 <= i < |ps| ==> ps[i].isValid && r.Contains(ps[i].time))
  {
    var raw := BufferedInRange(store, id, r);
    BufferedInRangeFacts(store, id, r);
    FilterAllAscending(ft, codes, raw);
    FilterAllTimes(ft, codes, raw);
    var ps := Fetched(store, ft, codes, id, r);
    forall i | 0 <= i < |ps|
      ensures r.Contains(ps[i].time)
    {
      assert ps[i].time in TimesOf(ps);
      var j :| 0 <= j < |raw| && raw[j].time == ps[i].time;
    }
  }

  /** The memo `point` leaves after a fetch: the span from the first to the
      last filtered point, or the empty range. */
  function SpanRequest(id: string, ps: seq<Point>): (r: Request)
    ensures r.id == id
    ensures ps == [] ==> r.range == EmptyRange
    ensures ps != [] ==> r.range.start == ps[0].time && r.range.end == ps[|ps| - 1].time
  {
    if |ps| > 0 then Request(id, TimeRange(ps[0].time, ps[|ps| - 1].time)) else Request(id, EmptyRange)
  }

  /** `point`'s scan over the fetched points: remember a point whose time is
      `t`, stop at the first later point. */
  function ScanAt(ps: seq<Point>, t: int, cur: Point): Point
    decreases |ps|
  {
    if ps == [] then cur
    else if ps[0].time == t then ScanAt(ps[1..], t, ps[0])
    else if ps[0].time > t then cur
    else ScanAt(ps[1..], t, cur)
  }

  /** On a time-ordered sequence the scan finds the point at `t` when there
      is one, and otherwise keeps what it started with. */
  lemma {:induction false} ScanAtFinds(ps: seq<Point>, t: int, cur: Point)
    requires Ascending(ps)
    ensures t in TimesOf(ps) ==> ScanAt(ps, t, cur) in ps && ScanAt(ps, t, cur).time == t
    ensures t !in TimesOf(ps) ==> ScanAt(ps, t, cur) == cur
    decreases |ps|
  {
    if ps != [] {
      var tail := ps[1..];
      TimesOfCons(ps);
      assert forall i :: 0 <= i < |tail| ==> tail[i] == ps[i + 1];
      if ps[0].time == t {
        assert t !in TimesOf(tail);
        ScanAtFinds(tail, t, ps[0]);
      } else if ps[0].time > t {
        assert t !in TimesOf(tail);
      } else {
        ScanAtFinds(tail, t, cur);
      }
    }
  }

  /** The iterator loop of `point`. */
  method ScanForTime(ps: seq<Point>, t: int, init: Point) returns (p: Point)
    ensures p == ScanAt(ps, t, init)
  {
    p := init;
    var i := 0;
    while i < |ps|
      invariant 0 <= i <= |ps|
      invariant ScanAt(ps[i..], t, p) == ScanAt(ps, t, init)
    {
      assert ps[i..][1..] == ps[i + 1..];
      if ps[i].time == t {
        p := ps[i];
      } else if ps[i].time > t {
        break;
      }
      i := i + 1;
    }
  }

  /** The adapter calls that fetch the given gaps. */
  function RangeCalls(id: string, gaps: seq<TimeRange>): (cs: seq<Call>)
    ensures |cs| == |gaps|
    ensures forall i :: 0 <= i < |gaps| ==> cs[i] == SelectRangeCall(id, gaps[i])
  {
    if gaps == [] then [] else [SelectRangeCall(id, gaps[0])] + RangeCalls(id, gaps[1..])
  }

  /** `merged` in `pointsInRange` (left, then middle, then right), from the
      buffer `b` and the store, for a query the buffer does not cover. */
  function Assembled(b: Buffer, store: Buffer, ft: FilterType, codes: set<Quality>, id: string, q: TimeRange): seq<Point>
    requires ft != NoFilter
  {
    AssembledAround(b, store, ft, codes, id, BufferedRange(b, id), q)
  }

  /** `Assembled` for the buffered span `range`. */
  function AssembledAround(b: Buffer, store: Buffer, ft: FilterType, codes: set<Quality>, id: string,
                           range: TimeRange, q: TimeRange): seq<Point>
    requires ft != NoFilter
  {
    match Intersection(range, q)
    case Internal => BufferedInRange(b, id, q)
    case Left =>
      Fetched(store, ft, codes, id, TimeRange(q.start, range.start)) +
      BufferedInRange(b, id, TimeRange(range.start, q.end))
    case Right =>
      BufferedInRange(b, id, TimeRange(q.start, range.end)) +
      Fetched(store, ft, codes, id, TimeRange(range.end, q.end))
    case External =>
      Fetched(store, ft, codes, id, TimeRange(q.start, range.start)) +
      (BufferedInRange(b, id, range) + Fetched(store, ft, codes, id, TimeRange(range.end, q.end)))
    case Other => Fetched(store, ft, codes, id, q)
  }

  lemma AppendTwo<T>(s: seq<T>, x: T, y: T)
    ensures s + [x] + [y] == s + [x, y]
  {
  }

  /** The part of the state a range query reads and changes: the buffer,
      the memo and the adapter's call log. */
  datatype Cache = Cache(buffer: Buffer, lastRequest: Request, calls: seq<Call>)

  /** What a range query reads and leaves alone: the connection, the
      adapter's store and the installed filter with its codes. */
  datatype Backing = Backing(connected: bool, store: Buffer, filter: FilterType, codes: set<Quality>)

  /** Whether `pointsInRange(id, q)` is answered by the buffer alone: the
      memo has this identifier and covers `q`, or the adapter is not
      connected, or the buffered span already covers `q`. */
  predicate Served(memo: Request, b: Buffer, connected: bool, id: string, q: TimeRange) {
    || (memo.range.ContainsRange(q) && memo.id == id)
    || !connected
    || Intersection(BufferedRange(b, id), q) == Internal
  }

  /** `pointsInRange(id, q)` from state `c`: its answer and the state it
      leaves behind. */
  function RangeQuery(c: Cache, env: Backing, id: string, q: TimeRange): (seq<Point>, Cache)
    requires env.filter != NoFilter
  {
    if Served(c.lastRequest, c.buffer, env.connected, id, q) then (BufferedInRange(c.buffer, id, q), c)
    else
      var out := Dedup(Assembled(c.buffer, env.store, env.filter, env.codes, id, q), q);
      var memo := if |out| > 0 then Request(id, q) else Request(id, EmptyRange);
      (out, Cache(BufferTier.AddPoints(c.buffer, id, out), memo,
                  c.calls + RangeCalls(id, GapQueries(BufferedRange(c.buffer, id), q))))
  }

  /** A range query answers with points of distinct times inside the query,
      only adds adapter calls, and keeps the buffer consistent. */
  lemma RangeQueryFacts(c: Cache, env: Backing, id: string, q: TimeRange)
    requires env.filter != NoFilter && Consistent(c.buffer)
    ensures var res := RangeQuery(c, env, id, q);
      && (forall i :: 0 <= i < |res.0| ==> q.Contains(res.0[i].time))
      && (forall i, j :: 0 <= i < j < |res.0| ==> res.0[i].time != res.0[j].time)
      && Consistent(res.1.buffer)
      && c.calls <= res.1.calls
  {
    if Served(c.lastRequest, c.buffer, env.connected, id, q) {
      BufferedInRangeFacts(c.buffer, id, q);
    } else {
      var merged := Assembled(c.buffer, env.store, env.filter, env.codes, id, q);
      DedupTimes(merged, q);
      DedupDistinct(merged, q);
    }
  }

  /** The probing loop shared by `searchPreviousIteratively` (`shift` is
      minus the stride) and `searchNextIteratively` (`shift` is the
      stride): ask `pointsInRange` for `r`; while nothing came back and
      tries remain, move `r` by `shift` and ask again. Yields the points of
      the last window asked, the state left behind, and the windows asked,
      in order. */
  function Probe(c: Cache, env: Backing, id: string, r: TimeRange, shift: int, tries: int)
    : (seq<Point>, Cache, seq<TimeRange>)
    requires env.filter != NoFilter
    decreases tries
  {
    if tries <= 0 then ([], c, [])
    else
      var step := RangeQuery(c, env, id, r);
      if |step.0| > 0 then (step.0, step.1, [r])
      else
        var rest := Probe(step.1, env, id, TimeRange(r.start + shift, r.end + shift), shift, tries - 1);
        (rest.0, rest.1, [r] + rest.2)
  }

  /** Where a probing run stands: `total` is the whole run from the start,
      `probes` the windows already asked and `points` the last answer; when
      that answer is empty, the rest of the run from state `c` and window `r`
      with `tries` left completes it. */
  ghost predicate ProbeRemains(total: (seq<Point>, Cache, seq<TimeRange>), c: Cache, env: Backing, id: string,
                               r: TimeRange, shift: int, tries: int, probes: seq<TimeRange>, points: seq<Point>)
    requires env.filter != NoFilter
  {
    if |points| == 0 then
      var rest := Probe(c, env, id, r, shift, tries);
      total == (rest.0, rest.1, probes + rest.2)
    else
      total == (points, c, probes)
  }

  /** Before the first probe the whole run is still to come. */
  lemma ProbeBegin(c: Cache, env: Backing, id: string, r: TimeRange, shift: int, tries: int)
    requires env.filter != NoFilter
    ensures ProbeRemains(Probe(c, env, id, r, shift, tries), c, env, id, r, shift, tries, [], [])
  {
    var rest := Probe(c, env, id, r, shift, tries);
    assert [] + rest.2 == rest.2;
  }

  /** One step of the probing loop: asking window `r` from state `before`
      leaves the run standing at the next window, or finished when the
      answer is not empty. */
  lemma ProbeAdvance(total: (seq<Point>, Cache, seq<TimeRange>), before: Cache, after: Cache, env: Backing,
                     id: string, r: TimeRange, shift: int, tries: int, probes: seq<TimeRange>, points: seq<Point>)
    requires env.filter != NoFilter && tries > 0
    requires ProbeRemains(total, before, env, id, r, shift, tries, probes, [])
    requires (points, after) == RangeQuery(before, env, id, r)
    ensures ProbeRemains(total, after, env, id, TimeRange(r.start + shift, r.end + shift), shift, tries - 1,
                         probes + [r], points)
  {
    if |points| == 0 {
      var rest := Probe(after, env, id, TimeRange(r.start + shift, r.end + shift), shift, tries - 1);
      assert probes + ([r] + rest.2) == (probes + [r]) + rest.2;
    }
  }

  /** A run that got an answer or ran out of tries is over. */
  lemma ProbeDone(total: (seq<Point>, Cache, seq<TimeRange>), c: Cache, env: Backing, id: string,
                  r: TimeRange, shift: int, tries: int, probes: seq<TimeRange>, points: seq<Point>)
    requires env.filter != NoFilter && (|points| > 0 || tries <= 0)
    requires ProbeRemains(total, c, env, id, r, shift, tries, probes, points)
    ensures total == (points, c, probes)
  {
    if |points| == 0 {
      assert probes + [] == probes;
    }
  }

  /** The windows of a probing run: they start at `r`, each next one is
      shifted by `shift`, there are at most `tries` of them, and fewer only
      when one answered. */
  lemma {:induction false} ProbeWindowsFacts(c: Cache, env: Backing, id: string, r: TimeRange, shift: int, tries: int)
    requires env.filter != NoFilter
    ensures var res := Probe(c, env, id, r, shift, tries);
      && |res.2| <= (if tries > 0 then tries else 0)
      && (res.2 != [] ==> res.2[0] == r)
      && (forall k :: 0 <= k < |res.2| - 1 ==> res.2[k + 1] == TimeRange(res.2[k].start + shift, res.2[k].end + shift))
      && (|res.2| < tries ==> res.0 != [])
    decreases tries
  {
    if tries > 0 {
      var step := RangeQuery(c, env, id, r);
      if |step.0| == 0 {
        var r' := TimeRange(r.start + shift, r.end + shift);
        ProbeWindowsFacts(step.1, env, id, r', shift, tries - 1);
        var rest := Probe(step.1, env, id, r', shift, tries - 1);
        var ws := [r] + rest.2;
        assert forall k :: 0 < k < |ws| ==> ws[k] == rest.2[k - 1];
      }
    }
  }

  /** The answer of a probing run lies in the last window asked; the run
      keeps the buffer consistent and only appends adapter calls. */
  lemma {:induction false} ProbeAnswerFacts(c: Cache, env: Backing, id: string, r: TimeRange, shift: int, tries: int)
    requires env.filter != NoFilter && Consistent(c.buffer)
    ensures var res := Probe(c, env, id, r, shift, tries);
      && (res.0 != [] ==> res.2 != [] && forall i :: 0 <= i < |res.0| ==> res.2[|res.2| - 1].Contains(res.0[i].time))
      && Consistent(res.1.buffer)
      && c.calls <= res.1.calls
    decreases tries
  {
    if tries > 0 {
      var step := RangeQuery(c, env, id, r);
      RangeQueryFacts(c, env, id, r);
      if |step.0| == 0 {
        var r' := TimeRange(r.start + shift, r.end + shift);
        ProbeAnswerFacts(step.1, env, id, r', shift, tries - 1);
        var rest := Probe(step.1, env, id, r', shift, tries - 1);
        assert ([r] + rest.2)[|[r] + rest.2| - 1] == if rest.2 == [] then r else rest.2[|rest.2| - 1];
      }
    }
  }

  /** The probe windows start at `r`, each next one is shifted by `shift`,
      there are at most `tries` of them and fewer only when one answered;
      the answer lies in the last window asked. */
  lemma ProbeFacts(c: Cache, env: Backing, id: string, r: TimeRange, shift: int, tries: int)
    requires env.filter != NoFilter && Consistent(c.buffer)
    ensures var res := Probe(c, env, id, r, shift, tries);
      && |res.2| <= (if tries > 0 then tries else 0)
      && (res.2 != [] ==> res.2[0] == r)
      && (forall k :: 0 <= k < |res.2| - 1 ==> res.2[k + 1] == TimeRange(res.2[k].start + shift, res.2[k].end + shift))
      && (res.0 != [] ==> res.2 != [] && forall i :: 0 <= i < |res.0| ==> res.2[|res.2| - 1].Contains(res.0[i].time))
      && (|res.2| < tries ==> res.0 != [])
      && Consistent(res.1.buffer)
      && c.calls <= res.1.calls
  {
    ProbeWindowsFacts(c, env, id, r, shift, tries);
    ProbeAnswerFacts(c, env, id, r, shift, tries);
  }

  /** `searchPreviousIteratively`'s loop from state `c`. */
  function PreviousSearch(c: Cache, env: Backing, id: string, t: int, stride: int, tries: int)
    : (seq<Point>, Cache, seq<TimeRange>)
    requires env.filter != NoFilter
  {
    Probe(c, env, id, TimeRange(t - stride, t - 1), -stride, tries)
  }

  /** `searchNextIteratively`'s loop from state `c`. */
  function NextSearch(c: Cache, env: Backing, id: string, t: int, stride: int, tries: int)
    : (seq<Point>, Cache, seq<TimeRange>)
    requires env.filter != NoFilter
  {
    Probe(c, env, id, TimeRange(t + 1, t + stride), stride, tries)
  }

  /** `points.back()`, or `Point()` when no point came back. */
  function LastOf(ps: seq<Point>): Point {
    if ps != [] then ps[|ps| - 1] else Invalid
  }

  /** `points.front()`, or `Point()` when no point came back. */
  function FirstOf(ps: seq<Point>): Point {
    if ps != [] then ps[0] else Invalid
  }

  /** The backward search asks adjacent windows going back from `t`, at
      most `tries` of them and fewer only when one answered, and what it
      returns is the sentinel or a point before `t` in the last window. */
  lemma PreviousSearchBefore(c: Cache, env: Backing, id: string, t: int, stride: int, tries: int)
    requires env.filter != NoFilter && Consistent(c.buffer)
    ensures var res := PreviousSearch(c, env, id, t, stride, tries);
      && |res.2| <= (if tries > 0 then tries else 0)
      && (|res.2| < tries ==> res.0 != [])
      && PreviousProbes(res.2, t, stride)
      && (res.0 != [] ==> LastOf(res.0).time < t && res.2[|res.2| - 1].Contains(LastOf(res.0).time))
      && Consistent(res.1.buffer)
  {
    ProbeFacts(c, env, id, TimeRange(t - stride, t - 1), -stride, tries);
    var res := PreviousSearch(c, env, id, t, stride, tries);
    PreviousProbesBefore(res.2, t, stride);
  }

  /** The forward search asks adjacent windows going forward from `t`, at
      most `tries` of them and fewer only when one answered, and what it
      returns is the sentinel or a point after `t` in the last window. */
  lemma NextSearchAfter(c: Cache, env: Backing, id: string, t: int, stride: int, tries: int)
    requires env.filter != NoFilter && Consistent(c.buffer)
    ensures var res := NextSearch(c, env, id, t, stride, tries);
      && |res.2| <= (if tries > 0 then tries else 0)
      && (|res.2| < tries ==> res.0 != [])
      && NextProbes(res.2, t, stride)
      && (res.0 != [] ==> t < FirstOf(res.0).time && res.2[|res.2| - 1].Contains(FirstOf(res.0).time))
      && Consistent(res.1.buffer)
  {
    ProbeFacts(c, env, id, TimeRange(t + 1, t + stride), stride, tries);
    var res := NextSearch(c, env, id, t, stride, tries);
    NextProbesAfter(res.2, t, stride);
  }

  /** The windows `searchPreviousIteratively` probes: `[t-s, t-1]`, each next
      one shifted `s` earlier. */
  ghost predicate PreviousProbes(probes: seq<TimeRange>, t: int, s: int) {
    && (|probes| > 0 ==> probes[0] == TimeRange(t - s, t - 1))
    && forall k :: 0 <= k < |probes| - 1 ==> probes[k + 1] == TimeRange(probes[k].start - s, probes[k].end - s)
  }

  /** The windows `searchNextIteratively` probes: `[t+1, t+s]`, each next one
      shifted `s` later. */
  ghost predicate NextProbes(probes: seq<TimeRange>, t: int, s: int) {
    && (|probes| > 0 ==> probes[0] == TimeRange(t + 1, t + s))
    && forall k :: 0 <= k < |probes| - 1 ==> probes[k + 1] == TimeRange(probes[k].start + s, probes[k].end + s)
  }

  /** The backward windows are adjacent and non-overlapping, each ending just
      before the previous one starts, and no instant of any of them is at or
      after `t` (for a non-positive stride they are all empty). */
  lemma {:induction false} PreviousProbesBefore(probes: seq<TimeRange>, t: int, s: int)
    requires PreviousProbes(probes, t, s)
    ensures forall k :: 0 <= k < |probes| ==> probes[k].end - probes[k].start == s - 1
    ensures forall k :: 0 <= k < |probes| ==> s >= 1 ==> probes[k].end < t
    ensures forall k :: 0 <= k < |probes| - 1 ==> probes[k + 1].end == probes[k].start - 1
    ensures forall k, x :: 0 <= k < |probes| && probes[k].Contains(x) ==> x < t
    decreases |probes|
  {
    if |probes| > 1 {
      var init := probes[..|probes| - 1];
      assert forall k :: 0 <= k < |init| ==> init[k] == probes[k];
      assert PreviousProbes(init, t, s);
      PreviousProbesBefore(init, t, s);
      var k := |probes| - 2;
      assert probes[k + 1] == TimeRange(probes[k].start - s, probes[k].end - s);
    }
  }

  /** The forward windows are adjacent, non-overlapping and strictly after
      `t`. */
  lemma {:induction false} NextProbesAfter(probes: seq<TimeRange>, t: int, s: int)
    requires NextProbes(probes, t, s)
    ensures forall k :: 0 <= k < |probes| ==> probes[k].end - probes[k].start == s - 1
    ensures forall k :: 0 <= k < |probes| ==> s >= 1 ==> t < probes[k].start
    ensures forall k :: 0 <= k < |probes| - 1 ==> probes[k + 1].start == probes[k].end + 1
    ensures forall k, x :: 0 <= k < |probes| && probes[k].Contains(x) ==> t < x
    decreases |probes|
  {
    if |probes| > 1 {
      var init := probes[..|probes| - 1];
      assert forall k :: 0 <= k < |init| ==> init[k] == probes[k];
      assert NextProbes(init, t, s);
      NextProbesAfter(init, t, s);
      var k := |probes| - 2;
      assert probes[k + 1] == TimeRange(probes[k].start + s, probes[k].end + s);
    }
  }

  class DbPointRecord {
    const adapter: Adapter
    /** The memory tier (`DB_PR_SUPER`): points per identifier. */
    var buffer: Buffer
    /** Identifiers registered with the memory tier, with their units. */
    var localUnits: map<string, Units>
    /** `_last_request`. */
    var lastRequest: Request
    /** `_readOnly`, the caller's setting. */
    var readOnlyFlag: bool
    /** `_filterType`, what `opcFilterType()` reports. */
    var filterType: FilterType
    /** The type whose function `_opcFilter` holds. */
    var activeFilter: FilterType
    /** `_opcFilterCodes`. */
    var filterCodes: set<Quality>
    var iterativeSearchMaxIterations: int
    var iterativeSearchStride: int

    ghost predicate Valid()
      reads this`buffer, this`activeFilter, adapter`store
    {
      Consistent(buffer) && adapter.Valid() && activeFilter != NoFilter
    }

    /** `DbPointRecord()`, with the adapter a subclass would install. The
        constructor's `setOpcFilterType(OpcPassThrough)` changes the type
        from `OpcNoFilter`, so it flushes the (empty) buffer. */
    constructor (adapter: Adapter)
      requires adapter.Valid()
      ensures Valid()
      ensures this.adapter == adapter
      ensures buffer == map[] && localUnits == map[] && lastRequest == ClearedRequest
      ensures !readOnlyFlag && filterType == PassThrough && activeFilter == PassThrough && filterCodes == {}
      ensures iterativeSearchMaxIterations == DefaultSearchMaxIterations
      ensures iterativeSearchStride == DefaultSearchStride
    {
      this.adapter := adapter;
      buffer := map[];
      localUnits := map[];
      lastRequest := ClearedRequest;
      readOnlyFlag := false;
      filterType := PassThrough;
      activeFilter := PassThrough;
      filterCodes := {};
      iterativeSearchMaxIterations := DefaultSearchMaxIterations;
      iterativeSearchStride := DefaultSearchStride;
    }

    /** `readonly()`. */
    predicate Readonly()
      reads this
    {
      adapter.options.implementationReadonly || readOnlyFlag
    }

    /** `setReadonly`: an implementation-readonly adapter makes the record
        readonly whatever is asked (and the flag stores `false`); otherwise
        the record reports what was set last. */
    method SetReadonly(readOnly: bool)
      modifies this`readOnlyFlag
      ensures adapter.options.implementationReadonly ==> !readOnlyFlag && Readonly()
      ensures !adapter.options.implementationReadonly ==> readOnlyFlag == readOnly && Readonly() == readOnly
    {
      if adapter.options.implementationReadonly {
        readOnlyFlag := false;
        return;
      } else {
        readOnlyFlag := readOnly;
      }
    }

    /** The memory tier's own registration: it records the identifier and
        accepts it. */
    method RegisterLocally(name: string, units: Units) returns (ok: bool)
      modifies this`localUnits
      ensures ok && localUnits == old(localUnits)[name := units]
    {
      localUnits := localUnits[name := units];
      ok := true;
    }

    /** `registerAndGetIdentifierForSeriesWithUnits`. The registry lookup is
        `idUnitsList` (the freshness cache in front of it is not modelled);
        `existingUnits` is never reassigned, so it is always `NoUnits`. */
    method RegisterAndGetIdentifierForSeriesWithUnits(name: string, units: Units) returns (ok: bool)
      requires Valid()
      modifies this`localUnits, adapter`registry, adapter`calls
      ensures Valid()
      ensures name == "" ==>
        !ok && localUnits == old(localUnits) && adapter.registry == old(adapter.registry) && adapter.calls == old(adapter.calls)
      ensures name != "" && !adapter.connected ==>
        ok && localUnits == old(localUnits)[name := units] &&
        adapter.registry == old(adapter.registry) && adapter.calls == old(adapter.calls)
      ensures name != "" && adapter.connected ==>
        var list := old(adapter.registry);
        var m := DoesHaveIdUnits(list, name, units);
        var local := old(localUnits)[name := units];
        // readonly, registered with matching units (or units are not kept)
        && (Readonly() && m.0 && (m.1 || !adapter.options.supportsUnitsColumn) ==>
              ok && localUnits == local && adapter.registry == list &&
              adapter.calls == old(adapter.calls) + [IdUnitsListCall])
        // readonly otherwise: assign units when possible, and succeed
        && (Readonly() && !(m.0 && (m.1 || !adapter.options.supportsUnitsColumn)) && adapter.options.canAssignUnits ==>
              ok && localUnits == local &&
              adapter.registry == (if name in list then list[name := units] else list) &&
              adapter.calls == old(adapter.calls) + [IdUnitsListCall, AssignUnitsCall(name, units, name in list)])
        && (Readonly() && !(m.0 && (m.1 || !adapter.options.supportsUnitsColumn)) && !adapter.options.canAssignUnits ==>
              !ok && localUnits == old(localUnits) && adapter.registry == list &&
              adapter.calls == old(adapter.calls) + [IdUnitsListCall])
        // writable, registered with other units: the assignment's result
        && (!Readonly() && m.0 && !m.1 && adapter.options.canAssignUnits ==>
              ok && localUnits == old(localUnits) && adapter.registry == list[name := units] &&
              adapter.calls == old(adapter.calls) + [IdUnitsListCall, AssignUnitsCall(name, units, true)])
        && (!Readonly() && m.0 && !m.1 && !adapter.options.canAssignUnits ==>
              !ok && localUnits == old(localUnits) && adapter.registry == list &&
              adapter.calls == old(adapter.calls) + [IdUnitsListCall])
        // writable, not registered: insert, then register locally
        && (!Readonly() && !m.0 ==>
              ok && localUnits == local && adapter.registry == list[name := units] &&
              adapter.calls == old(adapter.calls) + [IdUnitsListCall, InsertIdentifierCall(name, units, true)])
        // writable, registered with these units
        && (!Readonly() && m.1 ==>
              ok && localUnits == local && adapter.registry == list &&
              adapter.calls == old(adapter.calls) + [IdUnitsListCall])
    {
      if |name| == 0 {
        return false;
      }
      var existingUnits := NoUnits;
      if !adapter.connected {
        ok := RegisterLocally(name, units);
        return;
      }
      var list := adapter.IdUnitsList();
      var m := DoesHaveIdUnits(list, name, units);
      var nameExists, unitsMatch := m.0, m.1;
      if Readonly() {
        if nameExists && (unitsMatch || !adapter.options.supportsUnitsColumn) {
          ok := RegisterLocally(name, units);
          return true;
        } else {
          if adapter.options.canAssignUnits && existingUnits == NoUnits {
            var _ := adapter.AssignUnitsToRecord(name, units);
            ok := RegisterLocally(name, units);
            return true;
          }
          return false;
        }
      } else {
        if nameExists && !unitsMatch {
          if existingUnits == NoUnits {
            if adapter.options.canAssignUnits {
              ok := adapter.AssignUnitsToRecord(name, units);
              return;
            }
          } else {
            // removing the old record and re-registering cannot happen
            assert false;
          }
        } else {
          var inserted := false;
          if !nameExists || !unitsMatch {
            inserted := adapter.InsertIdentifierAndUnits(name, units);
          }
          var registered := false;
          if inserted {
            registered := RegisterLocally(name, units);
          }
          if registered {
            return true;
          } else if nameExists && unitsMatch {
            ok := RegisterLocally(name, units);
            return;
          }
        }
      }
      return false;
    }

    /** `beginBulkOperation`. */
    method BeginBulkOperation()
      modifies adapter`calls
      ensures adapter.calls == old(adapter.calls) + (if adapter.connected then [BeginTransactionCall] else [])
    {
      if adapter.connected {
        adapter.BeginTransaction();
      }
    }

    /** `endBulkOperation`. */
    method EndBulkOperation()
      modifies adapter`calls
      ensures adapter.calls == old(adapter.calls) + (if adapter.connected then [EndTransactionCall] else [])
    {
      if adapter.connected {
        adapter.EndTransaction();
      }
    }

    /** `pointsWithOpcFilter`. */
    method PointsWithOpcFilter(points: seq<Point>) returns (out: seq<Point>)
      requires activeFilter != NoFilter
      ensures out == FilterAll(activeFilter, filterCodes, points)
    {
      out := [];
      for i := 0 to |points|
        invariant out == FilterAll(activeFilter, filterCodes, points[..i])
      {
        assert points[..i + 1][..i] == points[..i];
        var outPoint := FilterPoint(activeFilter, filterCodes, points[i]);
        if outPoint.isValid {
          out := out + [outPoint];
        }
      }
      assert points[..|points|] == points;
    }

    /** `pointsWithOpcFilter(adapter.selectRange(id, r))`. */
    method FetchFiltered(id: string, r: TimeRange) returns (ps: seq<Point>)
      requires adapter.Valid() && activeFilter != NoFilter
      modifies adapter`calls
      ensures ps == Fetched(adapter.store, activeFilter, filterCodes, id, r)
      ensures adapter.calls == old(adapter.calls) + [SelectRangeCall(id, r)]
    {
      var raw := adapter.SelectRange(id, r);
      ps := PointsWithOpcFilter(raw);
    }

    /** When `point` goes to the adapter: connected, nothing valid buffered
        at `t`, and the memo does not cover `t`. */
    predicate PointFetches(id: string, t: int)
      reads this, adapter
    {
      adapter.connected && !BufferedPoint(buffer, id, t).isValid && !lastRequest.Contains(id, t)
    }

    /** `point(id, t)`. */
    method PointAt(id: string, t: int) returns (p: Point)
      requires Valid()
      modifies this`buffer, this`lastRequest, adapter`calls
      ensures Valid()
      ensures p.isValid ==> p.time == t
      ensures !old(PointFetches(id, t)) ==>
        buffer == old(buffer) && lastRequest == old(lastRequest) && adapter.calls == old(adapter.calls)
      ensures (!adapter.connected || old(BufferedPoint(buffer, id, t)).isValid) ==> p == old(BufferedPoint(buffer, id, t))
      ensures adapter.connected && !old(BufferedPoint(buffer, id, t)).isValid && old(lastRequest).Contains(id, t) ==>
        p == Invalid
      ensures old(PointFetches(id, t)) ==>
        var fetched := Fetched(adapter.store, activeFilter, filterCodes, id, Window(t));
        && adapter.calls == old(adapter.calls) + [SelectRangeCall(id, Window(t))]
        && lastRequest == SpanRequest(id, fetched)
        && buffer == BufferTier.AddPoints(old(buffer), id, fetched)
        && (t in TimesOf(fetched) ==> p in fetched && p.time == t)
        && (t !in TimesOf(fetched) ==> p == old(BufferedPoint(buffer, id, t)))
    {
      p := BufferedPoint(buffer, id, t);
      assert SeriesConsistent(SeriesOf(buffer, id));
      if !adapter.connected {
        return;
      }
      if !p.isValid {
        if lastRequest.Contains(id, t) {
          return Invalid;
        }
        p := FetchAround(id, t, p);
      }
    }

    /** The adapter half of `point(id, t)`: fetch the window around `t`,
        filter it, memo its span, scan it for `t` and buffer it. */
    method FetchAround(id: string, t: int, missed: Point) returns (p: Point)
      requires Valid()
      modifies this`buffer, this`lastRequest, adapter`calls
      ensures Valid()
      ensures var fetched := Fetched(adapter.store, activeFilter, filterCodes, id, Window(t));
        && adapter.calls == old(adapter.calls) + [SelectRangeCall(id, Window(t))]
        && lastRequest == SpanRequest(id, fetched)
        && buffer == BufferTier.AddPoints(old(buffer), id, fetched)
        && (t in TimesOf(fetched) ==> p in fetched && p.time == t)
        && (t !in TimesOf(fetched) ==> p == missed)
    {
      var margin := LookupMargin;
      var start, end := t - margin, t + margin;
      var pVec := FetchFiltered(id, TimeRange(start, end));
      FetchedFacts(adapter.store, activeFilter, filterCodes, id, Window(t));
      if |pVec| > 0 {
        lastRequest := Request(id, TimeRange(pVec[0].time, pVec[|pVec| - 1].time));
      } else {
        lastRequest := Request(id, EmptyRange);
      }
      p := ScanForTime(pVec, t, missed);
      ScanAtFinds(pVec, t, missed);
      buffer := BufferTier.AddPoints(buffer, id, pVec);
    }

    /** Whether `pointsInRange(id, q)` is answered by the buffer alone. */
    predicate ServedFromBuffer(id: string, q: TimeRange)
      reads this, adapter
    {
      Served(lastRequest, buffer, adapter.connected, id, q)
    }

    /** The buffer, the memo and the adapter's call log. */
    ghost function State(): Cache
      reads this`buffer, this`lastRequest, adapter`calls
    {
      Cache(buffer, lastRequest, adapter.calls)
    }

    /** The connection, the store and the installed filter. */
    function Context(): Backing
      reads this`activeFilter, this`filterCodes, adapter`connected, adapter`store
    {
      Backing(adapter.connected, adapter.store, activeFilter, filterCodes)
    }

    /** The concatenation `pointsInRange` builds when the buffer does not
        answer the query: adapter gaps filtered, buffered part as is, in
        the order left, middle, right. */
    method GatherMerged(id: string, q: TimeRange) returns (merged: seq<Point>)
      requires adapter.Valid() && activeFilter != NoFilter
      requires Intersection(BufferedRange(buffer, id), q) != Internal
      modifies adapter`calls
      ensures merged == Assembled(buffer, adapter.store, activeFilter, filterCodes, id, q)
      ensures adapter.calls == old(adapter.calls) + RangeCalls(id, GapQueries(BufferedRange(buffer, id), q))
    {
      var intersect := Intersection(BufferedRange(buffer, id), q);
      if intersect == Left {
        merged := GatherLeft(id, q);
      } else if intersect == Right {
        merged := GatherRight(id, q);
      } else if intersect == External {
        merged := GatherExternal(id, q);
      } else {
        merged := GatherDisjoint(id, q);
      }
    }

    /** A query reaching past the start of the buffered span: the adapter's
        points before the span, then the buffered ones. */
    method GatherLeft(id: string, q: TimeRange) returns (merged: seq<Point>)
      requires adapter.Valid() && activeFilter != NoFilter
      requires Intersection(BufferedRange(buffer, id), q) == Left
      modifies adapter`calls
      ensures merged == Assembled(buffer, adapter.store, activeFilter, filterCodes, id, q)
      ensures adapter.calls == old(adapter.calls) + RangeCalls(id, GapQueries(BufferedRange(buffer, id), q))
    {
      var range := BufferedRange(buffer, id);
      var lgap := TimeRange(q.start, range.start);
      assert RangeCalls(id, GapQueries(range, q)) == [SelectRangeCall(id, lgap)];
      var middle := FetchFiltered(id, lgap);
      var right := BufferedInRange(buffer, id, TimeRange(range.start, q.end));
      merged := middle + right;
    }

    /** A query reaching past the end of the buffered span: the buffered
        points, then the adapter's after the span. */
    method GatherRight(id: string, q: TimeRange) returns (merged: seq<Point>)
      requires adapter.Valid() && activeFilter != NoFilter
      requires Intersection(BufferedRange(buffer, id), q) == Right
      modifies adapter`calls
      ensures merged == Assembled(buffer, adapter.store, activeFilter, filterCodes, id, q)
      ensures adapter.calls == old(adapter.calls) + RangeCalls(id, GapQueries(BufferedRange(buffer, id), q))
    {
      var range := BufferedRange(buffer, id);
      var rgap := TimeRange(range.end, q.end);
      assert RangeCalls(id, GapQueries(range, q)) == [SelectRangeCall(id, rgap)];
      var left := BufferedInRange(buffer, id, TimeRange(q.start, range.end));
      var middle := FetchFiltered(id, rgap);
      merged := left + middle;
    }

    /** A query reaching past both ends of the buffered span. */
    method GatherExternal(id: string, q: TimeRange) returns (merged: seq<Point>)
      requires adapter.Valid() && activeFilter != NoFilter
      requires Intersection(BufferedRange(buffer, id), q) == External
      modifies adapter`calls
      ensures merged == Assembled(buffer, adapter.store, activeFilter, filterCodes, id, q)
      ensures adapter.calls == old(adapter.calls) + RangeCalls(id, GapQueries(BufferedRange(buffer, id), q))
    {
      var range := BufferedRange(buffer, id);
      var lgap, rgap := TimeRange(q.start, range.start), TimeRange(range.end, q.end);
      assert RangeCalls(id, GapQueries(range, q)) == [SelectRangeCall(id, lgap), SelectRangeCall(id, rgap)];
      var middle := BufferedInRange(buffer, id, range);
      ghost var before := adapter.calls;
      var left := FetchFiltered(id, lgap);
      var right := FetchFiltered(id, rgap);
      merged := left + (middle + right);
      AppendTwo(before, SelectRangeCall(id, lgap), SelectRangeCall(id, rgap));
    }

    /** A query sharing no instant with the buffered span (or an empty
        buffer): everything comes from the adapter. */
    method GatherDisjoint(id: string, q: TimeRange) returns (merged: seq<Point>)
      requires adapter.Valid() && activeFilter != NoFilter
      requires Intersection(BufferedRange(buffer, id), q) == Other
      modifies adapter`calls
      ensures merged == Assembled(buffer, adapter.store, activeFilter, filterCodes, id, q)
      ensures adapter.calls == old(adapter.calls) + RangeCalls(id, GapQueries(BufferedRange(buffer, id), q))
    {
      var range := BufferedRange(buffer, id);
      assert RangeCalls(id, GapQueries(range, q)) == [SelectRangeCall(id, q)];
      merged := FetchFiltered(id, q);
    }

    /** `pointsInRange(id, q)`. */
    method PointsInRange(id: string, q: TimeRange) returns (out: seq<Point>)
      requires Valid()
      modifies this`buffer, this`lastRequest, adapter`calls
      ensures Valid()
      ensures forall i, j :: 0 <= i < j < |out| ==> out[i].time != out[j].time
      ensures forall i :: 0 <= i < |out| ==> q.Contains(out[i].time)
      ensures old(ServedFromBuffer(id, q)) ==>
        && out == BufferedInRange(old(buffer), id, q)
        && buffer == old(buffer) && lastRequest == old(lastRequest) && adapter.calls == old(adapter.calls)
      ensures !old(ServedFromBuffer(id, q)) ==>
        var merged := Assembled(old(buffer), adapter.store, activeFilter, filterCodes, id, q);
        && adapter.calls == old(adapter.calls) + RangeCalls(id, GapQueries(BufferedRange(old(buffer), id), q))
        && out == Dedup(merged, q)
        && (forall x :: x in TimesOf(out) <==> x in TimesOf(merged) && q.Contains(x))
        && buffer == BufferTier.AddPoints(old(buffer), id, out)
        && lastRequest == (if |out| > 0 then Request(id, q) else Request(id, EmptyRange))
      ensures (out, State()) == RangeQuery(old(State()), Context(), id, q)
    {
      ghost var c0, env := State(), Context();
      if ServedFromBuffer(id, q) {
        out := BufferedInRange(buffer, id, q);
        BufferedInRangeFacts(buffer, id, q);
        assert RangeQuery(c0, env, id, q) == (out, c0);
        return;
      }
      out := RefreshRange(id, q);
      ghost var merged := Assembled(c0.buffer, env.store, env.filter, env.codes, id, q);
      DedupTimes(merged, q);
      DedupDistinct(merged, q);
    }

    /** The part of `pointsInRange` that goes to the adapter: fetch the
        gaps, merge them with the buffered part, deduplicate, and remember
        the result. */
    method RefreshRange(id: string, q: TimeRange) returns (out: seq<Point>)
      requires Valid() && !ServedFromBuffer(id, q)
      modifies this`buffer, this`lastRequest, adapter`calls
      ensures Valid()
      ensures (out, State()) == RangeQuery(old(State()), Context(), id, q)
    {
      ghost var c0, env := State(), Context();
      var merged := GatherMerged(id, q);
      assert merged == Assembled(c0.buffer, env.store, env.filter, env.codes, id, q);
      out := DedupClip(merged, q);
      Remember(id, q, out);
      assert Context() == env;
      assert RangeQuery(c0, env, id, q) == (out, State());
    }

    /** The end of `pointsInRange` once the result is known: update the memo
        and write the result back to the buffer. */
    method Remember(id: string, q: TimeRange, out: seq<Point>)
      requires Valid()
      modifies this`buffer, this`lastRequest
      ensures Valid()
      ensures buffer == BufferTier.AddPoints(old(buffer), id, out)
      ensures lastRequest == (if |out| > 0 then Request(id, q) else Request(id, EmptyRange))
    {
      lastRequest := if |out| > 0 then Request(id, q) else Request(id, EmptyRange);
      buffer := BufferTier.AddPoints(buffer, id, out);
    }

    /** One probe of the iterative searches: `pointsInRange(id, r)`, with
        its answer and new state as the reference range query gives them. */
    method ProbeWindow(id: string, r: TimeRange, ghost env: Backing, ghost total: (seq<Point>, Cache, seq<TimeRange>),
                       ghost shift: int, ghost tries: int, ghost probes: seq<TimeRange>) returns (points: seq<Point>)
      requires Valid() && Context() == env && tries > 0
      requires ProbeRemains(total, State(), env, id, r, shift, tries, probes, [])
      modifies this`buffer, this`lastRequest, adapter`calls
      ensures Valid() && Context() == env
      ensures (points, State()) == RangeQuery(old(State()), env, id, r)
      ensures ProbeRemains(total, State(), env, id, TimeRange(r.start + shift, r.end + shift), shift, tries - 1,
                           probes + [r], points)
    {
      ghost var before := State();
      points := PointsInRange(id, r);
      ProbeAdvance(total, before, State(), env, id, r, shift, tries, probes, points);
    }

    /** The probing loop both iterative searches run: ask window `r`, then
        the window shifted by `shift`, until one answers or `tries` windows
        were asked. `probes` are the windows handed to `pointsInRange`. */
    method ProbeWindows(id: string, first: TimeRange, shift: int, tries: int)
      returns (points: seq<Point>, ghost probes: seq<TimeRange>)
      requires Valid()
      modifies this`buffer, this`lastRequest, adapter`calls
      ensures Valid() && Context() == old(Context())
      ensures (points, State(), probes) == Probe(old(State()), Context(), id, first, shift, tries)
    {
      ghost var env := Context();
      var limit, r := tries, first;
      points, probes := [], [];
      ghost var total := Probe(State(), env, id, r, shift, limit);
      ProbeBegin(State(), env, id, r, shift, limit);
      while |points| == 0 && limit > 0
        invariant Valid() && Context() == env
        invariant ProbeRemains(total, State(), env, id, r, shift, limit, probes, points)
        decreases limit
      {
        points := ProbeWindow(id, r, env, total, shift, limit, probes);
        probes := probes + [r];
        r := TimeRange(r.start + shift, r.end + shift);
        limit := limit - 1;
      }
      ProbeDone(total, State(), env, id, r, shift, limit, probes, points);
    }

    /** `searchPreviousIteratively(id, t)`: probes `[t-s, t-1]` and the
        windows before it, and returns the last point of the first window
        that answered. */
    method SearchPreviousIteratively(id: string, t: int) returns (p: Point, ghost probes: seq<TimeRange>)
      requires Valid()
      modifies this`buffer, this`lastRequest, adapter`calls
      ensures Valid()
      ensures !adapter.connected ==> p == Invalid && probes == [] && State() == old(State())
      ensures adapter.connected ==>
        var res := PreviousSearch(old(State()), Context(), id, t, iterativeSearchStride, iterativeSearchMaxIterations);
        State() == res.1 && probes == res.2 && p == LastOf(res.0)
      ensures |probes| <= (if iterativeSearchMaxIterations > 0 then iterativeSearchMaxIterations else 0)
      ensures PreviousProbes(probes, t, iterativeSearchStride)
      ensures p == Invalid || (p.time < t && probes != [] && probes[|probes| - 1].Contains(p.time))
    {
      probes := [];
      if !adapter.connected {
        return Invalid, probes;
      }
      ghost var c0 := State();
      var points;
      points, probes := ProbeWindows(id, TimeRange(t - iterativeSearchStride, t - 1), -iterativeSearchStride,
                                     iterativeSearchMaxIterations);
      ghost var res := PreviousSearch(c0, Context(), id, t, iterativeSearchStride, iterativeSearchMaxIterations);
      assert res == (points, State(), probes);
      PreviousSearchBefore(c0, Context(), id, t, iterativeSearchStride, iterativeSearchMaxIterations);
      p := LastOf(points);
    }

    /** `searchNextIteratively(id, t)`: probes `[t+1, t+s]` and the windows
        after it, and returns the first point of the first window that
        answered. */
    method SearchNextIteratively(id: string, t: int) returns (p: Point, ghost probes: seq<TimeRange>)
      requires Valid()
      modifies this`buffer, this`lastRequest, adapter`calls
      ensures Valid()
      ensures !adapter.connected ==> p == Invalid && probes == [] && State() == old(State())
      ensures adapter.connected ==>
        var res := NextSearch(old(State()), Context(), id, t, iterativeSearchStride, iterativeSearchMaxIterations);
        State() == res.1 && probes == res.2 && p == FirstOf(res.0)
      ensures |probes| <= (if iterativeSearchMaxIterations > 0 then iterativeSearchMaxIterations else 0)
      ensures NextProbes(probes, t, iterativeSearchStride)
      ensures p == Invalid || (t < p.time && probes != [] && probes[|probes| - 1].Contains(p.time))
    {
      probes := [];
      if !adapter.connected {
        return Invalid, probes;
      }
      ghost var c0 := State();
      var points;
      points, probes := ProbeWindows(id, TimeRange(t + 1, t + iterativeSearchStride), iterativeSearchStride,
                                     iterativeSearchMaxIterations);
      ghost var res := NextSearch(c0, Context(), id, t, iterativeSearchStride, iterativeSearchMaxIterations);
      assert res == (points, State(), probes);
      NextSearchAfter(c0, Context(), id, t, iterativeSearchStride, iterativeSearchMaxIterations);
      p := FirstOf(points);
    }

    /** When `pointBefore`/`pointAfter` go past the buffer and the memo. */
    predicate NeighbourSearches(buffered: Point, id: string, probe: int)
      reads this, adapter
    {
      !buffered.isValid && !lastRequest.Contains(id, probe) && adapter.connected
    }

    /** `pointBefore(id, t)`. */
    method PointBefore(id: string, t: int) returns (p: Point)
      requires Valid()
      modifies this`buffer, this`lastRequest, adapter`calls
      ensures Valid()
      ensures p.isValid ==> p.time < t
      ensures var b := old(BufferedBefore(buffer, id, t));
        !old(NeighbourSearches(b, id, t - 1)) ==>
          && buffer == old(buffer) && lastRequest == old(lastRequest) && adapter.calls == old(adapter.calls)
          && p == (if !b.isValid && old(lastRequest).Contains(id, t - 1) then Invalid else b)
      ensures var b := old(BufferedBefore(buffer, id, t));
        old(NeighbourSearches(b, id, t - 1)) && !adapter.options.searchIteratively ==>
          var sp := BufferedBefore(adapter.store, id, t);
          && buffer == old(buffer) && lastRequest == old(lastRequest)
          && (adapter.options.supportsSinglyBoundQuery ==>
                adapter.calls == old(adapter.calls) + [SelectPreviousCall(id, t)] &&
                p == (if sp.isValid then FilterPoint(activeFilter, filterCodes, sp) else sp))
          && (!adapter.options.supportsSinglyBoundQuery ==> adapter.calls == old(adapter.calls) && p == b)
      ensures var b := old(BufferedBefore(buffer, id, t));
        old(NeighbourSearches(b, id, t - 1)) && adapter.options.searchIteratively ==>
          var res := PreviousSearch(old(State()), Context(), id, t, iterativeSearchStride, iterativeSearchMaxIterations);
          var found := LastOf(res.0);
          var sp := BufferedBefore(adapter.store, id, t);
          && buffer == res.1.buffer && lastRequest == res.1.lastRequest
          && (found.isValid ==> adapter.calls == res.1.calls && p == FilterPoint(activeFilter, filterCodes, found))
          && (!found.isValid && adapter.options.supportsSinglyBoundQuery ==>
                adapter.calls == res.1.calls + [SelectPreviousCall(id, t)] &&
                p == (if sp.isValid then FilterPoint(activeFilter, filterCodes, sp) else sp))
          && (!found.isValid && !adapter.options.supportsSinglyBoundQuery ==> adapter.calls == res.1.calls && p == found)
    {
      p := BufferedBefore(buffer, id, t);
      BufferedBeforeIsBefore(buffer, id, t);
      if p.isValid {
        return;
      }
      if lastRequest.Contains(id, t - 1) {
        return Invalid;
      }
      if !adapter.connected {
        return;
      }
      if adapter.options.searchIteratively {
        var found;
        ghost var probes;
        found, probes := SearchPreviousIteratively(id, t);
        p := found;
        if p.isValid {
          return FilterPoint(activeFilter, filterCodes, p);
        }
      }
      if adapter.options.supportsSinglyBoundQuery {
        p := adapter.SelectPrevious(id, t);
      }
      if p.isValid {
        return FilterPoint(activeFilter, filterCodes, p);
      }
    }

    /** `pointAfter(id, t)`. */
    method PointAfter(id: string, t: int) returns (p: Point)
      requires Valid()
      modifies this`buffer, this`lastRequest, adapter`calls
      ensures Valid()
      ensures p.isValid ==> t < p.time
      ensures var b := old(BufferedAfter(buffer, id, t));
        !old(NeighbourSearches(b, id, t + 1)) ==>
          && buffer == old(buffer) && lastRequest == old(lastRequest) && adapter.calls == old(adapter.calls)
          && p == (if !b.isValid && old(lastRequest).Contains(id, t + 1) then Invalid else b)
      ensures var b := old(BufferedAfter(buffer, id, t));
        old(NeighbourSearches(b, id, t + 1)) && !adapter.options.searchIteratively ==>
          var sp := BufferedAfter(adapter.store, id, t);
          && buffer == old(buffer) && lastRequest == old(lastRequest)
          && (adapter.options.supportsSinglyBoundQuery ==>
                adapter.calls == old(adapter.calls) + [SelectNextCall(id, t)] &&
                p == (if sp.isValid then FilterPoint(activeFilter, filterCodes, sp) else sp))
          && (!adapter.options.supportsSinglyBoundQuery ==> adapter.calls == old(adapter.calls) && p == b)
      ensures var b := old(BufferedAfter(buffer, id, t));
        old(NeighbourSearches(b, id, t + 1)) && adapter.options.searchIteratively ==>
          var res := NextSearch(old(State()), Context(), id, t, iterativeSearchStride, iterativeSearchMaxIterations);
          var found := FirstOf(res.0);
          var sp := BufferedAfter(adapter.store, id, t);
          && buffer == res.1.buffer && lastRequest == res.1.lastRequest
          && (found.isValid ==> adapter.calls == res.1.calls && p == FilterPoint(activeFilter, filterCodes, found))
          && (!found.isValid && adapter.options.supportsSinglyBoundQuery ==>
                adapter.calls == res.1.calls + [SelectNextCall(id, t)] &&
                p == (if sp.isValid then FilterPoint(activeFilter, filterCodes, sp) else sp))
          && (!found.isValid && !adapter.options.supportsSinglyBoundQuery ==> adapter.calls == res.1.calls && p == found)
    {
      p := BufferedAfter(buffer, id, t);
      BufferedAfterIsAfter(buffer, id, t);
      if p.isValid {
        return;
      }
      if lastRequest.Contains(id, t + 1) {
        return Invalid;
      }
      if !adapter.connected {
        return;
      }
      if adapter.options.searchIteratively {
        var found;
        ghost var probes;
        found, probes := SearchNextIteratively(id, t);
        p := found;
      }
      if p.isValid {
        return FilterPoint(activeFilter, filterCodes, p);
      }
      if adapter.options.supportsSinglyBoundQuery {
        p := adapter.SelectNext(id, t);
      }
      if p.isValid {
        return FilterPoint(activeFilter, filterCodes, p);
      }
    }

    /** Whether writes, reset and invalidate take effect. */
    predicate Writable()
      reads this, adapter
    {
      !Readonly() && adapter.connected
    }

    /** `addPoint(id, point)`: into the buffer and the store, or nowhere. */
    method AddPoint(id: string, point: Point)
      requires Valid()
      modifies this`buffer, adapter`store, adapter`calls
      ensures Valid()
      ensures !old(Writable()) ==>
        buffer == old(buffer) && adapter.store == old(adapter.store) && adapter.calls == old(adapter.calls)
      ensures old(Writable()) ==>
        && buffer == BufferTier.AddPoints(old(buffer), id, [point])
        && adapter.store == BufferTier.AddPoints(old(adapter.store), id, [point])
        && adapter.calls == old(adapter.calls) + [InsertSingleCall(id, point)]
    {
      if !Readonly() && adapter.connected {
        buffer := BufferTier.AddPoints(buffer, id, [point]);
        adapter.InsertSingle(id, point);
      }
    }

    /** `addPoints(id, points)`. */
    method AddPoints(id: string, points: seq<Point>)
      requires Valid()
      modifies this`buffer, adapter`store, adapter`calls
      ensures Valid()
      ensures !old(Writable()) ==>
        buffer == old(buffer) && adapter.store == old(adapter.store) && adapter.calls == old(adapter.calls)
      ensures old(Writable()) ==>
        && buffer == BufferTier.AddPoints(old(buffer), id, points)
        && adapter.store == BufferTier.AddPoints(old(adapter.store), id, points)
        && adapter.calls == old(adapter.calls) + [InsertRangeCall(id, points)]
    {
      if !Readonly() && adapter.connected {
        buffer := BufferTier.AddPoints(buffer, id, points);
        adapter.InsertRange(id, points);
      }
    }

    /** `reset()`: flushes the buffer (the memo is kept). */
    method Reset()
      requires Valid()
      modifies this`buffer
      ensures Valid()
      ensures buffer == if old(Writable()) then map[] else old(buffer)
    {
      if !Readonly() && adapter.connected {
        buffer := map[];
      }
    }

    /** `reset(id)`: forgets the identifier's buffered points and clears the
        memo. */
    method ResetIdentifier(id: string)
      requires Valid()
      modifies this`buffer, this`lastRequest
      ensures Valid()
      ensures old(Writable()) ==> buffer == old(buffer) - {id} && lastRequest == ClearedRequest
      ensures !old(Writable()) ==> buffer == old(buffer) && lastRequest == old(lastRequest)
    {
      if !Readonly() && adapter.connected {
        buffer := buffer - {id};
        lastRequest := ClearedRequest;
      }
    }

    /** `invalidate(id)`: one `removeRecord`, then `reset(id)`. */
    method Invalidate(id: string)
      requires Valid()
      modifies this`buffer, this`lastRequest, adapter`store, adapter`registry, adapter`calls
      ensures Valid()
      ensures old(Writable()) ==>
        && adapter.calls == old(adapter.calls) + [RemoveRecordCall(id)]
        && adapter.store == old(adapter.store) - {id} && adapter.registry == old(adapter.registry) - {id}
        && buffer == old(buffer) - {id} && lastRequest == ClearedRequest
      ensures !old(Writable()) ==>
        && adapter.calls == old(adapter.calls) && adapter.store == old(adapter.store)
        && adapter.registry == old(adapter.registry)
        && buffer == old(buffer) && lastRequest == old(lastRequest)
    {
      if !Readonly() && adapter.connected {
        adapter.RemoveRecord(id);
        ResetIdentifier(id);
      }
    }

    /** `setOpcFilterType(ft)`. A new type flushes the buffer and is stored;
        its function is then looked up, and `OpcNoFilter` has none, so the
        look-up throws (`thrown`) and the previous function stays installed. */
    method SetOpcFilterType(ft: FilterType) returns (thrown: bool)
      requires Valid()
      modifies this`buffer, this`filterType, this`activeFilter
      ensures Valid()
      ensures thrown <==> old(filterType) != ft && ft == NoFilter
      ensures filterType == ft
      ensures buffer == if old(filterType) != ft then map[] else old(buffer)
      ensures activeFilter == if old(filterType) != ft && ft != NoFilter then ft else old(activeFilter)
    {
      thrown := false;
      if filterType != ft {
        buffer := map[];
        filterType := ft;
        if ft == NoFilter {
          thrown := true;
        } else {
          activeFilter := ft;
        }
      }
    }

    /** `clearOpcFilterList()`: always flushes the buffer. */
    method ClearOpcFilterList()
      requires Valid()
      modifies this`buffer, this`filterCodes
      ensures Valid()
      ensures filterCodes == {} && buffer == map[]
    {
      filterCodes := {};
      buffer := map[];
    }

    /** `addOpcFilterCode(code)`: always flushes the buffer. */
    method AddOpcFilterCode(code: Quality)
      requires Valid()
      modifies this`buffer, this`filterCodes
      ensures Valid()
      ensures filterCodes == old(filterCodes) + {code} && buffer == map[]
    {
      filterCodes := filterCodes + {code};
      buffer := map[];
    }

    /** `removeOpcFilterCode(code)`: flushes only when the code was listed. */
    method RemoveOpcFilterCode(code: Quality)
      requires Valid()
      modifies this`buffer, this`filterCodes
      ensures Valid()
      ensures filterCodes == old(filterCodes) - {code}
      ensures buffer == if code in old(filterCodes) then map[] else old(buffer)
    {
      if code in filterCodes {
        filterCodes := filterCodes - {code};
        buffer := map[];
      }
    }
  }

  /** Asking the same range twice: when the first answer has points (or the
      buffer answered it), the second is served from the buffer and adds no
      adapter call. */
  method RepeatedRangeQuery(rec: DbPointRecord, id: string, q: TimeRange) returns (first: seq<Point>, second: seq<Point>)
    requires rec.Valid()
    modifies rec`buffer, rec`lastRequest, rec.adapter`calls
    ensures rec.Valid()
    ensures first != [] || old(rec.ServedFromBuffer(id, q)) ==>
      && second == BufferedInRange(rec.buffer, id, q)
      && rec.adapter.calls == old(rec.adapter.calls) +
           (if old(rec.ServedFromBuffer(id, q)) then [] else RangeCalls(id, GapQueries(old(BufferedRange(rec.buffer, id)), q)))
  {
    ghost var served := rec.ServedFromBuffer(id, q);
    first := rec.PointsInRange(id, q);
    if first != [] && !served {
      assert rec.lastRequest == Request(id, q);
    }
    second := rec.PointsInRange(id, q);
  }

  /** A `point` miss whose window holds no point memoizes the empty range,
      which does not cover `t` (unless `t` is 0): asking for the same time
      again goes to the adapter a second time. */
  method PointTwiceAfterEmptyWindow(rec: DbPointRecord, id: string, t: int) returns (first: Point, second: Point)
    requires rec.Valid() && rec.PointFetches(id, t) && t != 0
    requires Fetched(rec.adapter.store, rec.activeFilter, rec.filterCodes, id, Window(t)) == []
    modifies rec`buffer, rec`lastRequest, rec.adapter`calls
    ensures rec.Valid()
    ensures !first.isValid && !second.isValid
    ensures rec.lastRequest == Request(id, EmptyRange)
    ensures rec.adapter.calls == old(rec.adapter.calls) + [SelectRangeCall(id, Window(t)), SelectRangeCall(id, Window(t))]
  {
    first := rec.PointAt(id, t);
    assert BufferedPoint(rec.buffer, id, t) == old(BufferedPoint(rec.buffer, id, t));
    second := rec.PointAt(id, t);
  }

  /** After `invalidate(id)` on a writable, connected record nothing is known
      about `id`: a range query returns no points. */
  method InvalidateThenQuery(rec: DbPointRecord, id: string, q: TimeRange) returns (out: seq<Point>)
    requires rec.Valid() && rec.Writable()
    modifies rec`buffer, rec`lastRequest, rec.adapter`store, rec.adapter`registry, rec.adapter`calls
    ensures rec.Valid()
    ensures out == []
  {
    rec.Invalidate(id);
    var b, store := rec.buffer, rec.adapter.store;
    assert id !in b && id !in store;
    var range := BufferedRange(b, id);
    BufferedInRangeAbsent(b, id, q);
    BufferedInRangeAbsent(b, id, TimeRange(range.start, q.end));
    BufferedInRangeAbsent(b, id, TimeRange(q.start, range.end));
    BufferedInRangeAbsent(b, id, range);
    BufferedInRangeAbsent(store, id, TimeRange(q.start, range.start));
    BufferedInRangeAbsent(store, id, TimeRange(range.end, q.end));
    BufferedInRangeAbsent(store, id, q);
    out := rec.PointsInRange(id, q);
  }

  /** After `reset(id)` on a writable record the memo is cleared and the
      identifier's series dropped, so the memo covers no point of a named
      identifier: the next `point(id, t)` goes to the adapter for the window
      around `t`, and answers with what that window holds at `t`. */
  method ResetThenPoint(rec: DbPointRecord, id: string, t: int) returns (p: Point)
    requires rec.Valid() && rec.Writable() && id != ""
    modifies rec`buffer, rec`lastRequest, rec.adapter`calls
    ensures rec.Valid()
    ensures var fetched := Fetched(rec.adapter.store, rec.activeFilter, rec.filterCodes, id, Window(t));
      && rec.adapter.calls == old(rec.adapter.calls) + [SelectRangeCall(id, Window(t))]
      && rec.lastRequest == SpanRequest(id, fetched)
      && rec.buffer == BufferTier.AddPoints(old(rec.buffer) - {id}, id, fetched)
      && (t in TimesOf(fetched) ==> p in fetched && p.time == t)
      && (t !in TimesOf(fetched) ==> p == Invalid)
  {
    rec.ResetIdentifier(id);
    assert !rec.lastRequest.Contains(id, t);
    assert SeriesOf(rec.buffer, id) == map[];
    p := rec.PointAt(id, t);
  }
}
