/** The in-memory buffer tier (the superclass `BufferPointRecord` of the
    orchestrator). Its implementation is not part of this model; these
    functions are the contract the orchestrator relies on: per identifier a
    map from timestamp to point, read strictly from memory. */
module BufferTier {
  import opened Points
  import IntSets

  type Series = map<int, Point>
  type Buffer = map<string, Series>

  /** Every point is filed under its own timestamp. */
  ghost predicate SeriesConsistent(s: Series) {
    forall t :: t in s ==> s[t].time == t
  }

  ghost predicate Consistent(b: Buffer) {
    forall id :: id in b ==> SeriesConsistent(b[id])
  }

  function SeriesOf(b: Buffer, id: string): Series {
    if id in b then b[id] else map[]
  }

  /** `point(id, t)`: the point buffered at exactly `t`, else `Point()`. */
  function BufferedPoint(b: Buffer, id: string, t: int): (p: Point)
    ensures t in SeriesOf(b, id) ==> p == SeriesOf(b, id)[t]
    ensures t !in SeriesOf(b, id) ==> p == Invalid
  {
    var s := SeriesOf(b, id);
    if t in s then s[t] else Invalid
  }

  /** The buffered timestamps of `s` that lie in `r`, ascending. */
  function KeysIn(s: Series, r: TimeRange): (ks: seq<int>)
    ensures IntSets.StrictlyIncreasing(ks)
    ensures forall k :: k in ks <==> k in s && r.Contains(k)
  {
    IntSets.Sorted(set k | k in s.Keys && r.Contains(k))
  }

  /** `pointsInRange(id, r)` of the buffer: the buffered points whose time
      lies in `r`, in ascending time order. */
  function BufferedInRange(b: Buffer, id: string, r: TimeRange): (ps: seq<Point>)
  {
    var s := SeriesOf(b, id);
    var ks := KeysIn(s, r);
    seq(|ks|, i requires 0 <= i < |ks| => s[ks[i]])
  }

  /** What the buffer returns for a range: ascending, distinct, inside the
      range, and exactly the buffered points of that range. */
  lemma BufferedInRangeFacts(b: Buffer, id: string, r: TimeRange)
    requires Consistent(b)
    ensures var ps := BufferedInRange(b, id, r);
      && Ascending(ps)
      && (forall i :: 0 <= i < |ps| ==> r.Contains(ps[i].time))
      && (forall t :: t in SeriesOf(b, id) && r.Contains(t) <==> t in TimesOf(ps))
      && (forall i :: 0 <= i < |ps| ==> ps[i] == SeriesOf(b, id)[ps[i].time])
  {
    var s := SeriesOf(b, id);
    var ks := KeysIn(s, r);
    var ps := BufferedInRange(b, id, r);
    assert SeriesConsistent(s);
    assert forall i :: 0 <= i < |ps| ==> ps[i].time == ks[i];
    forall t | t in s && r.Contains(t)
      ensures t in TimesOf(ps)
    {
      var i :| 0 <= i < |ks| && ks[i] == t;
      assert ps[i].time == t;
    }
  }

  lemma BufferedInRangeAbsent(b: Buffer, id: string, r: TimeRange)
    requires id !in b
    ensures BufferedInRange(b, id, r) == []
  {
    assert KeysIn(SeriesOf(b, id), r) == [];
  }

  /** `range(id)`: from the earliest to the latest buffered time, or the
      empty range when nothing is buffered for `id`. */
  function BufferedRange(b: Buffer, id: string): (r: TimeRange)
    ensures SeriesOf(b, id) == map[] ==> r == EmptyRange
    ensures SeriesOf(b, id) != map[] ==>
      r.start in SeriesOf(b, id) && r.end in SeriesOf(b, id) &&
      forall t :: t in SeriesOf(b, id) ==> r.Contains(t)
  {
    var s := SeriesOf(b, id);
    if s == map[] then EmptyRange
    else
      assert s.Keys != {} by {
        if s.Keys == {} {
          assert false;
        }
      }
      TimeRange(IntSets.Min(s.Keys), IntSets.Max(s.Keys))
  }

  /** `pointBefore(id, t)` of the buffer. */
  function BufferedBefore(b: Buffer, id: string, t: int): Point {
    var s := SeriesOf(b, id);
    match LastBelow(s.Keys, t)
    case Some(k) => s[k]
    case None => Invalid
  }

  /** `pointAfter(id, t)` of the buffer. */
  function BufferedAfter(b: Buffer, id: string, t: int): Point {
    var s := SeriesOf(b, id);
    match FirstAbove(s.Keys, t)
    case Some(k) => s[k]
    case None => Invalid
  }

  /** A point the buffer returns as "before `t`" is buffered under a time
      before `t`, or it is the sentinel. */
  lemma BufferedBeforeIsBefore(b: Buffer, id: string, t: int)
    requires Consistent(b)
    ensures var p := BufferedBefore(b, id, t);
      p == Invalid || (p.time < t && p.time in SeriesOf(b, id))
  {
    assert SeriesConsistent(SeriesOf(b, id));
  }

  lemma BufferedAfterIsAfter(b: Buffer, id: string, t: int)
    requires Consistent(b)
    ensures var p := BufferedAfter(b, id, t);
      p == Invalid || (t < p.time && p.time in SeriesOf(b, id))
  {
    assert SeriesConsistent(SeriesOf(b, id));
  }

  /** Upsert by time: each point is filed under its time, and keys the
      points do not mention keep their entries. */
  function Upsert(s: Series, ps: seq<Point>): (r: Series)
    ensures r.Keys == s.Keys + TimesOf(ps)
    ensures forall k :: k in s && k !in TimesOf(ps) ==> r[k] == s[k]
    ensures SeriesConsistent(s) ==> SeriesConsistent(r)
    decreases |ps|
  {
    if ps == [] then s
    else
      var p := ps[0];
      TimesOfCons(ps);
      Upsert(s[p.time := p], ps[1..])
  }

  /** A point with no later point of the same time is what the upsert
      leaves under that time: later points win. */
  lemma {:induction false} UpsertLastWins(s: Series, ps: seq<Point>)
    ensures forall i :: 0 <= i < |ps| && ps[i].time !in TimesOf(ps[i + 1..]) ==> Upsert(s, ps)[ps[i].time] == ps[i]
    decreases |ps|
  {
    if ps != [] {
      var p := ps[0];
      var tail := ps[1..];
      UpsertLastWins(s[p.time := p], tail);
      assert Upsert(s, ps) == Upsert(s[p.time := p], tail);
      forall i | 0 <= i < |ps| && ps[i].time !in TimesOf(ps[i + 1..])
        ensures Upsert(s, ps)[ps[i].time] == ps[i]
      {
        if i > 0 {
          assert ps[i + 1..] == tail[i..];
          assert ps[i] == tail[i - 1];
        } else {
          assert tail == ps[i + 1..];
        }
      }
    }
  }

  /** `addPoints(id, ps)` of the buffer. */
  function AddPoints(b: Buffer, id: string, ps: seq<Point>): (b': Buffer)
    ensures b'.Keys == b.Keys + {id}
    ensures forall other :: other in b && other != id ==> b'[other] == b[other]
    ensures b'[id] == Upsert(SeriesOf(b, id), ps)
    ensures Consistent(b) ==> Consistent(b')
  {
    b[id := Upsert(SeriesOf(b, id), ps)]
  }

  /** Points with distinct times are all found afterwards under their times. */
  lemma AddPointsStoresAll(b: Buffer, id: string, ps: seq<Point>)
    requires forall i, j :: 0 <= i < j < |ps| ==> ps[i].time != ps[j].time
    ensures forall i :: 0 <= i < |ps| ==> BufferedPoint(AddPoints(b, id, ps), id, ps[i].time) == ps[i]
  {
    UpsertLastWins(SeriesOf(b, id), ps);
    forall i | 0 <= i < |ps|
      ensures ps[i].time !in TimesOf(ps[i + 1..])
    {
      var tail := ps[i + 1..];
      assert forall k :: 0 <= k < |tail| ==> tail[k] == ps[i + 1 + k];
    }
  }
}
