/** The backing-store adapter the point record talks to (`DbAdapter`). Its
    implementation is not part of this model; this class fixes the behaviour
    the record relies on. The store keeps, per identifier, one point per
    timestamp (the shape of a table keyed by identifier and time), and every
    call is appended to a ghost log so that "no adapter call" and "exactly
    these calls" can be stated. */
module DbAdapter {
  import opened Points
  import opened BufferTier

  /** `DbAdapter::adapterOptions`. */
  datatype AdapterOptions = AdapterOptions(
    implementationReadonly: bool,
    supportsUnitsColumn: bool,
    canAssignUnits: bool,
    supportsSinglyBoundQuery: bool,
    searchIteratively: bool)

  /** One adapter call, as recorded in the log. Calls whose result is a
      success flag record it. */
  datatype Call =
    | SelectRangeCall(id: string, range: TimeRange)
    | SelectPreviousCall(id: string, time: int)
    | SelectNextCall(id: string, time: int)
    | InsertSingleCall(id: string, point: Point)
    | InsertRangeCall(id: string, points: seq<Point>)
    | RemoveRecordCall(id: string)
    | IdUnitsListCall
    | AssignUnitsCall(id: string, units: Units, ok: bool)
    | InsertIdentifierCall(id: string, units: Units, ok: bool)
    | BeginTransactionCall
    | EndTransactionCall

  class Adapter {
    const options: AdapterOptions
    var connected: bool
    /** Stored points per identifier. */
    var store: Buffer
    /** Registered identifiers and their units (`idUnitsList`). */
    var registry: map<string, Units>
    ghost var calls: seq<Call>

    ghost predicate Valid()
      reads this`store
    {
      Consistent(store)
    }

    constructor (options: AdapterOptions, connected: bool, store: Buffer, registry: map<string, Units>)
      requires Consistent(store)
      ensures Valid()
      ensures this.options == options && this.connected == connected
      ensures this.store == store && this.registry == registry && calls == []
    {
      this.options := options;
      this.connected := connected;
      this.store := store;
      this.registry := registry;
      calls := [];
    }

    /** `selectRange(id, range)`: the stored points of `id` inside `range`,
        ascending by time. */
    method SelectRange(id: string, range: TimeRange) returns (ps: seq<Point>)
      requires Valid()
      modifies this`calls
      ensures ps == BufferedInRange(store, id, range)
      ensures Ascending(ps) && forall i :: 0 <= i < |ps| ==> range.Contains(ps[i].time)
      ensures calls == old(calls) + [SelectRangeCall(id, range)]
    {
      calls := calls + [SelectRangeCall(id, range)];
      ps := BufferedInRange(store, id, range);
      BufferedInRangeFacts(store, id, range);
    }

    /** `selectPrevious(id, t)`: the latest stored point strictly before `t`,
        or `Point()`. */
    method SelectPrevious(id: string, t: int) returns (p: Point)
      requires Valid()
      modifies this`calls
      ensures p == BufferedBefore(store, id, t)
      ensures p == Invalid || p.time < t
      ensures calls == old(calls) + [SelectPreviousCall(id, t)]
    {
      calls := calls + [SelectPreviousCall(id, t)];
      p := BufferedBefore(store, id, t);
      BufferedBeforeIsBefore(store, id, t);
    }

    /** `selectNext(id, t)`: the earliest stored point strictly after `t`, or
        `Point()`. */
    method SelectNext(id: string, t: int) returns (p: Point)
      requires Valid()
      modifies this`calls
      ensures p == BufferedAfter(store, id, t)
      ensures p == Invalid || t < p.time
      ensures calls == old(calls) + [SelectNextCall(id, t)]
    {
      calls := calls + [SelectNextCall(id, t)];
      p := BufferedAfter(store, id, t);
      BufferedAfterIsAfter(store, id, t);
    }

    /** `insertSingle(id, point)`: upsert by time. */
    method InsertSingle(id: string, point: Point)
      requires Valid()
      modifies this`store, this`calls
      ensures Valid()
      ensures store == AddPoints(old(store), id, [point])
      ensures calls == old(calls) + [InsertSingleCall(id, point)]
    {
      store := AddPoints(store, id, [point]);
      calls := calls + [InsertSingleCall(id, point)];
    }

    /** `insertRange(id, points)`: upsert by time, later points winning. */
    method InsertRange(id: string, points: seq<Point>)
      requires Valid()
      modifies this`store, this`calls
      ensures Valid()
      ensures store == AddPoints(old(store), id, points)
      ensures calls == old(calls) + [InsertRangeCall(id, points)]
    {
      store := AddPoints(store, id, points);
      calls := calls + [InsertRangeCall(id, points)];
    }

    /** `removeRecord(id)`: drops the identifier's points and registration. */
    method RemoveRecord(id: string)
      requires Valid()
      modifies this`store, this`registry, this`calls
      ensures Valid()
      ensures store == old(store) - {id} && registry == old(registry) - {id}
      ensures calls == old(calls) + [RemoveRecordCall(id)]
    {
      store := store - {id};
      registry := registry - {id};
      calls := calls + [RemoveRecordCall(id)];
    }

    /** `idUnitsList()`: the registered identifiers with their units. */
    method IdUnitsList() returns (list: map<string, Units>)
      modifies this`calls
      ensures list == registry
      ensures calls == old(calls) + [IdUnitsListCall]
    {
      list := registry;
      calls := calls + [IdUnitsListCall];
    }

    /** `assignUnitsToRecord(id, units)`: succeeds for a registered
        identifier, whose units it then replaces. */
    method AssignUnitsToRecord(id: string, units: Units) returns (ok: bool)
      modifies this`registry, this`calls
      ensures ok <==> id in old(registry)
      ensures registry == if ok then old(registry)[id := units] else old(registry)
      ensures calls == old(calls) + [AssignUnitsCall(id, units, ok)]
    {
      ok := id in registry;
      if ok {
        registry := registry[id := units];
      }
      calls := calls + [AssignUnitsCall(id, units, ok)];
    }

    /** `insertIdentifierAndUnits(id, units)`: registers a new identifier and
        leaves an existing one as it is; it reports success either way. */
    method InsertIdentifierAndUnits(id: string, units: Units) returns (ok: bool)
      modifies this`registry, this`calls
      ensures ok
      ensures registry == if id in old(registry) then old(registry) else old(registry)[id := units]
      ensures calls == old(calls) + [InsertIdentifierCall(id, units, ok)]
    {
      ok := true;
      if id !in registry {
        registry := registry[id := units];
      }
      calls := calls + [InsertIdentifierCall(id, units, ok)];
    }

    method BeginTransaction()
      modifies this`calls
      ensures calls == old(calls) + [BeginTransactionCall]
    {
      calls := calls + [BeginTransactionCall];
    }

    method EndTransaction()
      modifies this`calls
      ensures calls == old(calls) + [EndTransactionCall]
    {
      calls := calls + [EndTransactionCall];
    }
  }
}
