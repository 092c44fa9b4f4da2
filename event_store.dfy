/** The event store: Save appends an aggregate's pending events to its table with consecutive
    versions after the highest stored one; Load reads an aggregate's records in version order,
    decodes them through the registry and rebuilds the aggregate with the replay constructor. */
module Store {
  import opened Events
  import opened Results
  import opened Aggregates
  import opened Registry

  /** One stored event; the record shape of the event tables. */
  datatype EventSourcedRecord = EventSourcedRecord(
    Id: int, AggregateId: string, Timestamp: int, AggregateVersion: int, EventType: string, EventData: string)

  /** What Load hands to the replay constructor: the version and the decoded events. */
  datatype History = History(version: int, events: seq<Event>)

  /** The records of one aggregate, in storage order. */
  function ForAggregate(table: seq<EventSourcedRecord>, aggregateId: string): (rs: seq<EventSourcedRecord>)
    ensures |rs| <= |table|
    ensures forall r :: r in rs <==> r in table && r.AggregateId == aggregateId
  {
    if table == [] then []
    else (if table[0].AggregateId == aggregateId then [table[0]] else []) + ForAggregate(table[1..], aggregateId)
  }

  ghost predicate SortedByVersion(rs: seq<EventSourcedRecord>) {
    forall i, j :: 0 <= i < j < |rs| ==> rs[i].AggregateVersion <= rs[j].AggregateVersion
  }

  /** Inserts `x` after every record whose version is not above its own. */
  function InsertByVersion(rs: seq<EventSourcedRecord>, x: EventSourcedRecord): (r: seq<EventSourcedRecord>)
    requires SortedByVersion(rs)
    ensures SortedByVersion(r)
    ensures multiset(r) == multiset(rs) + multiset{x}
    ensures forall y :: y in r ==> y == x || y in rs
  {
    if rs == [] then [x]
    else if x.AggregateVersion < rs[0].AggregateVersion then [x] + rs
    else
      var tail := InsertByVersion(rs[1..], x);
      InsertKeepsLowerBound(rs, x, tail);
      [rs[0]] + tail
  }

  /** Helper for InsertByVersion: the first record stays below everything that follows it. */
  lemma InsertKeepsLowerBound(rs: seq<EventSourcedRecord>, x: EventSourcedRecord, tail: seq<EventSourcedRecord>)
    requires rs != [] && SortedByVersion(rs) && SortedByVersion(tail)
    requires rs[0].AggregateVersion <= x.AggregateVersion
    requires multiset(tail) == multiset(rs[1..]) + multiset{x}
    requires forall y :: y in tail ==> y == x || y in rs[1..]
    ensures SortedByVersion([rs[0]] + tail)
    ensures multiset([rs[0]] + tail) == multiset(rs) + multiset{x}
  {
    assert rs == [rs[0]] + rs[1..];
    forall k | 0 <= k < |tail|
      ensures rs[0].AggregateVersion <= tail[k].AggregateVersion
    {
      assert tail[k] in tail;
      if tail[k] != x {
        var j :| 0 <= j < |rs[1..]| && rs[1..][j] == tail[k];
        assert rs[j + 1] == tail[k];
      }
    }
    var r := [rs[0]] + tail;
    forall i, j | 0 <= i < j < |r|
      ensures r[i].AggregateVersion <= r[j].AggregateVersion
    {
      if i > 0 {
        assert r[i] == tail[i - 1] && r[j] == tail[j - 1];
      } else {
        assert r[j] == tail[j - 1];
      }
    }
  }

  /** A stable sort by version: the records ordered by ascending version, as a permutation. */
  function OrderByVersion(rs: seq<EventSourcedRecord>): (sorted: seq<EventSourcedRecord>)
    ensures SortedByVersion(sorted)
    ensures multiset(sorted) == multiset(rs)
    decreases |rs|
  {
    if rs == [] then []
    else
      assert rs == rs[..|rs| - 1] + [rs[|rs| - 1]];
      InsertByVersion(OrderByVersion(rs[..|rs| - 1]), rs[|rs| - 1])
  }

  /** The highest version among the records. */
  function MaxVersion(rs: seq<EventSourcedRecord>): (m: int)
    requires rs != []
    ensures exists i :: 0 <= i < |rs| && rs[i].AggregateVersion == m
    ensures forall i :: 0 <= i < |rs| ==> rs[i].AggregateVersion <= m
    decreases |rs|
  {
    if |rs| == 1 then rs[0].AggregateVersion
    else
      var rest := MaxVersion(rs[1..]);
      assert forall i :: 1 <= i < |rs| ==> rs[i] == rs[1..][i - 1];
      if rs[0].AggregateVersion > rest then rs[0].AggregateVersion else rest
  }

  /** The version Save counts up from: 0 when the aggregate has no records, else the highest
      stored version. */
  function CurrentVersion(table: seq<EventSourcedRecord>, aggregateId: string): (v: int)
    ensures ForAggregate(table, aggregateId) == [] ==> v == 0
    ensures forall r :: r in table && r.AggregateId == aggregateId ==> r.AggregateVersion <= v
    ensures ForAggregate(table, aggregateId) != [] ==>
      exists r :: r in table && r.AggregateId == aggregateId && r.AggregateVersion == v
  {
    var history := ForAggregate(table, aggregateId);
    if history == [] then 0
    else
      var m := MaxVersion(history);
      assert forall r :: r in history ==> exists i :: 0 <= i < |history| && history[i] == r;
      m
  }

  /** The records Save builds for the pending events, or the first unregistered event type. */
  function SaveRecords(registry: EventRegistry, aggregateId: string, current: int, pending: seq<Event>,
                       encode: Event -> string, clock: nat -> int): (r: Result<seq<EventSourcedRecord>>)
    reads registry
    ensures r.Ok? <==> forall i :: 0 <= i < |pending| ==> TypeOf(pending[i]) in registry.eventTypeToSchema
    ensures r.Ok? ==> |r.value| == |pending|
    decreases |pending|
  {
    if pending == [] then Ok([])
    else
      var n := |pending| - 1;
      assert forall i :: 0 <= i < n ==> pending[..n][i] == pending[i];
      match SaveRecords(registry, aggregateId, current, pending[..n], encode, clock)
      case Err(e) => Err(e)
      case Ok(records) =>
        match registry.GetSchemaName(TypeOf(pending[n]))
        case Err(e) => Err(e)
        case Ok(eventType) =>
          Ok(records + [EventSourcedRecord(0, aggregateId, clock(n), current + n + 1, eventType, encode(pending[n]))])
  }

  /** Whether a stored record resolves to a registered type and deserializes. */
  ghost predicate Decodes(registry: EventRegistry, record: EventSourcedRecord, decode: (string, EventType) -> Result<Event>)
    reads registry
  {
    && record.EventType in registry.eventSchemaToType
    && decode(record.EventData, registry.eventSchemaToType[record.EventType]).Ok?
  }

  /** The events of the records, in the records' order, or the first failure. */
  function DecodeEvents(registry: EventRegistry, records: seq<EventSourcedRecord>,
                        decode: (string, EventType) -> Result<Event>): (r: Result<seq<Event>>)
    reads registry
    ensures r.Ok? ==> |r.value| == |records|
    decreases |records|
  {
    if records == [] then Ok([])
    else
      var n := |records| - 1;
      match DecodeEvents(registry, records[..n], decode)
      case Err(e) => Err(e)
      case Ok(events) =>
        match registry.GetEventType(records[n].EventType)
        case Err(e) => Err(e)
        case Ok(eventType) =>
          match decode(records[n].EventData, eventType)
          case Err(e) => Err(e)
          case Ok(event) => Ok(events + [event])
  }

  /** The pipeline of Load before the constructor call: the aggregate's records sorted by version,
      failing when there are none, their highest version and their decoded events. */
  function LoadHistory(registry: EventRegistry, table: seq<EventSourcedRecord>, aggregateId: string,
                       decode: (string, EventType) -> Result<Event>): (r: Result<History>)
    reads registry
    ensures ForAggregate(table, aggregateId) == [] ==> r == Err(NoRecords)
    ensures r.Ok? ==> |r.value.events| == |ForAggregate(table, aggregateId)|
    ensures r.Ok? ==> r.value.version == CurrentVersion(table, aggregateId)
  {
    var eventRecords := OrderByVersion(ForAggregate(table, aggregateId));
    OrderedHistory(table, aggregateId);
    if eventRecords == [] then Err(NoRecords)
    else
      match DecodeEvents(registry, eventRecords, decode)
      case Err(e) => Err(e)
      case Ok(events) => Ok(History(MaxVersion(eventRecords), events))
  }

  /** Load replays in version order whatever order the records were stored in: its events are
      the decoded records of the aggregate, sorted by version. */
  lemma LoadHistoryInVersionOrder(registry: EventRegistry, table: seq<EventSourcedRecord>, aggregateId: string,
                                  decode: (string, EventType) -> Result<Event>)
    requires LoadHistory(registry, table, aggregateId, decode).Ok?
    ensures exists sorted ::
      && SortedByVersion(sorted)
      && multiset(sorted) == multiset(ForAggregate(table, aggregateId))
      && DecodeEvents(registry, sorted, decode) == Ok(LoadHistory(registry, table, aggregateId, decode).value.events)
  {
    var sorted := OrderByVersion(ForAggregate(table, aggregateId));
    assert DecodeEvents(registry, sorted, decode) == Ok(LoadHistory(registry, table, aggregateId, decode).value.events);
  }

  /** Sorting an aggregate's records keeps their number and their highest version. */
  lemma OrderedHistory(table: seq<EventSourcedRecord>, aggregateId: string)
    ensures |OrderByVersion(ForAggregate(table, aggregateId))| == |ForAggregate(table, aggregateId)|
    ensures OrderByVersion(ForAggregate(table, aggregateId)) != [] ==>
      MaxVersion(OrderByVersion(ForAggregate(table, aggregateId))) == CurrentVersion(table, aggregateId)
  {
    var history := ForAggregate(table, aggregateId);
    var eventRecords := OrderByVersion(history);
    assert |history| == |multiset(eventRecords)|;
    if eventRecords != [] {
      MaxVersionOfPermutation(eventRecords, history);
    }
  }

  /** Reordering records does not change their highest version. */
  lemma MaxVersionOfPermutation(a: seq<EventSourcedRecord>, b: seq<EventSourcedRecord>)
    requires a != [] && multiset(a) == multiset(b)
    ensures b != [] && MaxVersion(a) == MaxVersion(b)
  {
    assert a[0] in multiset(b);
    var i :| 0 <= i < |a| && a[i].AggregateVersion == MaxVersion(a);
    assert a[i] in multiset(b);
    var j :| 0 <= j < |b| && b[j].AggregateVersion == MaxVersion(b);
    assert b[j] in multiset(a);
  }

  /** Save's records for an aggregate whose pending events are all registered. */
  ghost predicate AllRegistered(registry: EventRegistry, pending: seq<Event>)
    reads registry
  {
    forall i :: 0 <= i < |pending| ==> TypeOf(pending[i]) in registry.eventTypeToSchema
  }

  /** The shape Save alone gives an aggregate's records: versions 1, 2, ..., n in storage order. */
  ghost predicate Contiguous(table: seq<EventSourcedRecord>, aggregateId: string) {
    var history := ForAggregate(table, aggregateId);
    forall i :: 0 <= i < |history| ==> history[i].AggregateVersion == i + 1
  }

  class EventStore {
    const eventRegistry: EventRegistry
    /** The data context's event tables, one per aggregate class, by class name. */
    var tables: map<string, seq<EventSourcedRecord>>

    constructor (dataContext: map<string, seq<EventSourcedRecord>>, eventRegistry: EventRegistry)
      ensures this.eventRegistry == eventRegistry && tables == dataContext
    {
      this.eventRegistry := eventRegistry;
      tables := dataContext;
    }

    function Table(name: string): seq<EventSourcedRecord>
      reads this
    {
      if name in tables then tables[name] else []
    }

    /** Appends the aggregate's pending events, numbered on from its highest stored version, or
        appends nothing when one of them has an unregistered type. The aggregate is not changed. */
    method SaveAsync<S>(aggregate: AggregateRoot<S>, encode: Event -> string, clock: nat -> int) returns (r: Outcome)
      modifies this`tables
      ensures
        var saved := SaveRecords(eventRegistry, aggregate.Id, CurrentVersion(old(Table(aggregate.Type.name)), aggregate.Id),
                                 aggregate.PendingDomainEvents, encode, clock);
        && (saved.Ok? ==> r == Pass && tables == old(tables)[aggregate.Type.name := old(Table(aggregate.Type.name)) + saved.value])
        && (saved.Err? ==> r == Fail(saved.error) && tables == old(tables))
    {
      var name := aggregate.Type.name;
      var table := Table(name);
      var currentVersion := 0;
      var history := ForAggregate(table, aggregate.Id);
      if history != [] {
        currentVersion := MaxVersion(history);
      }
      var eventRecords := BuildEventRecords(aggregate.Id, currentVersion, aggregate.PendingDomainEvents, encode, clock);
      if eventRecords.Err? {
        return Fail(eventRecords.error);
      }
      tables := tables[name := table + eventRecords.value];
      r := Pass;
    }

    /** The loop of SaveAsync: a record per pending event, in order, each with the next version
        after `currentVersion`, its registered schema name and its serialized payload. */
    method BuildEventRecords(aggregateId: string, currentVersion: int, pending: seq<Event>,
                             encode: Event -> string, clock: nat -> int) returns (r: Result<seq<EventSourcedRecord>>)
      ensures r == SaveRecords(eventRegistry, aggregateId, currentVersion, pending, encode, clock)
    {
      var version := currentVersion;
      var eventRecords: seq<EventSourcedRecord> := [];
      for i := 0 to |pending|
        invariant version == currentVersion + i
        invariant SaveRecords(eventRegistry, aggregateId, currentVersion, pending[..i], encode, clock) == Ok(eventRecords)
      {
        var eventType := eventRegistry.GetSchemaName(TypeOf(pending[i]));
        SaveRecordsStep(eventRegistry, aggregateId, currentVersion, pending, encode, clock, i, eventRecords);
        if eventType.Err? {
          SaveFailureIsFinal(eventRegistry, aggregateId, currentVersion, pending, encode, clock, i + 1);
          return Err(eventType.error);
        }
        var eventData := encode(pending[i]);
        version := version + 1;
        eventRecords := eventRecords + [EventSourcedRecord(0, aggregateId, clock(i), version, eventType.value, eventData)];
      }
      assert pending[..|pending|] == pending;
      r := Ok(eventRecords);
    }

    /** Rebuilds an aggregate from its stored records through the replay constructor. */
    method Load<S>(aggregateType: AggregateType<S>, aggregateId: string, decode: (string, EventType) -> Result<Event>)
      returns (r: Result<AggregateRoot<S>>)
      ensures
        var history := LoadHistory(eventRegistry, Table(aggregateType.name), aggregateId, decode);
        && (history.Err? ==> r == Err(history.error))
        && (history.Ok? ==>
             var replayed := Replay(aggregateType.tryApplyEvent, aggregateType.initial, history.value.events);
             && (replayed.Err? ==> r == Err(replayed.error))
             && (replayed.Ok? ==>
                  && r.Ok? && fresh(r.value) && r.value.Valid()
                  && r.value.Type == aggregateType && r.value.Id == aggregateId
                  && r.value.Version == history.value.version
                  && r.value.PendingDomainEvents == []
                  && r.value.State == replayed.value
                  && r.value.BaseVersion == history.value.version && r.value.BaseState == replayed.value
                  && r.value.Accepted == []))
    {
      var history := LoadHistory(eventRegistry, Table(aggregateType.name), aggregateId, decode);
      if history.Err? {
        return Err(history.error);
      }
      r := Restore(aggregateType, aggregateId, history.value.version, history.value.events);
    }
  }

  /** When every pending event's type is registered, the i-th record of Save has record Id 0,
      the aggregate's id, the i-th timestamp, version `current + i + 1`, the schema name of the
      i-th event's type and its encoding. Otherwise Save fails on a pending event whose type is
      unregistered. */
  lemma {:induction false} SaveRecordsPointwise(registry: EventRegistry, aggregateId: string, current: int, pending: seq<Event>,
                                                encode: Event -> string, clock: nat -> int)
    ensures var r := SaveRecords(registry, aggregateId, current, pending, encode, clock);
      && (r.Ok? ==> forall i :: 0 <= i < |pending| ==>
            r.value[i] == EventSourcedRecord(0, aggregateId, clock(i), current + i + 1,
                                             registry.eventTypeToSchema[TypeOf(pending[i])], encode(pending[i])))
      && (r.Err? ==> exists i ::
            && 0 <= i < |pending|
            && TypeOf(pending[i]) !in registry.eventTypeToSchema
            && r.error == UnknownEventType(TypeOf(pending[i])))
    decreases |pending|
  {
    if pending != [] {
      var n := |pending| - 1;
      var front := pending[..n];
      SaveRecordsPointwise(registry, aggregateId, current, front, encode, clock);
      assert forall i :: 0 <= i < n ==> front[i] == pending[i];
    }
  }

  /** One step of Save's loop: the records for one more pending event. */
  lemma SaveRecordsStep(registry: EventRegistry, aggregateId: string, current: int, pending: seq<Event>,
                        encode: Event -> string, clock: nat -> int, i: nat, records: seq<EventSourcedRecord>)
    requires i < |pending|
    requires SaveRecords(registry, aggregateId, current, pending[..i], encode, clock) == Ok(records)
    ensures registry.GetSchemaName(TypeOf(pending[i])).Err? ==>
      SaveRecords(registry, aggregateId, current, pending[..i + 1], encode, clock) == Err(UnknownEventType(TypeOf(pending[i])))
    ensures registry.GetSchemaName(TypeOf(pending[i])).Ok? ==>
      SaveRecords(registry, aggregateId, current, pending[..i + 1], encode, clock)
        == Ok(records + [EventSourcedRecord(0, aggregateId, clock(i), current + i + 1,
                                            registry.GetSchemaName(TypeOf(pending[i])).value, encode(pending[i]))])
  {
    assert pending[..i + 1][..i] == pending[..i];
  }

  /** Once a prefix of the pending events fails to encode, Save fails with that same error. */
  lemma {:induction false} SaveFailureIsFinal(registry: EventRegistry, aggregateId: string, current: int, pending: seq<Event>,
                                              encode: Event -> string, clock: nat -> int, i: nat)
    requires i <= |pending|
    requires SaveRecords(registry, aggregateId, current, pending[..i], encode, clock).Err?
    ensures SaveRecords(registry, aggregateId, current, pending, encode, clock)
         == SaveRecords(registry, aggregateId, current, pending[..i], encode, clock)
    decreases |pending|
  {
    if i == |pending| {
      assert pending[..i] == pending;
    } else {
      var front := pending[..|pending| - 1];
      assert front[..i] == pending[..i];
      SaveFailureIsFinal(registry, aggregateId, current, front, encode, clock, i);
    }
  }

  lemma {:induction false} ForAggregateConcat(a: seq<EventSourcedRecord>, b: seq<EventSourcedRecord>, aggregateId: string)
    ensures ForAggregate(a + b, aggregateId) == ForAggregate(a, aggregateId) + ForAggregate(b, aggregateId)
  {
    if a == [] {
      assert a + b == b;
    } else {
      assert (a + b)[1..] == a[1..] + b;
      ForAggregateConcat(a[1..], b, aggregateId);
    }
  }

  lemma {:induction false} ForAggregateOfOwnRecords(rs: seq<EventSourcedRecord>, aggregateId: string)
    requires forall i :: 0 <= i < |rs| ==> rs[i].AggregateId == aggregateId
    ensures ForAggregate(rs, aggregateId) == rs
  {
    if rs != [] {
      ForAggregateOfOwnRecords(rs[1..], aggregateId);
    }
  }

  /** Inserting a record whose version is at least every other's appends it. */
  lemma {:induction false} InsertHighest(rs: seq<EventSourcedRecord>, x: EventSourcedRecord)
    requires SortedByVersion(rs)
    requires forall i :: 0 <= i < |rs| ==> rs[i].AggregateVersion <= x.AggregateVersion
    ensures InsertByVersion(rs, x) == rs + [x]
  {
    if rs != [] {
      InsertHighest(rs[1..], x);
    }
  }

  /** Sorting records that are already in version order leaves them where they are. */
  lemma {:induction false} OrderBySorted(rs: seq<EventSourcedRecord>)
    requires SortedByVersion(rs)
    ensures OrderByVersion(rs) == rs
    decreases |rs|
  {
    if rs != [] {
      var front := rs[..|rs| - 1];
      OrderBySorted(front);
      InsertHighest(front, rs[|rs| - 1]);
    }
  }

  /** Decoding succeeds exactly when every record names a registered schema and its payload
      decodes; the i-th event is then the decoding of the i-th record. */
  lemma {:induction false} DecodeEventsPointwise(registry: EventRegistry, records: seq<EventSourcedRecord>,
                                                 decode: (string, EventType) -> Result<Event>)
    ensures DecodeEvents(registry, records, decode).Ok? <==> forall i :: 0 <= i < |records| ==> Decodes(registry, records[i], decode)
    ensures DecodeEvents(registry, records, decode).Ok? ==> forall i :: 0 <= i < |records| ==>
      decode(records[i].EventData, registry.eventSchemaToType[records[i].EventType]) == Ok(DecodeEvents(registry, records, decode).value[i])
    decreases |records|
  {
    if records != [] {
      var n := |records| - 1;
      var front := records[..n];
      DecodeEventsPointwise(registry, front, decode);
      assert forall i :: 0 <= i < n ==> front[i] == records[i];
    }
  }

  /** Decoding a run of records extended by one that decodes extends the decoded events by it. */
  lemma DecodeEventsSnoc(registry: EventRegistry, front: seq<EventSourcedRecord>, last: EventSourcedRecord,
                         decode: (string, EventType) -> Result<Event>)
    requires DecodeEvents(registry, front, decode).Ok? && Decodes(registry, last, decode)
    ensures DecodeEvents(registry, front + [last], decode)
         == Ok(DecodeEvents(registry, front, decode).value + [decode(last.EventData, registry.eventSchemaToType[last.EventType]).value])
  {
    assert (front + [last])[..|front|] == front;
  }

  /** Decoding two runs of records one after the other decodes their concatenation. */
  lemma {:induction false} DecodeEventsConcat(registry: EventRegistry, a: seq<EventSourcedRecord>, b: seq<EventSourcedRecord>,
                                              decode: (string, EventType) -> Result<Event>)
    requires DecodeEvents(registry, a, decode).Ok? && DecodeEvents(registry, b, decode).Ok?
    ensures DecodeEvents(registry, a + b, decode) == Ok(DecodeEvents(registry, a, decode).value + DecodeEvents(registry, b, decode).value)
    decreases |b|
  {
    if b == [] {
      assert a + b == a;
      assert DecodeEvents(registry, a, decode).value + [] == DecodeEvents(registry, a, decode).value;
    } else {
      var front, last := b[..|b| - 1], b[|b| - 1];
      assert b == front + [last];
      assert a + b == (a + front) + [last];
      assert Decodes(registry, last, decode);
      var event := decode(last.EventData, registry.eventSchemaToType[last.EventType]).value;
      DecodeEventsSnoc(registry, front, last, decode);
      DecodeEventsConcat(registry, a, front, decode);
      DecodeEventsSnoc(registry, a + front, last, decode);
      var first, middle := DecodeEvents(registry, a, decode).value, DecodeEvents(registry, front, decode).value;
      assert (first + middle) + [event] == first + (middle + [event]);
    }
  }

  /** On a contiguous history, the highest stored version is the number of records. */
  lemma ContiguousCurrentVersion(table: seq<EventSourcedRecord>, aggregateId: string)
    requires Contiguous(table, aggregateId)
    ensures CurrentVersion(table, aggregateId) == |ForAggregate(table, aggregateId)|
  {
    var prior := ForAggregate(table, aggregateId);
    if prior != [] {
      assert prior[|prior| - 1] in prior;
    }
  }

  /** Saving never breaks the contiguous numbering of an aggregate's records: the new records
      come after the stored ones and carry the versions right after theirs. */
  lemma SaveKeepsContiguous(registry: EventRegistry, table: seq<EventSourcedRecord>, aggregateId: string,
                            pending: seq<Event>, saved: seq<EventSourcedRecord>, encode: Event -> string, clock: nat -> int)
    requires Contiguous(table, aggregateId)
    requires SaveRecords(registry, aggregateId, CurrentVersion(table, aggregateId), pending, encode, clock) == Ok(saved)
    ensures ForAggregate(table + saved, aggregateId) == ForAggregate(table, aggregateId) + saved
    ensures Contiguous(table + saved, aggregateId)
  {
    var prior := ForAggregate(table, aggregateId);
    ContiguousCurrentVersion(table, aggregateId);
    SavedNumbering(registry, aggregateId, |prior|, pending, saved, encode, clock);
    ForAggregateConcat(table, saved, aggregateId);
    ForAggregateOfOwnRecords(saved, aggregateId);
    NumberedConcat(prior, saved);
  }

  /** The records of one save belong to the saved aggregate and are numbered on from the
      current version. */
  lemma SavedNumbering(registry: EventRegistry, aggregateId: string, current: int, pending: seq<Event>,
                       saved: seq<EventSourcedRecord>, encode: Event -> string, clock: nat -> int)
    requires SaveRecords(registry, aggregateId, current, pending, encode, clock) == Ok(saved)
    ensures forall i :: 0 <= i < |saved| ==> saved[i].AggregateId == aggregateId
    ensures forall i :: 0 <= i < |saved| ==> saved[i].AggregateVersion == current + i + 1
  {
    SaveRecordsPointwise(registry, aggregateId, current, pending, encode, clock);
  }

  /** Records numbered 1..m followed by records numbered m+1..m+n are numbered 1..m+n. */
  lemma NumberedConcat(prior: seq<EventSourcedRecord>, saved: seq<EventSourcedRecord>)
    requires forall i :: 0 <= i < |prior| ==> prior[i].AggregateVersion == i + 1
    requires forall i :: 0 <= i < |saved| ==> saved[i].AggregateVersion == |prior| + i + 1
    ensures forall i :: 0 <= i < |prior + saved| ==> (prior + saved)[i].AggregateVersion == i + 1
  {
    forall i | |prior| <= i < |prior + saved|
      ensures (prior + saved)[i].AggregateVersion == i + 1
    {
      assert (prior + saved)[i] == saved[i - |prior|];
    }
  }

  /** The save/load round trip: when the stored records of an aggregate are contiguous and
      decode, the registry's dictionaries are inverse and decoding undoes encoding, then after
      saving pending events, loading yields the version (old count + pending count) and the old
      events followed by the pending ones, in order. */
  lemma SaveThenLoad(registry: EventRegistry, table: seq<EventSourcedRecord>, aggregateId: string, pending: seq<Event>,
                     saved: seq<EventSourcedRecord>, encode: Event -> string,
                     decode: (string, EventType) -> Result<Event>, clock: nat -> int)
    requires registry.Valid()
    requires forall e :: decode(encode(e), TypeOf(e)) == Ok(e)
    requires Contiguous(table, aggregateId)
    requires DecodeEvents(registry, ForAggregate(table, aggregateId), decode).Ok?
    requires SaveRecords(registry, aggregateId, CurrentVersion(table, aggregateId), pending, encode, clock) == Ok(saved)
    requires ForAggregate(table, aggregateId) != [] || pending != []
    ensures LoadHistory(registry, table + saved, aggregateId, decode).Ok?
    ensures LoadHistory(registry, table + saved, aggregateId, decode).value.version == |ForAggregate(table, aggregateId)| + |pending|
    ensures LoadHistory(registry, table + saved, aggregateId, decode).value.events
         == DecodeEvents(registry, ForAggregate(table, aggregateId), decode).value + pending
  {
    var prior := ForAggregate(table, aggregateId);
    SaveKeepsContiguous(registry, table, aggregateId, pending, saved, encode, clock);
    var history := ForAggregate(table + saved, aggregateId);
    assert history == prior + saved;
    DecodeSaved(registry, aggregateId, CurrentVersion(table, aggregateId), pending, encode, decode, clock);
    DecodeEventsConcat(registry, prior, saved, decode);
    var events := DecodeEvents(registry, prior, decode).value + pending;
    assert DecodeEvents(registry, history, decode) == Ok(events);
    LoadContiguous(registry, table + saved, aggregateId, decode);
    assert |history| == |prior| + |pending|;
  }

  /** Records Save built decode back to the pending events, given an inverse registry and a
      decoder that undoes the encoder. */
  lemma DecodeSaved(registry: EventRegistry, aggregateId: string, current: int, pending: seq<Event>,
                    encode: Event -> string, decode: (string, EventType) -> Result<Event>, clock: nat -> int)
    requires registry.Valid()
    requires forall e :: decode(encode(e), TypeOf(e)) == Ok(e)
    requires AllRegistered(registry, pending)
    ensures DecodeEvents(registry, SaveRecords(registry, aggregateId, current, pending, encode, clock).value, decode) == Ok(pending)
  {
    var saved := SaveRecords(registry, aggregateId, current, pending, encode, clock).value;
    SaveRecordsPointwise(registry, aggregateId, current, pending, encode, clock);
    forall i | 0 <= i < |saved|
      ensures Decodes(registry, saved[i], decode)
      ensures decode(saved[i].EventData, registry.eventSchemaToType[saved[i].EventType]) == Ok(pending[i])
    {
      assert registry.eventTypeToSchema[TypeOf(pending[i])] in registry.eventSchemaToType;
    }
    DecodeEventsPointwise(registry, saved, decode);
    var decoded := DecodeEvents(registry, saved, decode);
    assert decoded.Ok?;
    assert decoded.value == pending;
  }

  /** Loading a non-empty contiguous history decodes it as stored, at the version of its length. */
  lemma LoadContiguous(registry: EventRegistry, table: seq<EventSourcedRecord>, aggregateId: string,
                       decode: (string, EventType) -> Result<Event>)
    requires Contiguous(table, aggregateId)
    requires ForAggregate(table, aggregateId) != []
    requires DecodeEvents(registry, ForAggregate(table, aggregateId), decode).Ok?
    ensures LoadHistory(registry, table, aggregateId, decode)
         == Ok(History(|ForAggregate(table, aggregateId)|, DecodeEvents(registry, ForAggregate(table, aggregateId), decode).value))
  {
    var history := ForAggregate(table, aggregateId);
    assert SortedByVersion(history);
    OrderBySorted(history);
    assert history[|history| - 1] in history;
    assert MaxVersion(history) == |history|;
  }

  /** Save then Load gives back the aggregate that was saved: its version, and a history whose
      replay reproduces its state. This holds for a new aggregate (no stored records, version 0
      at creation) and for one loaded from this table, provided its pending events were never
      cleared. An aggregate with no history and no pending events is not found. */
  lemma LoadRestoresSavedAggregate<S>(registry: EventRegistry, table: seq<EventSourcedRecord>, aggregate: AggregateRoot<S>,
                                      saved: seq<EventSourcedRecord>, encode: Event -> string,
                                      decode: (string, EventType) -> Result<Event>, clock: nat -> int)
    requires registry.Valid()
    requires forall e :: decode(encode(e), TypeOf(e)) == Ok(e)
    requires aggregate.Valid() && aggregate.PendingDomainEvents == aggregate.Accepted
    requires Contiguous(table, aggregate.Id)
    requires |ForAggregate(table, aggregate.Id)| == aggregate.BaseVersion
    requires DecodeEvents(registry, ForAggregate(table, aggregate.Id), decode).Ok?
    requires Replay(aggregate.Type.tryApplyEvent, aggregate.Type.initial,
                    DecodeEvents(registry, ForAggregate(table, aggregate.Id), decode).value) == Ok(aggregate.BaseState)
    requires SaveRecords(registry, aggregate.Id, CurrentVersion(table, aggregate.Id), aggregate.PendingDomainEvents,
                         encode, clock) == Ok(saved)
    ensures aggregate.Version == 0 ==> LoadHistory(registry, table + saved, aggregate.Id, decode) == Err(NoRecords)
    ensures aggregate.Version != 0 ==>
      && LoadHistory(registry, table + saved, aggregate.Id, decode).Ok?
      && LoadHistory(registry, table + saved, aggregate.Id, decode).value.version == aggregate.Version
      && Replay(aggregate.Type.tryApplyEvent, aggregate.Type.initial,
                LoadHistory(registry, table + saved, aggregate.Id, decode).value.events) == Ok(aggregate.State)
  {
    var prior := ForAggregate(table, aggregate.Id);
    var pending := aggregate.PendingDomainEvents;
    SaveKeepsContiguous(registry, table, aggregate.Id, pending, saved, encode, clock);
    if aggregate.Version != 0 {
      SaveThenLoad(registry, table, aggregate.Id, pending, saved, encode, decode, clock);
      var before := DecodeEvents(registry, prior, decode).value;
      ReplayConcat(aggregate.Type.tryApplyEvent, aggregate.Type.initial, before, pending);
    } else {
      assert ForAggregate(table + saved, aggregate.Id) == [];
    }
  }

  /** Records stored out of order (versions 2, 1, 3) are replayed in version order. */
  lemma OrderByVersionSortsShuffled(r1: EventSourcedRecord, r2: EventSourcedRecord, r3: EventSourcedRecord)
    requires r1.AggregateVersion == 1 && r2.AggregateVersion == 2 && r3.AggregateVersion == 3
    ensures OrderByVersion([r2, r1, r3]) == [r1, r2, r3]
  {
    assert [r2, r1, r3][..2] == [r2, r1];
    assert [r2, r1][..1] == [r2];
    assert [r2][..0] == [];
    assert OrderByVersion([r2]) == [r2];
    assert OrderByVersion([r2, r1]) == [r1, r2];
  }
}
