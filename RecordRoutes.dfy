/** The ledger operations behind the record routes: create a record with
    its "created" event, list and fetch records, and retire a record at most
    once. Each operation is one atomic step over the store. */
module RecordRoutes {
  import opened Store
  import opened History

  /** The outcome of a ledger operation: a value, or one of the two
      failures the routes report. */
  datatype Result<+T> = Ok(value: T) | NotFound | AlreadyRetired

  /** No two events in the store share an id, wherever they are stored. */
  ghost predicate EventIdsUnique(records: map<int, Record>)
  {
    forall a, b, i, j ::
      a in records && b in records &&
      0 <= i < |records[a].events| && 0 <= j < |records[b].events| &&
      records[a].events[i].id == records[b].events[j].id
      ==> a == b && i == j
  }

  /** `id` is not the id of any event in the store. */
  ghost predicate FreshEventId(records: map<int, Record>, id: int)
  {
    forall a, i :: a in records && 0 <= i < |records[a].events| ==> records[a].events[i].id != id
  }

  /** The store invariant: every record sits under its own id, which the
      store handed out earlier; every history is an allowed one; every
      event id was handed out earlier and is used once. */
  ghost predicate StoreValid(records: map<int, Record>, nextRecordId: int, nextEventId: int)
  {
    && 1 <= nextRecordId
    && 1 <= nextEventId
    && (forall id :: id in records ==>
          && records[id].id == id
          && 1 <= id < nextRecordId
          && ValidHistory(id, records[id].events))
    && (forall id, i :: id in records && 0 <= i < |records[id].events| ==>
          1 <= records[id].events[i].id < nextEventId)
    && EventIdsUnique(records)
  }

  /** Storing a new record under the next record id, with its "created"
      event under the next event id, keeps the store invariant; neither id
      was in use before. */
  lemma InsertRecordKeepsStore(records: map<int, Record>, nextRecordId: int, nextEventId: int, r: Record)
    requires StoreValid(records, nextRecordId, nextEventId)
    requires r.id == nextRecordId
    requires |r.events| == 1 && r.events[0].id == nextEventId
    requires r.events[0].eventType == CreatedType && r.events[0].recordId == r.id
    ensures r.id !in records
    ensures FreshEventId(records, r.events[0].id)
    ensures StoreValid(records[r.id := r], nextRecordId + 1, nextEventId + 1)
  {
  }

  /** Appending an event under the next event id to the stored record `id`,
      when the result is still an allowed history, keeps the store invariant;
      the event id was not in use before. */
  lemma AppendEventKeepsStore(records: map<int, Record>, nextRecordId: int, nextEventId: int, id: int, e: Event)
    requires StoreValid(records, nextRecordId, nextEventId)
    requires id in records && e.id == nextEventId
    requires ValidHistory(id, records[id].events + [e])
    ensures FreshEventId(records, e.id)
    ensures StoreValid(records[id := records[id].(events := records[id].events + [e])], nextRecordId, nextEventId + 1)
  {
    var old_events := records[id].events;
    var after := records[id := records[id].(events := old_events + [e])];
    forall a, i | a in after && 0 <= i < |after[a].events|
      ensures 1 <= after[a].events[i].id < nextEventId + 1
    {
      if a == id && i < |old_events| {
        assert after[a].events[i] == old_events[i];
      }
    }
    forall a, b, i, j |
      a in after && b in after &&
      0 <= i < |after[a].events| && 0 <= j < |after[b].events| &&
      after[a].events[i].id == after[b].events[j].id
      ensures a == b && i == j
    {
      var x := after[a].events[i];
      var y := after[b].events[j];
      var xNew := a == id && i == |old_events|;
      var yNew := b == id && j == |old_events|;
      if !xNew && a == id { assert x == records[a].events[i]; }
      if !yNew && b == id { assert y == records[b].events[j]; }
    }
  }

  /** The list view of a whole store. */
  function Summaries(records: map<int, Record>): set<RecordSummary>
  {
    set id | id in records :: Summary(records[id])
  }

  /** Storing a record under a new key adds its summary to the list view. */
  lemma SummariesInsert(records: map<int, Record>, r: Record)
    requires r.id !in records
    ensures Summaries(records[r.id := r]) == Summaries(records) + {Summary(r)}
  {
    var after := records[r.id := r];
    forall s | s in Summaries(after) ensures s in Summaries(records) + {Summary(r)} {
      var id :| id in after && Summary(after[id]) == s;
      if id != r.id {
        assert Summary(records[id]) == s;
      }
    }
    forall s | s in Summaries(records) ensures s in Summaries(after) {
      var id :| id in records && Summary(records[id]) == s;
      assert after[id] == records[id];
    }
    assert Summary(after[r.id]) in Summaries(after);
  }

  /** Replacing a stored record's events leaves the list view alone. */
  lemma SummariesIgnoreEvents(records: map<int, Record>, id: int, events: seq<Event>)
    requires id in records
    ensures Summaries(records[id := records[id].(events := events)]) == Summaries(records)
  {
    var after := records[id := records[id].(events := events)];
    forall s | s in Summaries(after) ensures s in Summaries(records) {
      var k :| k in after && Summary(after[k]) == s;
      assert Summary(records[k]) == s;
    }
    forall s | s in Summaries(records) ensures s in Summaries(after) {
      var k :| k in records && Summary(records[k]) == s;
      assert Summary(after[k]) == s;
    }
  }

  /** The store: records keyed by id, and the next id the store hands out
      for a record and for an event (ids count up from 1). */
  class Ledger {
    var records: map<int, Record>
    var nextRecordId: int
    var nextEventId: int

    /** The store invariant, over the fields. */
    ghost predicate Valid()
      reads this
    {
      StoreValid(records, nextRecordId, nextEventId)
    }

    /** An empty store. */
    constructor ()
      ensures Valid()
      ensures records == map[] && nextRecordId == 1 && nextEventId == 1
    {
      records := map[];
      nextRecordId := 1;
      nextEventId := 1;
    }

    /** The list view: the summary of every stored record and nothing else. */
    function List(): (rs: set<RecordSummary>)
      reads this
      requires Valid()
      ensures forall id :: id in records ==> Summary(records[id]) in rs
      ensures forall s :: s in rs ==> s.id in records && Summary(records[s.id]) == s
    {
      Summaries(records)
    }

    /** Fetches one record with its full history. A missing id is NotFound;
        a found record carries the id asked for and an allowed history. */
    function Get(id: int): (res: Result<Record>)
      reads this
      requires Valid()
      ensures !res.AlreadyRetired?
      ensures res.NotFound? <==> id !in records
      ensures res.Ok? ==> res.value == records[id]
      ensures res.Ok? ==> res.value.id == id && ValidHistory(id, res.value.events)
    {
      if id in records then Ok(records[id]) else NotFound
    }

    /** Stores a new record built from `input` under a fresh id, with one
        "created" event whose payload is the request body. */
    method Create(input: RecordCreate, now: Timestamp) returns (r: Record)
      requires Valid()
      modifies this
      ensures Valid()
      ensures r.id !in old(records)
      ensures records == old(records)[r.id := r]
      ensures Fields(r) == input && r.createdAt == now
      ensures |r.events| == 1
      ensures r.events[0].eventType == CreatedType
      ensures r.events[0].payload == Some(CreationPayload(input))
      ensures r.events[0].recordId == r.id && r.events[0].createdAt == now
      ensures FreshEventId(old(records), r.events[0].id)
      ensures !IsRetired(r.events)
      ensures Get(r.id) == Ok(r)
      ensures List() == old(List()) + {Summary(r)}
      ensures nextRecordId == old(nextRecordId) + 1 && nextEventId == old(nextEventId) + 1
    {
      var e := Event(nextEventId, nextRecordId, CreatedType, Some(CreationPayload(input)), now);
      r := Record(nextRecordId, input.projectName, input.registry, input.vintage,
                  input.quantity, input.serialNumber, now, [e]);
      InsertRecordKeepsStore(records, nextRecordId, nextEventId, r);
      CreatedHistoryValid(r.id, e);
      SummariesInsert(records, r);
      records := records[r.id := r];
      nextRecordId := nextRecordId + 1;
      nextEventId := nextEventId + 1;
    }

    /** Retires the record `id`: NotFound when it is missing, AlreadyRetired
        when one of its events is "retired" (nothing changes in either
        case); otherwise appends one "retired" event with an empty payload
        to that record alone and returns it. Afterwards a stored record
        `id` holds exactly one "retired" event. */
    method Retire(id: int, now: Timestamp) returns (res: Result<Event>)
      requires Valid()
      modifies this
      ensures Valid()
      ensures id !in old(records) ==> res == NotFound && unchanged(this)
      ensures id in old(records) && IsRetired(old(records)[id].events) ==>
                res == AlreadyRetired && unchanged(this)
      ensures id in old(records) && !IsRetired(old(records)[id].events) ==>
                && res.Ok?
                && res.value.eventType == RetiredType
                && res.value.payload == Some(map[])
                && res.value.recordId == id
                && res.value.createdAt == now
                && FreshEventId(old(records), res.value.id)
                && records == old(records)[id := old(records)[id].(events := old(records)[id].events + [res.value])]
                && nextRecordId == old(nextRecordId)
                && nextEventId == old(nextEventId) + 1
      ensures id in records ==> IsRetired(records[id].events) && Count(records[id].events, RetiredType) == 1
      ensures List() == old(List())
    {
      if id !in records {
        return NotFound;
      }
      var record := records[id];
      AnyOfTypeIsHasType(record.events, RetiredType);
      if AnyOfType(record.events, RetiredType) {
        return AlreadyRetired;
      }
      var e := Event(nextEventId, id, RetiredType, Some(map[]), now);
      RetirePreservesHistory(id, record.events, e);
      AppendEventKeepsStore(records, nextRecordId, nextEventId, id, e);
      SummariesIgnoreEvents(records, id, record.events + [e]);
      records := records[id := record.(events := record.events + [e])];
      nextEventId := nextEventId + 1;
      res := Ok(e);
    }
  }

  /** The scenario of one record retired twice: the first retirement
      succeeds with a "retired" event of empty payload, the second fails
      with AlreadyRetired, and the record's history is then the "created"
      event followed by that one "retired" event. */
  method RetireTwice(input: RecordCreate, t0: Timestamp, t1: Timestamp, t2: Timestamp)
    returns (first: Result<Event>, second: Result<Event>, history: seq<Event>)
    ensures first.Ok? && first.value.eventType == RetiredType && first.value.payload == Some(map[])
    ensures second == AlreadyRetired
    ensures |history| == 2
    ensures history[0].eventType == CreatedType && history[0].payload == Some(CreationPayload(input))
    ensures history[1] == first.value
  {
    var ledger := new Ledger();
    var r := ledger.Create(input, t0);
    first := ledger.Retire(r.id, t1);
    second := ledger.Retire(r.id, t2);
    var got := ledger.Get(r.id);
    history := got.value.events;
  }

  /** A missing id: fetching and retiring both fail with NotFound, and the
      list view still shows the one stored record. */
  method MissingRecord(input: RecordCreate, t0: Timestamp, t1: Timestamp)
    returns (r: Record, fetched: Result<Record>, retired: Result<Event>, listed: set<RecordSummary>)
    ensures fetched == NotFound && retired == NotFound
    ensures listed == {Summary(r)}
  {
    var ledger := new Ledger();
    r := ledger.Create(input, t0);
    var missing := r.id + 1;
    fetched := ledger.Get(missing);
    retired := ledger.Retire(missing, t1);
    listed := ledger.List();
  }

  /** The two read views agree: a summary is in the list view exactly when
      fetching its id finds a record whose summary it is. */
  lemma ListAgreesWithGet(ledger: Ledger, s: RecordSummary)
    requires ledger.Valid()
    ensures s in ledger.List() <==> ledger.Get(s.id).Ok? && Summary(ledger.Get(s.id).value) == s
  {
  }
}
