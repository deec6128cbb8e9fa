# Carbon ledger: an event-sourced record ledger in Dafny

This project models the core of a small record-keeping service. The service stores
records, such as carbon-credit project entries. Each record owns an append-only list
of events. A record starts with one `"created"` event. It may later receive one
`"retired"` event. A record's state is never stored as a field. A record is retired
exactly when its event list contains a `"retired"` event.

The model has three modules, one per part of the source:

- `Store` (`Store.dfy`) holds the two tables as datatypes: `Record`, with its five
  required descriptive fields, its creation time and its owned `events`, and `Event`,
  with `recordId`, a required `eventType` and an optional `payload`. It also holds the
  creation request `RecordCreate`, the JSON payload built from it, and the list view
  `RecordSummary`, which leaves out the events.
- `History` (`History.dfy`) holds the pure rules over one record's event list. These
  are the state rule `IsRetired`, the scan `AnyOfType` that the retirement check
  performs, the event counts, and `ValidHistory`. `ValidHistory` accepts exactly the
  lists that start with their only `"created"` event, hold at most one `"retired"`
  event, and name the record as every event's owner.
- `RecordRoutes` (`RecordRoutes.dfy`) holds the `Ledger` class. The class has the
  store `records: map<int, Record>` and next-id counters for records and for events.
  `Create` and `Retire` are methods that update these fields. `Get` and `List` are
  reading functions. The outcome datatype is `Result` (`Ok` / `NotFound` /
  `AlreadyRetired`). `Ledger.Valid` is the store invariant `StoreValid`:
  - each record is stored under its own id;
  - every history is a `ValidHistory`;
  - ids were handed out earlier;
  - no event id is used twice anywhere in the store.

Every `Create` and `Retire` keeps the invariant. So after any sequence of calls, every
record has exactly one `"created"` event, that event comes first in insertion order,
and the record has at most one `"retired"` event.

Ids are integers assigned by counting up from 1, as an auto-increment primary key
does. Timestamps are an opaque `Timestamp` value passed in by the caller as `now`.
One `now` serves both the record and its `"created"` event.

## Model

| member | source | states |
|---|---|---|
| `Store.CreationPayload` | backend/routes/recordRoute.py:23 | the "created" payload has exactly the five request keys and decodes back to the request |
| `Store.DecodedPayloadReencodes` | backend/routes/recordRoute.py:23 | the other half of the payload round trip: whatever a payload decodes to re-encodes to that payload's five entries |
| `Store.SummaryIgnoresEvents` | backend/schema/records.py:19-38 | the list view of a record does not depend on its events: records that differ only in their histories have the same summary |
| `History.AnyOfTypeIsHasType` | backend/routes/recordRoute.py:53 | the `any(...)` scan over the events is true exactly when some event carries the tag (the state rule) |
| `History.Count` | backend/routes/recordRoute.py:53 | the number of events with a tag is at most the list length, and it is zero exactly when no event carries the tag |
| `History.CountAppend` | backend/routes/recordRoute.py:61 | appending one event raises its own tag's count by one and leaves every other tag's count alone |
| `History.CreatedHistoryValid` | backend/routes/recordRoute.py:23 | a history made of one "created" event owned by the record is allowed and is not retired |
| `History.RetirePreservesHistory` | backend/routes/recordRoute.py:53-61 | appending a "retired" event to an allowed, not yet retired history gives an allowed, retired history with exactly one "retired" event |
| `History.SecondRetireBreaksHistory` | backend/routes/recordRoute.py:53-54 | appending a second "retired" event to a retired history gives a history that is not allowed, which is why the check exists |
| `RecordRoutes.InsertRecordKeepsStore` | backend/models/table.py:11-26 | a new record under the next record id, whose "created" event has the next event id, keeps ids unique and the store invariant; neither id was in use |
| `RecordRoutes.AppendEventKeepsStore` | backend/models/table.py:25-26 | appending an event with the next event id to one record keeps event ids unique store-wide and keeps the store invariant |
| `RecordRoutes.SummariesInsert` | backend/routes/recordRoute.py:25-33 | storing a record under a new id adds exactly its summary to the list view |
| `RecordRoutes.SummariesIgnoreEvents` | backend/routes/recordRoute.py:61 | changing a record's events leaves the list view unchanged |
| `RecordRoutes.ListAgreesWithGet` | backend/routes/recordRoute.py:31-42 | a summary is in the list view exactly when fetching its id finds a record with that summary |
| `RecordRoutes.Ledger.List` | backend/routes/recordRoute.py:31-34 | the list view holds the summary of every stored record and nothing else |
| `RecordRoutes.Ledger.Get` | backend/routes/recordRoute.py:37-42 | a missing id gives NotFound; a stored id gives that record, which carries the requested id and an allowed history |
| `RecordRoutes.Ledger.Create` | backend/routes/recordRoute.py:11-28 | stores one new record under an id not in use, with the input's fields and one "created" event whose payload is the request; nothing else changes; Get returns the record and the list view grows by its summary |
| `RecordRoutes.Ledger.Retire` | backend/routes/recordRoute.py:45-64 | a missing id gives NotFound and a retired record gives AlreadyRetired, both with no change; otherwise one "retired" event with an empty payload and a fresh id is appended to that record alone and returned; afterwards the record holds exactly one "retired" event; the list view is unchanged |
| `RecordRoutes.RetireTwice` | backend/routes/recordRoute.py:48-64 | retiring a new record twice: the first call succeeds, the second fails with AlreadyRetired, and the history is the "created" event and then that one "retired" event |
| `RecordRoutes.MissingRecord` | backend/routes/recordRoute.py:39-50 | fetching and retiring an id that is not stored both give NotFound, and the list view still shows only the stored record |
| `RecordRoutes.Ledger.constructor` | backend/server.py:9-11 | a fresh database: no records, both id counters at 1, and the invariant holds |

## Left out

- Concurrency: the row lock in `retire_record` is not modelled. Each operation is one atomic step, so "at most one retirement" is proved for sequential calls only.
- Database sessions: add, commit, refresh and relationship mechanics are not modelled. Commit is part of each atomic method, and storage failures are not modelled.
- HTTP: routing, the router prefix, the greeting endpoint and the 404/400 status codes are not modelled. The two failures are the `NotFound` and `AlreadyRetired` results.
- Validation: pydantic checks are not modelled. A `RecordCreate` always has its five fields, so a validation error cannot arise in the model.
- Timestamps: creation times come from a caller-supplied `now`. The model proves nothing about time. It uses one `now` for the record and its "created" event, but the source evaluates two clock defaults.
- `quantity` is a `real` that is only stored and echoed. Floating point is not modelled.
- Payloads only use the JSON value kinds the core writes: strings, integers and numbers. Other JSON shapes are not modelled.
- Ids are integers. The routes take the id as a string, and the conversion from string to integer is not modelled.
- `RecordRoutes.Ledger.List`: returns a set of summaries, so the order of the database query result is not modelled.
- Event order on read-back: the model keeps each record's events in insertion order. The `events` relationship (backend/models/table.py:19) has no `order_by`, so the source does not promise that order when `get_record_by_id` loads the events again.
- Existing data at startup: the constructor models a fresh database. Table creation at startup (backend/server.py:9-11) keeps the rows of an existing database, and the model does not start from such rows.
- Cascade delete: no operation in the source deletes a record. Events live only inside their owning record's list, so no event can exist without its record.
- `serial_number` is not required to be unique, because the source does not enforce it.
