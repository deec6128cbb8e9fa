/** The persisted entities of the ledger: records and the events they own.
    Mirrors the two ORM tables (`records`, `events`) and the list view that
    omits a record's events. */
module Store {

  datatype Option<+T> = None | Some(value: T)

  /** A creation time. The store fills it from the clock; the model treats
      it as an opaque value handed in by the caller. */
  datatype Timestamp = Timestamp(ticks: int)

  /** The JSON values the core writes into payloads. */
  datatype Value = Str(s: string) | Int(i: int) | Num(r: real)

  /** A free-form JSON object. */
  type Payload = map<string, Value>

  /** The two event tags the core gives a meaning to. */
  const CreatedType: string := "created"
  const RetiredType: string := "retired"

  /** A row of the `events` table. `recordId` names the owning record;
      `eventType` is always present, `payload` may be absent. */
  datatype Event = Event(
    id: int,
    recordId: int,
    eventType: string,
    payload: Option<Payload>,
    createdAt: Timestamp)

  /** The request body of a record creation: the five descriptive fields. */
  datatype RecordCreate = RecordCreate(
    projectName: string,
    registry: string,
    vintage: int,
    quantity: real,
    serialNumber: string)

  /** A row of the `records` table with its owned, ordered list of events.
      The descriptive fields are required (no Option) and never change. */
  datatype Record = Record(
    id: int,
    projectName: string,
    registry: string,
    vintage: int,
    quantity: real,
    serialNumber: string,
    createdAt: Timestamp,
    events: seq<Event>)

  /** The list view of a record: every field except its events. */
  datatype RecordSummary = RecordSummary(
    id: int,
    projectName: string,
    registry: string,
    vintage: int,
    quantity: real,
    serialNumber: string,
    createdAt: Timestamp)

  /** The five descriptive fields of a record, as a creation request. */
  function Fields(r: Record): RecordCreate
  {
    RecordCreate(r.projectName, r.registry, r.vintage, r.quantity, r.serialNumber)
  }

  /** The list view of a record: it agrees with the record on every field
      and leaves out the event history. */
  function Summary(r: Record): RecordSummary
  {
    RecordSummary(r.id, r.projectName, r.registry, r.vintage, r.quantity, r.serialNumber, r.createdAt)
  }

  /** The list view does not depend on a record's events: records that
      differ only in their histories have the same summary. */
  lemma SummaryIgnoresEvents(r: Record, events: seq<Event>)
    ensures Summary(r.(events := events)) == Summary(r)
  {
  }

  /** The JSON keys of a creation request body. */
  const PayloadKeys: set<string> := {"project_name", "registry", "vintage", "quantity", "serial_number"}

  /** The creation request body as a JSON object (the pydantic `dict()`):
      exactly the five keys, and decoding it gives back the request. */
  function CreationPayload(input: RecordCreate): (p: Payload)
    ensures p.Keys == PayloadKeys
    ensures PayloadInput(p) == Some(input)
  {
    map[
      "project_name" := Str(input.projectName),
      "registry" := Str(input.registry),
      "vintage" := Int(input.vintage),
      "quantity" := Num(input.quantity),
      "serial_number" := Str(input.serialNumber)]
  }

  /** Reads a creation request back out of a JSON object, when the object
      has the five keys with values of the right kinds. */
  function PayloadInput(p: Payload): Option<RecordCreate>
  {
    if && "project_name" in p && p["project_name"].Str?
       && "registry" in p && p["registry"].Str?
       && "vintage" in p && p["vintage"].Int?
       && "quantity" in p && p["quantity"].Num?
       && "serial_number" in p && p["serial_number"].Str?
    then Some(RecordCreate(p["project_name"].s, p["registry"].s, p["vintage"].i,
                           p["quantity"].r, p["serial_number"].s))
    else None
  }

  /** Decoding is the inverse of encoding on the five keys: whatever a
      payload decodes to re-encodes to that payload's five entries. */
  lemma DecodedPayloadReencodes(p: Payload)
    requires PayloadInput(p).Some?
    ensures forall k :: k in PayloadKeys ==> k in p && CreationPayload(PayloadInput(p).value)[k] == p[k]
  {
  }
}
