/** The lifecycle rules over one record's event list. A record's state is
    never stored: it is read off its events, and the rules below say which
    event lists a record may have. */
module History {
  import opened Store

  /** Some event in `events` carries tag `t`. */
  predicate HasType(events: seq<Event>, t: string)
  {
    exists i :: 0 <= i < |events| && events[i].eventType == t
  }

  /** The state rule: a record is retired exactly when its events hold a
      "retired" event. */
  predicate IsRetired(events: seq<Event>)
  {
    HasType(events, RetiredType)
  }

  /** The scan the retirement check performs, one event after the other,
      stopping at the first match. */
  function AnyOfType(events: seq<Event>, t: string): bool
  {
    if events == [] then false
    else events[0].eventType == t || AnyOfType(events[1..], t)
  }

  /** The scan answers exactly the state rule. */
  lemma {:induction false} AnyOfTypeIsHasType(events: seq<Event>, t: string)
    ensures AnyOfType(events, t) <==> HasType(events, t)
  {
    if events != [] {
      AnyOfTypeIsHasType(events[1..], t);
      if HasType(events[1..], t) {
        var i :| 0 <= i < |events[1..]| && events[1..][i].eventType == t;
        assert events[i + 1].eventType == t;
      }
      if HasType(events, t) && events[0].eventType != t {
        var i :| 0 <= i < |events| && events[i].eventType == t;
        assert events[1..][i - 1].eventType == t;
      }
    }
  }

  /** The number of events in `events` tagged `t`; zero exactly when no
      event carries the tag. */
  function Count(events: seq<Event>, t: string): (n: nat)
    ensures n <= |events|
    ensures n == 0 <==> !HasType(events, t)
  {
    if events == [] then 0
    else
      var rest := Count(events[1..], t);
      assert HasType(events[1..], t) ==> HasType(events, t) by {
        if HasType(events[1..], t) {
          var i :| 0 <= i < |events[1..]| && events[1..][i].eventType == t;
          assert events[i + 1].eventType == t;
        }
      }
      assert HasType(events, t) && events[0].eventType != t ==> HasType(events[1..], t) by {
        if HasType(events, t) && events[0].eventType != t {
          var i :| 0 <= i < |events| && events[i].eventType == t;
          assert events[1..][i - 1].eventType == t;
        }
      }
      (if events[0].eventType == t then 1 else 0) + rest
  }

  /** Appending one event adds one to its own tag's count and leaves every
      other tag's count alone. */
  lemma {:induction false} CountAppend(events: seq<Event>, e: Event, t: string)
    ensures Count(events + [e], t) == Count(events, t) + (if e.eventType == t then 1 else 0)
  {
    if events != [] {
      assert (events + [e])[1..] == events[1..] + [e];
      CountAppend(events[1..], e, t);
    }
  }

  /** The histories the ledger allows for the record with id `recordId`:
      it starts with its one "created" event, holds at most one "retired"
      event, and every event names the record as its owner. */
  predicate ValidHistory(recordId: int, events: seq<Event>)
  {
    && |events| >= 1
    && events[0].eventType == CreatedType
    && Count(events, CreatedType) == 1
    && Count(events, RetiredType) <= 1
    && forall i :: 0 <= i < |events| ==> events[i].recordId == recordId
  }

  /** The history a record starts with: its "created" event alone. That
      history is allowed and the record is not retired. */
  lemma CreatedHistoryValid(recordId: int, e: Event)
    requires e.eventType == CreatedType && e.recordId == recordId
    ensures ValidHistory(recordId, [e])
    ensures !IsRetired([e])
  {
  }

  /** Appending a "retired" event to an allowed history that is not retired
      yields an allowed history that holds exactly one "retired" event. */
  lemma {:induction false} RetirePreservesHistory(recordId: int, events: seq<Event>, e: Event)
    requires ValidHistory(recordId, events) && !IsRetired(events)
    requires e.eventType == RetiredType && e.recordId == recordId
    ensures ValidHistory(recordId, events + [e])
    ensures IsRetired(events + [e])
    ensures Count(events + [e], RetiredType) == 1
  {
    CountAppend(events, e, CreatedType);
    CountAppend(events, e, RetiredType);
    assert (events + [e])[|events|].eventType == RetiredType;
  }

  /** The retirement check is needed: appending a second "retired" event to
      an allowed history that is already retired leaves the allowed ones. */
  lemma {:induction false} SecondRetireBreaksHistory(recordId: int, events: seq<Event>, e: Event)
    requires ValidHistory(recordId, events) && IsRetired(events)
    requires e.eventType == RetiredType
    ensures !ValidHistory(recordId, events + [e])
  {
    CountAppend(events, e, RetiredType);
  }
}
