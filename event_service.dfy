/** EventService of backend/events/service.py: the id choice and the
    validation of `create_event`, the merge-then-validate of `update_event`,
    and the calls into the repository. The generated id (`uuid.uuid4()`) is
    the parameter `generated` and the clock the parameter `now`. */
module EventServiceLayer {
  import opened Results
  import opened Dicts
  import opened EventModels
  import opened UpdateExpressions
  import opened EventStore

  /** `d.get(k)`. */
  function GetOrNull(d: Dict<Value>, k: string): Value {
    match Get(d, k)
    case Some(v) => v
    case None => Null
  }

  /** `d.get(k, fallback)`. */
  function Pick(d: Dict<Value>, k: string, fallback: Value): (r: Value)
    ensures k in Keys(d) ==> Get(d, k) == Some(r)
    ensures k !in Keys(d) ==> r == fallback
  {
    match Get(d, k)
    case Some(v) => v
    case None => fallback
  }

  /** `event_data.get('event_id') or event_data.get('eventId') or
      str(uuid.uuid4())`: the first truthy of the two keys, else a new id. */
  function ChooseId(data: Dict<Value>, generated: string): (r: Value)
    ensures Truthy(GetOrNull(data, "event_id")) ==> r == GetOrNull(data, "event_id")
    ensures !Truthy(GetOrNull(data, "event_id")) && Truthy(GetOrNull(data, "eventId")) ==>
              r == GetOrNull(data, "eventId")
    ensures !Truthy(GetOrNull(data, "event_id")) && !Truthy(GetOrNull(data, "eventId")) ==>
              r == Str(generated)
  {
    Or(GetOrNull(data, "event_id"), Or(GetOrNull(data, "eventId"), Str(generated)))
  }

  const RequiredFields: seq<string> := ["title", "description", "date", "location", "capacity", "organizer", "status"]

  /** `event_data[k]` inside the `try` of `create_event`: a missing key is a
      missing field. */
  function Field(data: Dict<Value>, k: string): (r: Result<Value, EventError>)
    ensures r.Failure? <==> k !in Keys(data)
    ensures r.Failure? ==> r.error == Invalid(MissingField(k))
    ensures r.Success? ==> Get(data, k) == Some(r.value)
  {
    match Get(data, k)
    case Some(v) => Success(v)
    case None => Failure(Invalid(MissingField(k)))
  }

  /** The keyword arguments of `Event(...)` in `create_event`, read in order;
      the timestamps start unset. */
  function EventFromData(data: Dict<Value>, eventId: Value): Result<Event, EventError> {
    var title :- Field(data, "title");
    var description :- Field(data, "description");
    var date :- Field(data, "date");
    var location :- Field(data, "location");
    var capacity :- Field(data, "capacity");
    var organizer :- Field(data, "organizer");
    var status :- Field(data, "status");
    Success(Event(eventId, title, description, date, location, capacity, organizer, status, Null, Null))
  }

  /** The event `create_event` builds and validates before storing it. */
  function NewEventResult(data: Dict<Value>, generated: string, validDate: string -> bool): Result<Event, EventError> {
    var e :- EventFromData(data, ChooseId(data, generated));
    Validate(e, validDate)
  }

  /** `merged_data` of `update_event`: each checked field from the updates
      when present, else from the stored event; the id and the timestamps are
      the stored event's. */
  function MergedEvent(existing: Event, updates: Dict<Value>): Event {
    Event(existing.eventId,
          Pick(updates, "title", existing.title),
          Pick(updates, "description", existing.description),
          Pick(updates, "date", existing.date),
          Pick(updates, "location", existing.location),
          Pick(updates, "capacity", existing.capacity),
          Pick(updates, "organizer", existing.organizer),
          Pick(updates, "status", existing.status),
          existing.createdAt,
          existing.updatedAt)
  }

  /** `update_event`: a missing or unreadable event stops it, then a merged
      record that fails the checks; only then does the repository update
      run, with the caller's updates. */
  function UpdateEventEffect(items: map<string, Item>, eventId: string, updates: Dict<Value>, now: string,
                             validDate: string -> bool): Written
  {
    match EventStore.GetEvent(items, eventId, validDate)
    case Failure(err) => Written(items, updates, Failure(err))
    case Success(None) => Written(items, updates, Failure(NotFound))
    case Success(Some(existing)) =>
      match Validate(MergedEvent(existing, updates), validDate)
      case Failure(err) => Written(items, updates, Failure(err))
      case Success(_) => UpdateEffect(items, eventId, updates, now, validDate)
  }

  class EventService {
    const repo: EventRepository

    constructor (repo: EventRepository)
      ensures this.repo == repo
    {
      this.repo := repo;
    }

    method CreateEvent(data: Dict<Value>, generated: string, now: string) returns (r: Result<Event, EventError>)
      modifies repo.table
      ensures var made := NewEventResult(data, generated, repo.validDate);
        && (made.Failure? ==> r == Failure(made.error) && repo.table.items == old(repo.table.items))
        && (made.Success? && made.value.eventId.Str? ==>
              && r == Success(Stamped(made.value, now))
              && repo.table.items == old(repo.table.items)[made.value.eventId.s := ToItem(made.value, now)])
        && (made.Success? && !made.value.eventId.Str? ==>
              r == Failure(StoreRejected) && repo.table.items == old(repo.table.items))
    {
      var eventId := ChooseId(data, generated);
      var event := EventFromData(data, eventId);
      if event.Failure? {
        return Failure(event.error);
      }
      var checked := Validate(event.value, repo.validDate);
      if checked.Failure? {
        return Failure(checked.error);
      }
      r := repo.Create(checked.value, now);
    }

    method GetEvent(eventId: string) returns (r: Result<Event, EventError>)
      ensures var found := EventStore.GetEvent(repo.table.items, eventId, repo.validDate);
        && (found.Failure? ==> r == Failure(found.error))
        && (found == Success(None) ==> r == Failure(NotFound))
        && (found.Success? && found.value.Some? ==> r == Success(found.value.value))
    {
      var found := EventStore.GetEvent(repo.table.items, eventId, repo.validDate);
      if found.Failure? {
        return Failure(found.error);
      }
      if found.value.None? {
        return Failure(NotFound);
      }
      r := Success(found.value.value);
    }

    method ListEvents(status: Value) returns (r: Result<seq<Event>, EventError>)
      ensures r == EventStore.ListEvents(repo.table.items, status, repo.validDate)
    {
      r := EventStore.ListEvents(repo.table.items, status, repo.validDate);
    }

    method UpdateEvent(eventId: string, updates: PyDict<Value>, now: string) returns (r: Result<Event, EventError>)
      modifies repo.table, updates
      ensures var w := UpdateEventEffect(old(repo.table.items), eventId, old(updates.entries), now, repo.validDate);
        repo.table.items == w.items && updates.entries == w.updates && r == w.result
    {
      var found := EventStore.GetEvent(repo.table.items, eventId, repo.validDate);
      if found.Failure? {
        return Failure(found.error);
      }
      if found.value.None? {
        return Failure(NotFound);
      }
      var existing := found.value.value;
      var checked := Validate(MergedEvent(existing, updates.entries), repo.validDate);
      if checked.Failure? {
        return Failure(checked.error);
      }
      r := repo.Update(eventId, updates, now);
    }

    method DeleteEvent(eventId: string) returns (r: Result<(), EventError>)
      modifies repo.table
      ensures var found := Exists(old(repo.table.items), eventId, repo.validDate);
        && (found.Failure? ==> r == Failure(found.error) && repo.table.items == old(repo.table.items))
        && (found == Success(false) ==> r == Failure(NotFound) && repo.table.items == old(repo.table.items))
        && (found == Success(true) ==> r == Success(()) && repo.table.items == old(repo.table.items) - {eventId})
    {
      r := repo.Delete(eventId);
    }
  }

  // ---------------------------------------------------------------------------
  // create_event
  // ---------------------------------------------------------------------------

  /** A missing required key is reported as a missing field, and no check
      runs; the field named is the first missing one. */
  lemma MissingFieldReported(data: Dict<Value>, generated: string, validDate: string -> bool, k: nat)
    requires k < |RequiredFields| && RequiredFields[k] !in Keys(data)
    requires forall j :: 0 <= j < k ==> RequiredFields[j] in Keys(data)
    ensures NewEventResult(data, generated, validDate) == Failure(Invalid(MissingField(RequiredFields[k])))
  {
    var f := RequiredFields;
    if k > 0 { assert f[0] in Keys(data); }
    if k > 1 { assert f[1] in Keys(data); }
    if k > 2 { assert f[2] in Keys(data); }
    if k > 3 { assert f[3] in Keys(data); }
    if k > 4 { assert f[4] in Keys(data); }
    if k > 5 { assert f[5] in Keys(data); }
  }

  /** The event `create_event` builds from data holding every required
      key. */
  function DataEvent(data: Dict<Value>, generated: string): Event {
    Event(ChooseId(data, generated), GetOrNull(data, "title"), GetOrNull(data, "description"),
          GetOrNull(data, "date"), GetOrNull(data, "location"), GetOrNull(data, "capacity"),
          GetOrNull(data, "organizer"), GetOrNull(data, "status"), Null, Null)
  }

  /** With every required key present, the keyword arguments are the
      values under those keys. */
  lemma FieldsPresent(data: Dict<Value>, generated: string)
    requires forall k :: k in RequiredFields ==> k in Keys(data)
    ensures EventFromData(data, ChooseId(data, generated)) == Success(DataEvent(data, generated))
  {
    var f := RequiredFields;
    assert f[0] in Keys(data) && f[1] in Keys(data) && f[2] in Keys(data) && f[3] in Keys(data);
    assert f[4] in Keys(data) && f[5] in Keys(data) && f[6] in Keys(data);
  }

  /** With every required key present, `create_event` builds the event from
      the data and the chosen id, and accepts it exactly when it is well
      formed. */
  lemma CreateAcceptsWellFormed(data: Dict<Value>, generated: string, validDate: string -> bool)
    requires forall k :: k in RequiredFields ==> k in Keys(data)
    ensures NewEventResult(data, generated, validDate).Success? <==> WellFormed(DataEvent(data, generated), validDate)
    ensures NewEventResult(data, generated, validDate).Success? ==>
              NewEventResult(data, generated, validDate).value == DataEvent(data, generated)
  {
    FieldsPresent(data, generated);
    ValidateAccepts(DataEvent(data, generated), validDate);
  }

  /** An event `create_event` stores is then returned by `get_event`, as
      `create_event` returned it. */
  lemma CreateThenGetEvent(items: map<string, Item>, data: Dict<Value>, generated: string, now: string,
                           validDate: string -> bool)
    requires NewEventResult(data, generated, validDate).Success?
    requires NewEventResult(data, generated, validDate).value.eventId.Str?
    ensures var e := NewEventResult(data, generated, validDate).value;
      EventStore.GetEvent(items[e.eventId.s := ToItem(e, now)], e.eventId.s, validDate) == Success(Some(Stamped(e, now)))
  {
    var e := NewEventResult(data, generated, validDate).value;
    var built := EventFromData(data, ChooseId(data, generated)).value;
    ValidateAccepts(built, validDate);
    CreateThenGet(items, e, now, validDate);
  }

  // ---------------------------------------------------------------------------
  // update_event
  // ---------------------------------------------------------------------------

  /** An unknown id is reported before the updates are looked at; nothing
      changes. */
  lemma UpdateUnknownEvent(items: map<string, Item>, eventId: string, updates: Dict<Value>, now: string,
                           validDate: string -> bool)
    requires eventId !in items
    ensures UpdateEventEffect(items, eventId, updates, now, validDate) == Written(items, updates, Failure(NotFound))
  {
  }

  /** Updates whose merge with the stored event fails the checks are
      refused with the first failing check's error; neither the table nor
      the caller's updates change. */
  lemma UpdateRejected(items: map<string, Item>, eventId: string, existing: Event, updates: Dict<Value>,
                       now: string, validDate: string -> bool)
    requires EventStore.GetEvent(items, eventId, validDate) == Success(Some(existing))
    requires !WellFormed(MergedEvent(existing, updates), validDate)
    ensures var w := UpdateEventEffect(items, eventId, updates, now, validDate);
      && w.items == items && w.updates == updates
      && Validate(MergedEvent(existing, updates), validDate).Failure?
      && w.result == Failure(Validate(MergedEvent(existing, updates), validDate).error)
  {
    ValidateAccepts(MergedEvent(existing, updates), validDate);
  }

  /** The event `update_event` returns: every attribute named in the updates
      takes its new value, the others keep the stored one, and `updatedAt`
      is the current time. */
  function Patched(existing: Event, updates: Dict<Value>, now: string): Event {
    Event(existing.eventId,
          Pick(updates, "title", existing.title),
          Pick(updates, "description", existing.description),
          Pick(updates, "date", existing.date),
          Pick(updates, "location", existing.location),
          Pick(updates, "capacity", existing.capacity),
          Pick(updates, "organizer", existing.organizer),
          Pick(updates, "status", existing.status),
          Pick(updates, "createdAt", existing.createdAt),
          Str(now))
  }

  /** Updates whose merge passes the checks are written: the stored item
      holds them and the new `updatedAt`, the caller's updates gain
      `updatedAt`, the event returned is the patched one, and a later
      `get_event` returns it too. */
  lemma UpdateApplied(items: map<string, Item>, eventId: string, existing: Event, updates: Dict<Value>,
                      now: string, validDate: string -> bool)
    requires EventStore.GetEvent(items, eventId, validDate) == Success(Some(existing))
    requires WellFormed(MergedEvent(existing, updates), validDate)
    requires KeysDistinct(updates)
    requires AllSettable(updates)
    ensures var w := UpdateEventEffect(items, eventId, updates, now, validDate);
      && w.updates == Assigned(updates, "updatedAt", Str(now))
      && w.result == Success(Patched(existing, updates, now))
      && EventStore.GetEvent(w.items, eventId, validDate) == Success(Some(Patched(existing, updates, now)))
  {
    StoredEvent(items, eventId, existing, validDate);
    PatchedWellFormed(existing, updates, now, validDate);
    var after := PatchedReadsBack(items[eventId], existing, updates, now, validDate);
    ValidateAccepts(MergedEvent(existing, updates), validDate);
    UpdateEventEffectOf(items, eventId, existing, updates, now, validDate, after);
  }

  /** Whatever its outcome, `update_event` adds and removes no event and
      leaves every other event's item as it was. */
  lemma UpdateTouchesOnlyEvent(items: map<string, Item>, eventId: string, updates: Dict<Value>, now: string,
                               validDate: string -> bool)
    ensures var w := UpdateEventEffect(items, eventId, updates, now, validDate);
      && w.items.Keys == items.Keys
      && (forall id :: id in items && id != eventId ==> w.items[id] == items[id])
  {
    var found := EventStore.GetEvent(items, eventId, validDate);
    if found.Success? && found.value.Some? {
      UpdateEffectFrame(items, eventId, updates, now, validDate);
    }
  }

  /** The checked fields of the patched event are those of the merge. */
  lemma PatchedWellFormed(existing: Event, updates: Dict<Value>, now: string, validDate: string -> bool)
    requires WellFormed(MergedEvent(existing, updates), validDate)
    ensures WellFormed(Patched(existing, updates, now), validDate)
  {
  }

  /** The item the update leaves reads back as the patched event when that
      event passes the checks. */
  lemma PatchedReadsBack(item: Item, existing: Event, updates: Dict<Value>, now: string, validDate: string -> bool)
    returns (after: Item)
    requires FromItem(item, validDate) == Success(existing)
    requires KeysDistinct(updates)
    requires AllSettable(updates)
    requires WellFormed(Patched(existing, updates, now), validDate)
    ensures UpdateWrite(item, Assigned(updates, "updatedAt", Str(now))) == Success(after)
    ensures FromItem(after, validDate) == Success(Patched(existing, updates, now))
  {
    after := PatchedItem(item, existing, updates, now, validDate);
    FromItemOf(after, Patched(existing, updates, now), validDate);
  }

  /** `update_event` on a readable event whose merge passes the checks does
      what the repository's `update` does. */
  lemma UpdateEventEffectOf(items: map<string, Item>, eventId: string, existing: Event, updates: Dict<Value>,
                            now: string, validDate: string -> bool, after: Item)
    requires eventId in items && FromItem(items[eventId], validDate) == Success(existing)
    requires Validate(MergedEvent(existing, updates), validDate).Success?
    requires UpdateWrite(items[eventId], Assigned(updates, "updatedAt", Str(now))) == Success(after)
    ensures UpdateEventEffect(items, eventId, updates, now, validDate)
            == Written(items[eventId := after], Assigned(updates, "updatedAt", Str(now)), FromItem(after, validDate))
  {
    UpdateEffectOf(items, eventId, updates, now, validDate, after);
  }

  /** The item the update leaves reads back as the patched event. */
  lemma PatchedItem(item: Item, existing: Event, updates: Dict<Value>, now: string, validDate: string -> bool)
    returns (after: Item)
    requires FromItem(item, validDate) == Success(existing)
    requires KeysDistinct(updates)
    requires AllSettable(updates)
    ensures UpdateWrite(item, Assigned(updates, "updatedAt", Str(now))) == Success(after)
    ensures var p := Patched(existing, updates, now);
      && "eventId" in after && after["eventId"] == p.eventId
      && "title" in after && after["title"] == p.title
      && "description" in after && after["description"] == p.description
      && "date" in after && after["date"] == p.date
      && "location" in after && after["location"] == p.location
      && "capacity" in after && after["capacity"] == p.capacity
      && "organizer" in after && after["organizer"] == p.organizer
      && "status" in after && after["status"] == p.status
      && Optional(after, "createdAt") == p.createdAt
      && Optional(after, "updatedAt") == p.updatedAt
  {
    FromItemFields(item, validDate);
    UpdateWrites(item, updates, now, "eventId");
    after := UpdateWrite(item, Assigned(updates, "updatedAt", Str(now))).value;
    UpdateWrites(item, updates, now, "title");
    UpdateWrites(item, updates, now, "description");
    UpdateWrites(item, updates, now, "date");
    UpdateWrites(item, updates, now, "location");
    UpdateWrites(item, updates, now, "capacity");
    UpdateWrites(item, updates, now, "organizer");
    UpdateWrites(item, updates, now, "status");
    UpdateWrites(item, updates, now, "createdAt");
  }
}
