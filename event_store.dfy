/** EventRepository of backend/events/repositories.py over a table that maps
    each `eventId` to the item stored under it. Reads are functions of the
    table contents; `create`, `update` and `delete` are methods that write
    the table. The clock is the parameter `now`. */
module EventStore {
  import opened Results
  import opened Text
  import opened Dicts
  import opened EventModels
  import opened UpdateExpressions

  /** The table: items keyed by their string `eventId`. */
  class EventsTable {
    var items: map<string, Item>

    constructor ()
      ensures items == map[]
    {
      items := map[];
    }

    /** `put_item`: replaces whatever is stored under the key; an item whose
        key is missing or not a string is refused. The table's refusal of an
        empty-string key is not modelled; the service never writes one. */
    method PutItem(item: Item) returns (r: Result<(), EventError>)
      modifies this
      ensures "eventId" in item && item["eventId"].Str? ==>
                r == Success(()) && items == old(items)[item["eventId"].s := item]
      ensures !("eventId" in item && item["eventId"].Str?) ==>
                r == Failure(StoreRejected) && items == old(items)
    {
      if "eventId" in item && item["eventId"].Str? {
        items := items[item["eventId"].s := item];
        r := Success(());
      } else {
        r := Failure(StoreRejected);
      }
    }

    /** `update_item` with `ReturnValues='ALL_NEW'`: applies the expression to
        the stored item, or to a new item holding only the key. */
    method UpdateItem(eventId: string, expression: string, names: map<string, string>,
                      values: map<string, Value>) returns (r: Result<Item, EventError>)
      modifies this
      ensures r == ApplySet(Current(old(items), eventId), expression, names, values)
      ensures r.Success? ==> items == old(items)[eventId := r.value]
      ensures r.Failure? ==> items == old(items)
    {
      r := ApplySet(Current(items, eventId), expression, names, values);
      if r.Success? {
        items := items[eventId := r.value];
      }
    }

    method DeleteItem(eventId: string)
      modifies this
      ensures items == old(items) - {eventId}
    {
      items := items - {eventId};
    }
  }

  function Current(items: map<string, Item>, eventId: string): Item {
    if eventId in items then items[eventId] else map["eventId" := Str(eventId)]
  }

  // ---------------------------------------------------------------------------
  // Items and events
  // ---------------------------------------------------------------------------

  /** `item[k]`. */
  function Attribute(item: Item, k: string): Result<Value, EventError> {
    if k in item then Success(item[k]) else Failure(KeyMissing(k))
  }

  /** `item.get(k)`. */
  function Optional(item: Item, k: string): Value {
    if k in item then item[k] else Null
  }

  /** The event built from a stored item, as `get`, `list` and `update` build
      it: the required attributes in order, then the checks of the model. */
  function FromItem(item: Item, validDate: string -> bool): Result<Event, EventError> {
    var eventId :- Attribute(item, "eventId");
    var title :- Attribute(item, "title");
    var description :- Attribute(item, "description");
    var date :- Attribute(item, "date");
    var location :- Attribute(item, "location");
    var capacity :- Attribute(item, "capacity");
    var organizer :- Attribute(item, "organizer");
    var status :- Attribute(item, "status");
    Validate(Event(eventId, title, description, date, location, capacity, organizer, status,
                   Optional(item, "createdAt"), Optional(item, "updatedAt")), validDate)
  }

  /** `a or b`. */
  function Or(a: Value, b: Value): Value {
    if Truthy(a) then a else b
  }

  /** The item `create` stores: the timestamps are the event's own when set,
      else the current time. */
  function ToItem(e: Event, now: string): Item {
    map[ "eventId" := e.eventId, "title" := e.title, "description" := e.description,
         "date" := e.date, "location" := e.location, "capacity" := e.capacity,
         "organizer" := e.organizer, "status" := e.status,
         "createdAt" := Or(e.createdAt, Str(now)), "updatedAt" := Or(e.updatedAt, Str(now)) ]
  }

  /** The event `create` returns: its unset timestamps filled in. */
  function Stamped(e: Event, now: string): (r: Event)
    ensures Truthy(r.createdAt) || r.createdAt == Str(now)
    ensures Truthy(r.updatedAt) || r.updatedAt == Str(now)
    ensures Truthy(e.createdAt) ==> r.createdAt == e.createdAt
    ensures Truthy(e.updatedAt) ==> r.updatedAt == e.updatedAt
  {
    e.(createdAt := Or(e.createdAt, Str(now)), updatedAt := Or(e.updatedAt, Str(now)))
  }

  /** `get`. */
  function GetEvent(items: map<string, Item>, eventId: string, validDate: string -> bool)
    : Result<Option<Event>, EventError>
  {
    if eventId !in items then Success(None)
    else
      var e :- FromItem(items[eventId], validDate);
      Success(Some(e))
  }

  /** `exists`: `get` is not None; a `get` that raises raises here too. */
  function Exists(items: map<string, Item>, eventId: string, validDate: string -> bool): (r: Result<bool, EventError>)
    ensures r == Success(false) <==> eventId !in items
    ensures r == Success(true) <==> eventId in items && FromItem(items[eventId], validDate).Success?
  {
    var found :- GetEvent(items, eventId, validDate);
    Success(found.Some?)
  }

  // ---------------------------------------------------------------------------
  // list
  // ---------------------------------------------------------------------------

  /** The order a scan returns items in is the table's; the model uses
      ascending key order. */
  function ScanOrder(items: map<string, Item>): seq<string> {
    SortStrings(items.Keys)
  }

  /** `FilterExpression=Attr('status').eq(status)`. */
  function Matching(items: map<string, Item>, keys: seq<string>, status: Value): (r: seq<string>)
    requires forall i :: 0 <= i < |keys| ==> keys[i] in items
    ensures forall k :: k in r <==> k in keys && "status" in items[k] && items[k]["status"] == status
  {
    if keys == [] then []
    else
      var rest := Matching(items, keys[1..], status);
      var item := items[keys[0]];
      if "status" in item && item["status"] == status then [keys[0]] + rest else rest
  }

  /** The list comprehension building an event from each item. */
  function FromItems(items: map<string, Item>, keys: seq<string>, validDate: string -> bool)
    : (r: Result<seq<Event>, EventError>)
    requires forall i :: 0 <= i < |keys| ==> keys[i] in items
    ensures r.Success? <==> forall i :: 0 <= i < |keys| ==> FromItem(items[keys[i]], validDate).Success?
    ensures r.Success? ==> |r.value| == |keys|
    ensures r.Success? ==> forall i :: 0 <= i < |keys| ==> r.value[i] == FromItem(items[keys[i]], validDate).value
  {
    if keys == [] then Success([])
    else
      var first :- FromItem(items[keys[0]], validDate);
      var rest :- FromItems(items, keys[1..], validDate);
      Success([first] + rest)
  }

  /** `list`: every item when `status` is falsy, else the items whose status
      equals it. */
  function ListEvents(items: map<string, Item>, status: Value, validDate: string -> bool)
    : Result<seq<Event>, EventError>
  {
    var keys := ScanOrder(items);
    var selected := if Truthy(status) then Matching(items, keys, status) else keys;
    FromItems(items, selected, validDate)
  }

  /** The items `list` picks: all of them when `status` is falsy, else
      those whose stored status equals it. */
  ghost predicate Selected(items: map<string, Item>, status: Value, id: string) {
    id in items && (Truthy(status) ==> "status" in items[id] && items[id]["status"] == status)
  }

  /** Every item `list` picks makes a valid event. */
  ghost predicate SelectedReadable(items: map<string, Item>, status: Value, validDate: string -> bool) {
    forall id :: Selected(items, status, id) ==> FromItem(items[id], validDate).Success?
  }

  /** The keys `list` converts are exactly the selected items. */
  lemma SelectedKeys(items: map<string, Item>, status: Value)
    ensures var keys := ScanOrder(items);
      var selected := if Truthy(status) then Matching(items, keys, status) else keys;
      forall id :: id in selected <==> Selected(items, status, id)
  {
  }

  /** `list` succeeds exactly when every item it picks is readable. */
  lemma ListSucceeds(items: map<string, Item>, status: Value, validDate: string -> bool)
    ensures ListEvents(items, status, validDate).Success? <==> SelectedReadable(items, status, validDate)
  {
    if SelectedReadable(items, status, validDate) {
      ReadableLists(items, status, validDate);
    }
    if ListEvents(items, status, validDate).Success? {
      ListedReadable(items, status, validDate);
    }
  }

  /** Readable picks make `list` succeed. */
  lemma ReadableLists(items: map<string, Item>, status: Value, validDate: string -> bool)
    requires SelectedReadable(items, status, validDate)
    ensures ListEvents(items, status, validDate).Success?
  {
    var keys := ScanOrder(items);
    var selected := if Truthy(status) then Matching(items, keys, status) else keys;
    SelectedKeys(items, status);
    forall i | 0 <= i < |selected| ensures FromItem(items[selected[i]], validDate).Success? {
      assert selected[i] in selected;
    }
  }

  /** A `list` that succeeds has read every item it picks. */
  lemma ListedReadable(items: map<string, Item>, status: Value, validDate: string -> bool)
    requires ListEvents(items, status, validDate).Success?
    ensures SelectedReadable(items, status, validDate)
  {
    var keys := ScanOrder(items);
    var selected := if Truthy(status) then Matching(items, keys, status) else keys;
    SelectedKeys(items, status);
    forall id | Selected(items, status, id) ensures FromItem(items[id], validDate).Success? {
      var i :| 0 <= i < |selected| && selected[i] == id;
    }
  }

  /** Each listed event is the event of a stored item, with the requested
      status when one is given. */
  lemma ListedIsStored(items: map<string, Item>, status: Value, validDate: string -> bool, i: nat)
    returns (id: string)
    requires ListEvents(items, status, validDate).Success?
    requires i < |ListEvents(items, status, validDate).value|
    ensures var e := ListEvents(items, status, validDate).value[i];
      && id in items && FromItem(items[id], validDate) == Success(e)
      && (Truthy(status) ==> e.status == status)
  {
    var keys := ScanOrder(items);
    var selected := if Truthy(status) then Matching(items, keys, status) else keys;
    id := selected[i];
    FromItemFields(items[id], validDate);
  }

  /** When every item `list` picks is readable, the event of each stored
      item with the requested status, or of every stored item when none is
      given, is listed. */
  lemma StoredIsListed(items: map<string, Item>, status: Value, validDate: string -> bool, id: string)
    returns (i: nat)
    requires SelectedReadable(items, status, validDate) && Selected(items, status, id)
    ensures ListEvents(items, status, validDate).Success?
    ensures i < |ListEvents(items, status, validDate).value|
    ensures ListEvents(items, status, validDate).value[i] == FromItem(items[id], validDate).value
  {
    ListSucceeds(items, status, validDate);
    var keys := ScanOrder(items);
    var selected := if Truthy(status) then Matching(items, keys, status) else keys;
    SelectedKeys(items, status);
    assert id in selected;
    i :| 0 <= i < |selected| && selected[i] == id;
  }

  /** A read event's status is the stored one. */
  lemma FromItemStatus(item: Item, validDate: string -> bool)
    requires FromItem(item, validDate).Success?
    ensures "status" in item && item["status"] == FromItem(item, validDate).value.status
  {
    ValidateAccepts(FromItem(item, validDate).value, validDate);
  }

  /** A read event carries the stored attributes. */
  lemma FromItemFields(item: Item, validDate: string -> bool)
    requires FromItem(item, validDate).Success?
    ensures var e := FromItem(item, validDate).value;
      && e.eventId == item["eventId"] && e.title == item["title"]
      && e.description == item["description"] && e.date == item["date"]
      && e.location == item["location"] && e.capacity == item["capacity"]
      && e.organizer == item["organizer"] && e.status == item["status"]
      && e.createdAt == Optional(item, "createdAt") && e.updatedAt == Optional(item, "updatedAt")
      && WellFormed(e, validDate)
  {
    var e := FromItem(item, validDate).value;
    ValidateAccepts(e, validDate);
  }

  /** An event `get` returns is stored under its id and reads back from its
      item. */
  lemma StoredEvent(items: map<string, Item>, eventId: string, e: Event, validDate: string -> bool)
    requires GetEvent(items, eventId, validDate) == Success(Some(e))
    ensures eventId in items && FromItem(items[eventId], validDate) == Success(e)
  {
  }

  /** An item holding the attributes of a well-formed event reads back as
      that event. */
  lemma FromItemOf(item: Item, e: Event, validDate: string -> bool)
    requires WellFormed(e, validDate)
    requires && "eventId" in item && item["eventId"] == e.eventId
             && "title" in item && item["title"] == e.title
             && "description" in item && item["description"] == e.description
             && "date" in item && item["date"] == e.date
             && "location" in item && item["location"] == e.location
             && "capacity" in item && item["capacity"] == e.capacity
             && "organizer" in item && item["organizer"] == e.organizer
             && "status" in item && item["status"] == e.status
             && Optional(item, "createdAt") == e.createdAt
             && Optional(item, "updatedAt") == e.updatedAt
    ensures FromItem(item, validDate) == Success(e)
  {
    ValidateAccepts(e, validDate);
  }

  // ---------------------------------------------------------------------------
  // The repository
  // ---------------------------------------------------------------------------

  /** `update_item`'s request for `update`, applied to the stored item. */
  function UpdateWrite(item: Item, updates: Dict<Value>): Result<Item, EventError> {
    ApplySet(item, UpdateExpression(Keys(updates)), AttributeNames(Keys(updates)), AttributeValues(updates))
  }

  /** The table, the caller's updates and the answer after `update`. */
  datatype Written = Written(items: map<string, Item>, updates: Dict<Value>, result: Result<Event, EventError>)

  /** `update`: a missing or unreadable event stops it before anything is
      written; otherwise the caller's updates gain `updatedAt`, the request
      built from them is applied, and the item it leaves is read back. */
  function UpdateEffect(items: map<string, Item>, eventId: string, updates: Dict<Value>, now: string,
                        validDate: string -> bool): Written
  {
    var found := Exists(items, eventId, validDate);
    if found.Failure? then Written(items, updates, Failure(found.error))
    else if !found.value then Written(items, updates, Failure(NotFound))
    else
      var stamped := Assigned(updates, "updatedAt", Str(now));
      match UpdateWrite(items[eventId], stamped)
      case Failure(err) => Written(items, stamped, Failure(err))
      case Success(item) => Written(items[eventId := item], stamped, FromItem(item, validDate))
  }

  class EventRepository {
    const table: EventsTable
    const validDate: string -> bool

    constructor (table: EventsTable, validDate: string -> bool)
      ensures this.table == table && this.validDate == validDate
    {
      this.table := table;
      this.validDate := validDate;
    }

    /** `create`: stores the item without looking for an existing one, and
        returns the event with its timestamps set. */
    method Create(event: Event, now: string) returns (r: Result<Event, EventError>)
      modifies table
      ensures event.eventId.Str? ==>
                && r == Success(Stamped(event, now))
                && table.items == old(table.items)[event.eventId.s := ToItem(event, now)]
      ensures !event.eventId.Str? ==> r == Failure(StoreRejected) && table.items == old(table.items)
    {
      var item := ToItem(event, now);
      var put := table.PutItem(item);
      if put.Failure? {
        return Failure(put.error);
      }
      var created := event;
      if !Truthy(created.createdAt) {
        created := created.(createdAt := item["createdAt"]);
      }
      if !Truthy(created.updatedAt) {
        created := created.(updatedAt := item["updatedAt"]);
      }
      r := Success(created);
    }

    /** `update`: checks the event exists, adds `updatedAt` to the caller's
        updates, then sends the request built from them and reads back the
        item it leaves. */
    method Update(eventId: string, updates: PyDict<Value>, now: string) returns (r: Result<Event, EventError>)
      modifies table, updates
      ensures var w := UpdateEffect(old(table.items), eventId, old(updates.entries), now, validDate);
        table.items == w.items && updates.entries == w.updates && r == w.result
    {
      var found := Exists(table.items, eventId, validDate);
      if found.Failure? {
        return Failure(found.error);
      }
      if !found.value {
        return Failure(NotFound);
      }
      updates.Assign("updatedAt", Str(now));
      var keys := Keys(updates.entries);
      var expression := UpdateExpression(keys);
      var names := AttributeNames(keys);
      var values := AttributeValues(updates.entries);
      var written := table.UpdateItem(eventId, expression, names, values);
      if written.Failure? {
        return Failure(written.error);
      }
      r := FromItem(written.value, validDate);
    }

    /** `delete`: checks the event exists, then removes it. */
    method Delete(eventId: string) returns (r: Result<(), EventError>)
      modifies table
      ensures var found := Exists(old(table.items), eventId, validDate);
        && (found.Failure? ==> r == Failure(found.error) && table.items == old(table.items))
        && (found == Success(false) ==> r == Failure(NotFound) && table.items == old(table.items))
        && (found == Success(true) ==> r == Success(()) && table.items == old(table.items) - {eventId})
    {
      var found := Exists(table.items, eventId, validDate);
      if found.Failure? {
        return Failure(found.error);
      }
      if !found.value {
        return Failure(NotFound);
      }
      table.DeleteItem(eventId);
      r := Success(());
    }
  }

  // ---------------------------------------------------------------------------
  // What the writes leave behind
  // ---------------------------------------------------------------------------

  /** After `create` of a valid event, `get` returns the event `create`
      returned, whatever was stored under its id before. */
  lemma CreateThenGet(items: map<string, Item>, e: Event, now: string, validDate: string -> bool)
    requires e.eventId.Str? && Validate(e, validDate).Success?
    ensures GetEvent(items[e.eventId.s := ToItem(e, now)], e.eventId.s, validDate)
            == Success(Some(Stamped(e, now)))
  {
    ValidateAccepts(e, validDate);
    ValidateAccepts(Stamped(e, now), validDate);
  }

  /** The caller's updates once `update` has added `updatedAt`. */
  lemma StampedUpdates(updates: Dict<Value>, now: string)
    requires KeysDistinct(updates)
    requires AllSettable(updates)
    ensures var stamped := Assigned(updates, "updatedAt", Str(now));
      && KeysDistinct(stamped) && stamped != []
      && AllSettable(stamped)
      && Get(stamped, "updatedAt") == Some(Str(now))
      && (forall a :: a != "updatedAt" ==> Get(stamped, a) == Get(updates, a))
      && (forall a :: a in Keys(stamped) <==> a in Keys(updates) || a == "updatedAt")
  {
    var stamped := Assigned(updates, "updatedAt", Str(now));
    AssignedGet(updates, "updatedAt", Str(now));
    AssignedKeys(updates, "updatedAt", Str(now));
    AssignedDistinct(updates, "updatedAt", Str(now));
    StampedNames(updates, now);
  }

  lemma StampedNames(updates: Dict<Value>, now: string)
    requires AllSettable(updates)
    ensures var stamped := Assigned(updates, "updatedAt", Str(now));
      AllSettable(stamped)
  {
    var stamped := Assigned(updates, "updatedAt", Str(now));
    AssignedKeys(updates, "updatedAt", Str(now));
    var ks := Keys(updates);
    assert Settable("updatedAt") by {
      var t := "updatedAt";
      assert forall i :: 0 <= i < |t| ==> t[i] != ' ' && t[i] != ',';
      assert t[0] != "eventId"[0];
    }
    assert forall i :: 0 <= i < |ks| ==> Settable(ks[i]);
    forall i | 0 <= i < |stamped| ensures Settable(stamped[i].0) {
      assert stamped[i].0 == Keys(stamped)[i];
    }
  }

  /** An update whose keys fit in placeholders and leave the key alone
      writes exactly those keys and `updatedAt` over the stored item: every
      other attribute keeps its value, and the caller's updates now hold
      `updatedAt` too. */
  lemma UpdateWrites(item: Item, updates: Dict<Value>, now: string, a: string)
    requires KeysDistinct(updates)
    requires AllSettable(updates)
    ensures var stamped := Assigned(updates, "updatedAt", Str(now));
      && Get(stamped, "updatedAt") == Some(Str(now))
      && UpdateWrite(item, stamped).Success?
      && var after := UpdateWrite(item, stamped).value;
         && "updatedAt" in after && after["updatedAt"] == Str(now)
         && (a in after <==> a in item || a in Keys(updates) || a == "updatedAt")
         && (a != "updatedAt" && a in after ==>
               after[a] == match Get(updates, a) case Some(v) => v case None => item[a])
  {
    var stamped := Assigned(updates, "updatedAt", Str(now));
    StampedUpdates(updates, now);
    UpdateApplies(item, stamped);
    OverlayAt(item, stamped, a);
    OverlayAt(item, stamped, "updatedAt");
  }

  /** `update` adds and removes no item and changes at most the one under
      its id. */
  lemma UpdateEffectFrame(items: map<string, Item>, eventId: string, updates: Dict<Value>, now: string,
                          validDate: string -> bool)
    ensures var w := UpdateEffect(items, eventId, updates, now, validDate);
      && w.items.Keys == items.Keys
      && (forall id :: id in items && id != eventId ==> w.items[id] == items[id])
  {
    if Exists(items, eventId, validDate) == Success(true) {
      assert eventId in items;
    }
  }

  /** `update` of a readable event whose request applies. */
  lemma UpdateEffectOf(items: map<string, Item>, eventId: string, updates: Dict<Value>, now: string,
                       validDate: string -> bool, after: Item)
    requires eventId in items && FromItem(items[eventId], validDate).Success?
    requires UpdateWrite(items[eventId], Assigned(updates, "updatedAt", Str(now))) == Success(after)
    ensures UpdateEffect(items, eventId, updates, now, validDate)
            == Written(items[eventId := after], Assigned(updates, "updatedAt", Str(now)), FromItem(after, validDate))
  {
  }

  /** `update` of an id with no item reports it missing before the
      caller's updates or the table are touched. */
  lemma UpdateMissing(items: map<string, Item>, eventId: string, updates: Dict<Value>, now: string,
                      validDate: string -> bool)
    requires eventId !in items
    ensures UpdateEffect(items, eventId, updates, now, validDate) == Written(items, updates, Failure(NotFound))
  {
  }

  /** Every key of the stamped updates is one of the caller's or
      `updatedAt`, so plain names stay plain. */
  lemma StampedPlain(updates: Dict<Value>, now: string)
    requires forall i :: 0 <= i < |updates| ==> PlainName(updates[i].0)
    ensures var stamped := Assigned(updates, "updatedAt", Str(now));
      forall i :: 0 <= i < |stamped| ==> PlainName(stamped[i].0)
  {
    var stamped := Assigned(updates, "updatedAt", Str(now));
    AssignedKeys(updates, "updatedAt", Str(now));
    var ks := Keys(updates);
    assert PlainName("updatedAt") by {
      var t := "updatedAt";
      assert forall i :: 0 <= i < |t| ==> t[i] != ' ' && t[i] != ',';
    }
    assert forall i :: 0 <= i < |ks| ==> PlainName(ks[i]);
    forall i | 0 <= i < |stamped| ensures PlainName(stamped[i].0) {
      assert stamped[i].0 == Keys(stamped)[i];
    }
  }

  /** Updates that name `eventId` are refused by the table: the stored item
      stays as it was, but the caller's updates have already gained
      `updatedAt`. */
  lemma UpdateKeyRefused(items: map<string, Item>, eventId: string, updates: Dict<Value>, now: string,
                         validDate: string -> bool)
    requires eventId in items && FromItem(items[eventId], validDate).Success?
    requires forall i :: 0 <= i < |updates| ==> PlainName(updates[i].0)
    requires "eventId" in Keys(updates)
    ensures UpdateEffect(items, eventId, updates, now, validDate)
            == Written(items, Assigned(updates, "updatedAt", Str(now)), Failure(StoreRejected))
  {
    var stamped := Assigned(updates, "updatedAt", Str(now));
    AssignedKeys(updates, "updatedAt", Str(now));
    StampedPlain(updates, now);
    KeyUpdateRefused(items[eventId], stamped);
  }

  /** After `delete`, `get` finds nothing. */
  lemma DeleteThenGet(items: map<string, Item>, eventId: string, validDate: string -> bool)
    ensures GetEvent(items - {eventId}, eventId, validDate) == Success(None)
    ensures Exists(items - {eventId}, eventId, validDate) == Success(false)
  {
  }
}
