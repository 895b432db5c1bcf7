/** The event record of backend/events/models.py and the checks of its
    `__post_init__`. Field values are dynamically typed in the source; the
    values that reach an event are null, strings and integers. Whether a
    date string parses (`datetime.fromisoformat`, then `strptime` with
    `%Y-%m-%d`) is the parameter `validDate`. */
module EventModels {
  import opened Results

  datatype Value = Null | Str(s: string) | Int(i: int)

  /** Python truthiness: `None`, `""` and `0` are false. */
  predicate Truthy(v: Value) {
    match v
    case Null => false
    case Str(s) => s != ""
    case Int(i) => i != 0
  }

  datatype Event = Event(
    eventId: Value,
    title: Value,
    description: Value,
    date: Value,
    location: Value,
    capacity: Value,
    organizer: Value,
    status: Value,
    createdAt: Value,
    updatedAt: Value)

  /** The reasons of `InvalidEventDataError`. */
  datatype Invalidity =
    | TitleLength
    | DescriptionLength
    | DateFormat
    | LocationLength
    | CapacityRange
    | OrganizerLength
    | StatusUnknown
    | MissingField(key: string)

  datatype EventError =
    | Invalid(reason: Invalidity)   // InvalidEventDataError
    | NotFound                      // EventNotFoundError
    | KeyMissing(key: string)       // a KeyError reading a stored item
    | TypeFault                     // a TypeError or AttributeError on a value of the wrong type
    | StoreRejected                 // a write the table refuses

  const MaxTitle: nat := 200
  const MaxDescription: nat := 2000
  const MaxLocation: nat := 200
  const MaxOrganizer: nat := 200
  const MaxCapacity: int := 100000
  const Statuses: seq<string> := ["draft", "published", "cancelled", "completed", "active"]

  // ---------------------------------------------------------------------------
  // The seven checks
  // ---------------------------------------------------------------------------

  /** `if not v or len(v) > max`: a falsy value is invalid, and `len` of an
      integer raises. */
  function TextCheck(v: Value, max: nat, reason: Invalidity): Option<EventError> {
    match v
    case Null => Some(Invalid(reason))
    case Str(s) => if s == "" || |s| > max then Some(Invalid(reason)) else None
    case Int(i) => if i == 0 then Some(Invalid(reason)) else Some(TypeFault)
  }

  /** `self.date.replace(...)` raises on a value that is not a string. */
  function DateCheck(v: Value, validDate: string -> bool): Option<EventError> {
    match v
    case Str(s) => if validDate(s) then None else Some(Invalid(DateFormat))
    case _ => Some(TypeFault)
  }

  /** `if self.capacity <= 0 or self.capacity > 100000`: comparing anything
      but a number with 0 raises. */
  function CapacityCheck(v: Value): Option<EventError> {
    match v
    case Int(i) => if i <= 0 || i > MaxCapacity then Some(Invalid(CapacityRange)) else None
    case _ => Some(TypeFault)
  }

  function StatusCheck(v: Value): Option<EventError> {
    if v.Str? && v.s in Statuses then None else Some(Invalid(StatusUnknown))
  }

  /** `Event.__post_init__`: the checks in their order; the first that fails
      raises. */
  function Validate(e: Event, validDate: string -> bool): Result<Event, EventError> {
    var title := TextCheck(e.title, MaxTitle, TitleLength);
    if title.Some? then Failure(title.value) else
    var description := TextCheck(e.description, MaxDescription, DescriptionLength);
    if description.Some? then Failure(description.value) else
    var date := DateCheck(e.date, validDate);
    if date.Some? then Failure(date.value) else
    var location := TextCheck(e.location, MaxLocation, LocationLength);
    if location.Some? then Failure(location.value) else
    var capacity := CapacityCheck(e.capacity);
    if capacity.Some? then Failure(capacity.value) else
    var organizer := TextCheck(e.organizer, MaxOrganizer, OrganizerLength);
    if organizer.Some? then Failure(organizer.value) else
    var status := StatusCheck(e.status);
    if status.Some? then Failure(status.value) else
    Success(e)
  }

  // ---------------------------------------------------------------------------
  // What the checks accept, and in which order they report
  // ---------------------------------------------------------------------------

  predicate TextWithin(v: Value, max: nat) {
    v.Str? && 1 <= |v.s| <= max
  }

  /** An event the model accepts: every text between 1 and its maximum
      length, a parsable date, a capacity in 1..100000 and a known status.
      Nothing else is checked: a whitespace-only title is accepted, and the
      id and timestamps are not looked at. */
  ghost predicate WellFormed(e: Event, validDate: string -> bool) {
    && TextWithin(e.title, MaxTitle)
    && TextWithin(e.description, MaxDescription)
    && e.date.Str? && validDate(e.date.s)
    && TextWithin(e.location, MaxLocation)
    && e.capacity.Int? && 1 <= e.capacity.i <= MaxCapacity
    && TextWithin(e.organizer, MaxOrganizer)
    && e.status.Str? && e.status.s in Statuses
  }

  lemma TextCheckPasses(v: Value, max: nat, reason: Invalidity)
    ensures TextCheck(v, max, reason).None? <==> TextWithin(v, max)
    ensures TextCheck(v, max, reason).Some? ==>
              TextCheck(v, max, reason).value in {Invalid(reason), TypeFault}
  {
  }

  /** The checks accept exactly the well-formed events, and return them
      unchanged. */
  lemma ValidateAccepts(e: Event, validDate: string -> bool)
    ensures Validate(e, validDate).Success? <==> WellFormed(e, validDate)
    ensures Validate(e, validDate).Success? ==> Validate(e, validDate).value == e
  {
    TextCheckPasses(e.title, MaxTitle, TitleLength);
    TextCheckPasses(e.description, MaxDescription, DescriptionLength);
    TextCheckPasses(e.location, MaxLocation, LocationLength);
    TextCheckPasses(e.organizer, MaxOrganizer, OrganizerLength);
  }

  /** The checks as a list, in the order the source runs them. */
  function Checks(e: Event, validDate: string -> bool): (r: seq<Option<EventError>>)
    ensures |r| == 7
  {
    [ TextCheck(e.title, MaxTitle, TitleLength),
      TextCheck(e.description, MaxDescription, DescriptionLength),
      DateCheck(e.date, validDate),
      TextCheck(e.location, MaxLocation, LocationLength),
      CapacityCheck(e.capacity),
      TextCheck(e.organizer, MaxOrganizer, OrganizerLength),
      StatusCheck(e.status) ]
  }

  /** The first failing check decides the error, whatever the later fields
      hold. */
  lemma FirstFailureWins(e: Event, validDate: string -> bool, k: nat)
    requires k < 7
    requires forall j :: 0 <= j < k ==> Checks(e, validDate)[j].None?
    requires Checks(e, validDate)[k].Some?
    ensures Validate(e, validDate) == Failure(Checks(e, validDate)[k].value)
  {
    var c := Checks(e, validDate);
    if k > 0 { assert c[0].None?; }
    if k > 1 { assert c[1].None?; }
    if k > 2 { assert c[2].None?; }
    if k > 3 { assert c[3].None?; }
    if k > 4 { assert c[4].None?; }
    if k > 5 { assert c[5].None?; }
  }

  /** A whitespace-only title passes: only emptiness and length are
      checked. */
  lemma BlankTitleAccepted()
    ensures TextCheck(Str("   "), MaxTitle, TitleLength) == None
  {
  }
}
