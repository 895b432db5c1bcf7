/** The registration system's domain entities (backend/registration/models.py)
    and its error kinds (backend/registration/exceptions.py). */
module RegistrationModels {
  import opened Results
  import opened Text

  datatype User = User(userId: string, name: string)

  /** An event with its capacity, waitlist policy, registered users and the
      ordered waitlist. */
  datatype Event = Event(
    eventId: string,
    name: string,
    capacity: int,
    waitlistEnabled: bool,
    registeredUsers: seq<string>,
    waitlist: seq<string>)

  /** The status tag of a RegistrationResult (backend/registration/service.py),
      which is also the list a user is on: GSI1SK "REGISTERED" or "WAITLISTED"
      in the table. */
  datatype Status = Registered | Waitlisted

  /** The three messages a ValidationError carries. */
  datatype ValidationFailure = UserIdEmpty | NameEmpty | CapacityNotPositive

  /** The exception classes, one kind each. `MalformedRecord` stands for the
      KeyError Python raises when a stored record lacks an attribute that a read
      looks up. */
  datatype Error =
    | Invalid(reason: ValidationFailure)
    | DuplicateUser
    | EntityNotFound
    | EventFull
    | AlreadyRegistered
    | NotRegistered
    | MalformedRecord

  /** The construction `User(user_id, name)` with its `__post_init__` checks:
      the user id first, then the name, each rejected when empty or
      whitespace only. */
  function NewUser(userId: string, name: string): (r: Result<User, ValidationFailure>)
    ensures r == Failure(UserIdEmpty) <==> IsBlank(userId)
    ensures r == Failure(NameEmpty) <==> !IsBlank(userId) && IsBlank(name)
    ensures r.Success? <==> !IsBlank(userId) && !IsBlank(name)
    ensures r.Success? ==> r.value == User(userId, name)
  {
    StripEmptyIffBlank(userId);
    StripEmptyIffBlank(name);
    if userId == "" || Strip(userId) == "" then Failure(UserIdEmpty)
    else if name == "" || Strip(name) == "" then Failure(NameEmpty)
    else Success(User(userId, name))
  }

  /** The construction `Event(...)` with its `__post_init__` check: the
      capacity is the only field checked, and must be positive. */
  function NewEvent(eventId: string, name: string, capacity: int, waitlistEnabled: bool,
                    registeredUsers: seq<string>, waitlist: seq<string>): (r: Result<Event, ValidationFailure>)
    ensures r.Failure? <==> capacity <= 0
    ensures r.Failure? ==> r.error == CapacityNotPositive
    ensures r.Success? ==> r.value == Event(eventId, name, capacity, waitlistEnabled, registeredUsers, waitlist)
  {
    if capacity <= 0 then Failure(CapacityNotPositive)
    else Success(Event(eventId, name, capacity, waitlistEnabled, registeredUsers, waitlist))
  }

  predicate IsFull(e: Event) {
    |e.registeredUsers| >= e.capacity
  }

  predicate HasAvailableCapacity(e: Event) {
    |e.registeredUsers| < e.capacity
  }

  /** Exactly one of `is_full()` and `has_available_capacity()` holds. */
  lemma FullXorAvailable(e: Event)
    ensures IsFull(e) <==> !HasAvailableCapacity(e)
  {
  }

  /** A whitespace-only or empty user id is rejected with the user-id message,
      whatever the name. */
  lemma BlankUserIdRejected(userId: string, name: string)
    requires forall i :: 0 <= i < |userId| ==> userId[i] in {' ', '\t', '\n', '\r'}
    ensures NewUser(userId, name) == Failure(UserIdEmpty)
  {
  }

  /** A newly constructed event has no registered users and an empty waitlist. */
  lemma NewEventStartsEmpty(eventId: string, name: string, capacity: int, waitlistEnabled: bool)
    requires capacity > 0
    ensures NewEvent(eventId, name, capacity, waitlistEnabled, [], []).Success?
    ensures var e := NewEvent(eventId, name, capacity, waitlistEnabled, [], []).value;
            e.registeredUsers == [] && e.waitlist == [] && HasAvailableCapacity(e)
  {
  }
}
