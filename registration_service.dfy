/** RegistrationService of backend/registration/service.py: each call is a
    method of the service class over the two repositories, proved to agree
    with a function of the table contents before it; lemmas then say what
    those functions do to a table that holds an event. */
module RegistrationServiceLayer {
  import opened Results
  import opened Text
  import opened RegistrationModels
  import opened RegistrationTable
  import opened RegistrationEngine
  import opened RegistrationRepositories
  import opened RegistrationLayout
  import opened RegistrationEffects

  // ---------------------------------------------------------------------------
  // What each call leaves behind
  // ---------------------------------------------------------------------------

  /** `create_user`: an existing user is a duplicate, checked before the
      new user is validated. */
  function CreateUserResult(items: map<Key, Item>, userId: string, name: string): Result<(map<Key, Item>, User), Error> {
    var known :- UserExists(items, userId);
    if known then Failure(DuplicateUser)
    else
      match NewUser(userId, name)
      case Failure(reason) => Failure(Invalid(reason))
      case Success(user) => Success((WithUser(items, user), user))
  }

  /** `create_event`: a new event with empty lists, stored over whatever
      the table holds under its key. */
  function CreateEventResult(items: map<Key, Item>, eventId: string, name: string, capacity: int,
                             waitlistEnabled: bool): Result<(map<Key, Item>, Event), Error> {
    match NewEvent(eventId, name, capacity, waitlistEnabled, [], [])
    case Failure(reason) => Failure(Invalid(reason))
    case Success(e) => Success((Created(items, e), e))
  }

  /** `register_user`: the user must exist and the event be found; then the
      decision of the engine on the event read, and its writes. */
  function RegisterResult(userItems: map<Key, Item>, items: map<Key, Item>, userId: string, eventId: string)
    : Result<(map<Key, Item>, Status), Error>
  {
    var known :- UserExists(userItems, userId);
    if !known then Failure(EntityNotFound)
    else
      var found :- GetEvent(items, eventId);
      if found.None? then Failure(EntityNotFound)
      else
        var step :- RegisterStep(found.value, userId);
        Success((RegisterWrites(items, eventId, found.value, userId), step.1))
  }

  /** `unregister_user`: the event must be found; then the decision of the
      engine on the event read, and its writes. */
  function UnregisterResult(items: map<Key, Item>, userId: string, eventId: string): Result<map<Key, Item>, Error> {
    var found :- GetEvent(items, eventId);
    if found.None? then Failure(EntityNotFound)
    else
      var next :- UnregisterStep(found.value, userId);
      UnregisterWrites(items, eventId, found.value, userId)
  }

  /** `get_event_registrations`. */
  function EventRegistrations(items: map<Key, Item>, eventId: string): Result<seq<string>, Error> {
    var found :- GetEvent(items, eventId);
    if found.None? then Failure(EntityNotFound) else Success(found.value.registeredUsers)
  }

  /** `register_user` once the user is known and the event `e` is read. */
  lemma RegisterResultOf(userItems: map<Key, Item>, items: map<Key, Item>, userId: string, eventId: string, e: Event)
    requires UserExists(userItems, userId) == Success(true) && GetEvent(items, eventId) == Success(Some(e))
    ensures RegisterResult(userItems, items, userId, eventId)
            == match RegisterStep(e, userId)
               case Failure(error) => Failure(error)
               case Success(step) => Success((RegisterWrites(items, eventId, e, userId), step.1))
  {
  }

  /** `unregister_user` once the event `e` is read. */
  lemma UnregisterResultOf(items: map<Key, Item>, userId: string, eventId: string, e: Event)
    requires GetEvent(items, eventId) == Success(Some(e))
    ensures UnregisterResult(items, userId, eventId)
            == if UnregisterStep(e, userId).Failure? then Failure(UnregisterStep(e, userId).error)
               else UnregisterWrites(items, eventId, e, userId)
  {
  }

  // ---------------------------------------------------------------------------
  // What the service does to a table that holds an event
  // ---------------------------------------------------------------------------

  /** The engine takes the same decisions on the event as read back, whose
      registered users are sorted, as on the event stored. */
  lemma SameDecisionsNormalized(e: Event, userId: string)
    requires Consistent(e)
    ensures var (a, b) := (RegisterStep(e, userId), RegisterStep(Normalized(e), userId));
      && (a.Success? <==> b.Success?)
      && (a.Failure? ==> a.error == b.error)
      && (a.Success? ==> a.value.1 == b.value.1)
    ensures var (a, b) := (UnregisterStep(e, userId), UnregisterStep(Normalized(e), userId));
      && (a.Success? <==> b.Success?)
      && (a.Failure? ==> a.error == b.error)
  {
    ReadBackConsistent(e);
  }

  /** `register_user` on a table holding event `e`, by a known user: the
      answer is the engine's on `e`, and a registration leaves the table
      holding the event the engine computes from the event as read. */
  lemma RegisterOnStoredEvent(userItems: map<Key, Item>, items: map<Key, Item>, e: Event, userId: string)
    requires UserExists(userItems, userId) == Success(true)
    requires StoresEvent(items, e) && |e.waitlist| < MaxWaitlist
    ensures var r := RegisterResult(userItems, items, userId, e.eventId);
      && (r.Success? <==> RegisterStep(e, userId).Success?)
      && (r.Failure? ==> r.error == RegisterStep(e, userId).error)
      && (r.Success? ==> r.value.1 == RegisterStep(e, userId).value.1
                         && RegisterStep(Normalized(e), userId).Success?
                         && StoresEvent(r.value.0, RegisterStep(Normalized(e), userId).value.0))
  {
    ReadBack(items, e);
    RegisterResultOf(userItems, items, userId, e.eventId, Normalized(e));
    SameDecisionsNormalized(e, userId);
    if RegisterStep(e, userId).Success? {
      RegisterKeepsStore(items, Normalized(e), userId);
    }
  }

  /** `unregister_user` on a table holding event `e` fails exactly for a user
      on neither list, and otherwise leaves the table holding the event the
      engine computes from the event as read: no write fails half way. */
  lemma UnregisterOnStoredEvent(items: map<Key, Item>, e: Event, userId: string)
    requires StoresEvent(items, e)
    ensures var r := UnregisterResult(items, userId, e.eventId);
      && (r.Failure? <==> userId !in e.registeredUsers && userId !in e.waitlist)
      && (r.Failure? ==> r.error == NotRegistered)
      && (r.Success? ==> UnregisterStep(Normalized(e), userId).Success?
                         && StoresEvent(r.value, UnregisterStep(Normalized(e), userId).value))
  {
    ReadBack(items, e);
    UnregisterResultOf(items, userId, e.eventId, Normalized(e));
    UnregisterOutcome(Normalized(e), userId);
    if UnregisterStep(Normalized(e), userId).Success? {
      UnregisterKeepsStore(items, Normalized(e), userId);
    }
  }

  /** The user is checked first: an unknown user is not found, and a failed
      user read is that failure, whatever the event table holds. */
  lemma UnknownUserNotFound(userItems: map<Key, Item>, items: map<Key, Item>, userId: string, eventId: string)
    ensures UserExists(userItems, userId) == Success(false) ==>
              RegisterResult(userItems, items, userId, eventId) == Failure(EntityNotFound)
    ensures UserExists(userItems, userId).Failure? ==>
              RegisterResult(userItems, items, userId, eventId) == Failure(UserExists(userItems, userId).error)
  {
  }

  /** Without a METADATA record the event is not found by any of the calls
      that read it. */
  lemma MissingEventNotFound(userItems: map<Key, Item>, items: map<Key, Item>, userId: string, eventId: string)
    requires Key(EventPk(eventId), MetadataSk) !in items
    ensures UserExists(userItems, userId) == Success(true) ==>
              RegisterResult(userItems, items, userId, eventId) == Failure(EntityNotFound)
    ensures UnregisterResult(items, userId, eventId) == Failure(EntityNotFound)
    ensures EventRegistrations(items, eventId) == Failure(EntityNotFound)
  {
    GetEventOutcome(items, eventId);
  }

  /** `create_user` fails exactly when the user exists or is invalid; a
      created user is then found, and creating it again is a duplicate. */
  lemma CreateUserOutcome(items: map<Key, Item>, userId: string, name: string)
    requires UserExists(items, userId).Success?
    ensures var r := CreateUserResult(items, userId, name);
      && (r == Failure(DuplicateUser) <==> UserExists(items, userId) == Success(true))
      && (r.Success? <==> UserExists(items, userId) == Success(false) && NewUser(userId, name).Success?)
      && (r.Success? ==>
            && r.value.1 == User(userId, name)
            && GetUser(r.value.0, userId) == Success(Some(r.value.1))
            && CreateUserResult(r.value.0, userId, name) == Failure(DuplicateUser))
  {
    if CreateUserResult(items, userId, name).Success? {
      UserRoundTrip(items, User(userId, name));
    }
  }

  /** `create_event` over a table without list records for the event stores
      a new event with no registrations and an empty waitlist, which `get`
      then returns. */
  lemma CreateEventRoundTrip(items: map<Key, Item>, eventId: string, name: string, capacity: int,
                             waitlistEnabled: bool)
    requires NoListRecords(items, eventId)
    ensures var r := CreateEventResult(items, eventId, name, capacity, waitlistEnabled);
      && (r.Success? <==> capacity > 0)
      && (r.Success? ==>
            && r.value.1 == Event(eventId, name, capacity, waitlistEnabled, [], [])
            && StoresEvent(r.value.0, r.value.1)
            && GetEvent(r.value.0, eventId) == Success(Some(r.value.1)))
  {
    if capacity > 0 {
      var e := Event(eventId, name, capacity, waitlistEnabled, [], []);
      assert Normalized(e) == e;
      CreatedStores(items, e);
    }
  }

  // ---------------------------------------------------------------------------
  // The service
  // ---------------------------------------------------------------------------

  class RegistrationService {
    const users: UserRepository
    const events: EventRepository

    constructor (users: UserRepository, events: EventRepository)
      ensures this.users == users && this.events == events
    {
      this.users := users;
      this.events := events;
    }

    method CreateUser(userId: string, name: string) returns (r: Result<User, Error>)
      modifies users.table
      ensures var spec := CreateUserResult(old(users.table.items), userId, name);
        && (r.Success? <==> spec.Success?)
        && (r.Failure? ==> r.error == spec.error && users.table.items == old(users.table.items))
        && (r.Success? ==> r.value == spec.value.1 && users.table.items == spec.value.0)
    {
      var known := UserExists(users.table.items, userId);
      if known.Failure? {
        return Failure(known.error);
      }
      if known.value {
        return Failure(DuplicateUser);
      }
      var user := NewUser(userId, name);
      if user.Failure? {
        return Failure(Invalid(user.error));
      }
      var created := users.Create(user.value);
      r := Success(created);
    }

    method CreateEvent(eventId: string, name: string, capacity: int, waitlistEnabled: bool)
      returns (r: Result<Event, Error>)
      modifies events.table
      ensures var spec := CreateEventResult(old(events.table.items), eventId, name, capacity, waitlistEnabled);
        && (r.Success? <==> spec.Success?)
        && (r.Failure? ==> r.error == spec.error && events.table.items == old(events.table.items))
        && (r.Success? ==> r.value == spec.value.1 && events.table.items == spec.value.0)
    {
      var event := NewEvent(eventId, name, capacity, waitlistEnabled, [], []);
      if event.Failure? {
        return Failure(Invalid(event.error));
      }
      var created := events.Create(event.value);
      r := Success(created);
    }

    /** Registers the user: the event read is changed in place and each of its
        changes is written as the source writes it. */
    method RegisterUser(userId: string, eventId: string) returns (r: Result<Status, Error>)
      modifies events.table
      ensures var spec := RegisterResult(old(users.table.items), old(events.table.items), userId, eventId);
        && (r.Success? <==> spec.Success?)
        && (r.Failure? ==> r.error == spec.error && events.table.items == old(events.table.items))
        && (r.Success? ==> r.value == spec.value.1 && events.table.items == spec.value.0)
    {
      var known := UserExists(users.table.items, userId);
      if known.Failure? {
        return Failure(known.error);
      }
      if !known.value {
        return Failure(EntityNotFound);
      }
      var found := GetEvent(events.table.items, eventId);
      if found.Failure? {
        return Failure(found.error);
      }
      if found.value.None? {
        return Failure(EntityNotFound);
      }
      var event := found.value.value;
      RegisterResultOf(users.table.items, events.table.items, userId, eventId, event);
      if userId in event.registeredUsers {
        return Failure(AlreadyRegistered);
      }
      if userId in event.waitlist {
        return Failure(AlreadyRegistered);
      }
      if HasAvailableCapacity(event) {
        event := event.(registeredUsers := event.registeredUsers + [userId]);
        events.AddRegistration(eventId, userId);
        var _ := events.Update(event);
        r := Success(Registered);
      } else if event.waitlistEnabled {
        event := event.(waitlist := event.waitlist + [userId]);
        events.AddToWaitlist(eventId, userId, |event.waitlist| - 1);
        var _ := events.Update(event);
        r := Success(Waitlisted);
      } else {
        r := Failure(EventFull);
      }
    }

    /** Unregisters the user. After a failed read of a waitlist record half
        way, the writes already done stay in the table. */
    method UnregisterUser(userId: string, eventId: string) returns (r: Result<(), Error>)
      modifies events.table
      ensures var spec := UnregisterResult(old(events.table.items), userId, eventId);
        && (r.Success? <==> spec.Success?)
        && (r.Failure? ==> r.error == spec.error)
        && (r.Failure? && r.error != MalformedRecord ==> events.table.items == old(events.table.items))
        && (r.Success? ==> events.table.items == spec.value)
    {
      var found := GetEvent(events.table.items, eventId);
      if found.Failure? {
        return Failure(found.error);
      }
      if found.value.None? {
        return Failure(EntityNotFound);
      }
      var event := found.value.value;
      UnregisterResultOf(events.table.items, userId, eventId, event);
      if userId in event.registeredUsers {
        event := event.(registeredUsers := RemoveFirst(event.registeredUsers, userId));
        events.RemoveRegistration(eventId, userId);
        if event.waitlist != [] {
          var promoted := event.waitlist[0];
          event := event.(waitlist := event.waitlist[1..]);
          event := event.(registeredUsers := event.registeredUsers + [promoted]);
          var removal := events.RemoveFromWaitlist(eventId, promoted);
          if removal.Failure? {
            return Failure(removal.error);
          }
          events.AddRegistration(eventId, promoted);
          var reindexed := ReindexWaitlist(eventId, event.waitlist);
          if reindexed.Failure? {
            return Failure(reindexed.error);
          }
        }
        var _ := events.Update(event);
        return Success(());
      }
      if userId in event.waitlist {
        event := event.(waitlist := RemoveFirst(event.waitlist, userId));
        var removal := events.RemoveFromWaitlist(eventId, userId);
        if removal.Failure? {
          return Failure(removal.error);
        }
        var reindexed := ReindexWaitlist(eventId, event.waitlist);
        if reindexed.Failure? {
          return Failure(reindexed.error);
        }
        var _ := events.Update(event);
        return Success(());
      }
      r := Failure(NotRegistered);
    }

    /** The reindexing loop of `unregister_user`: each remaining user's first
        waitlist record is removed and the user is stored again at its
        index. */
    method ReindexWaitlist(eventId: string, waitlist: seq<string>) returns (r: Result<(), Error>)
      modifies events.table
      ensures var spec := Reindexed(old(events.table.items), eventId, waitlist, 0);
        && (r.Success? <==> spec.Success?)
        && (r.Failure? ==> r.error == spec.error)
        && (r.Success? ==> events.table.items == spec.value)
    {
      var i := 0;
      while i < |waitlist|
        invariant 0 <= i <= |waitlist|
        invariant Reindexed(events.table.items, eventId, waitlist, i)
                  == Reindexed(old(events.table.items), eventId, waitlist, 0)
      {
        var removal := events.RemoveFromWaitlist(eventId, waitlist[i]);
        if removal.Failure? {
          return Failure(removal.error);
        }
        events.AddToWaitlist(eventId, waitlist[i], i);
        i := i + 1;
      }
      r := Success(());
    }

    /** The events the user is registered for, as the GSI1 index lists them:
        every event one of the entries names and `get` finds, and no other. */
    method GetUserRegistrations(userId: string) returns (r: Result<seq<Event>, Error>)
      ensures var entries := IndexKeys(events.table.items, userId, Registered);
        && (r.Success? <==> forall k :: k in entries ==> GetEvent(events.table.items, events.table.items[k].eventId).Success?)
        && (r.Success? ==> forall e :: e in r.value ==>
              exists k :: k in entries && GetEvent(events.table.items, events.table.items[k].eventId) == Success(Some(e)))
        && (r.Success? ==> forall k :: k in entries && GetEvent(events.table.items, events.table.items[k].eventId).value.Some? ==>
              GetEvent(events.table.items, events.table.items[k].eventId).value.value in r.value)
    {
      r := events.EventsOf(userId, Registered);
    }

    /** The events the user is waitlisted for, as the GSI1 index lists them:
        every event one of the entries names and `get` finds, and no other. */
    method GetUserWaitlists(userId: string) returns (r: Result<seq<Event>, Error>)
      ensures var entries := IndexKeys(events.table.items, userId, Waitlisted);
        && (r.Success? <==> forall k :: k in entries ==> GetEvent(events.table.items, events.table.items[k].eventId).Success?)
        && (r.Success? ==> forall e :: e in r.value ==>
              exists k :: k in entries && GetEvent(events.table.items, events.table.items[k].eventId) == Success(Some(e)))
        && (r.Success? ==> forall k :: k in entries && GetEvent(events.table.items, events.table.items[k].eventId).value.Some? ==>
              GetEvent(events.table.items, events.table.items[k].eventId).value.value in r.value)
    {
      r := events.EventsOf(userId, Waitlisted);
    }

    /** The registered user ids of a stored event, in user id order: the
        order the table returns them in, not the order they registered. */
    method GetEventRegistrations(eventId: string) returns (r: Result<seq<string>, Error>)
      ensures r == EventRegistrations(events.table.items, eventId)
      ensures Key(EventPk(eventId), MetadataSk) !in events.table.items ==> r == Failure(EntityNotFound)
      ensures forall e :: StoresEvent(events.table.items, e) && e.eventId == eventId ==>
        r == Success(SortStrings(Members(e.registeredUsers)))
    {
      forall e | StoresEvent(events.table.items, e) && e.eventId == eventId
        ensures GetEvent(events.table.items, eventId) == Success(Some(Normalized(e)))
      {
        ReadBack(events.table.items, e);
      }
      var found := GetEvent(events.table.items, eventId);
      if found.Failure? {
        return Failure(found.error);
      }
      if found.value.None? {
        return Failure(EntityNotFound);
      }
      r := Success(found.value.value.registeredUsers);
    }
  }
}
