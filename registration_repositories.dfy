/** UserRepository and EventRepository of backend/registration/repositories.py
    over the table of module RegistrationTable.

    Reads are functions of the table contents. Each write is a method of its
    repository class; what it leaves in the table is stated by a function of
    the contents before it, so that lemmas can follow a sequence of writes. */
module RegistrationRepositories {
  import opened Results
  import opened Text
  import opened RegistrationModels
  import opened RegistrationTable

  // ---------------------------------------------------------------------------
  // Reads
  // ---------------------------------------------------------------------------

  /** `UserRepository.get`: None without a METADATA record, else the user
      rebuilt and validated from it. */
  function GetUser(items: map<Key, Item>, userId: string): (r: Result<Option<User>, Error>)
    ensures var k := Key(UserPk(userId), MetadataSk);
      && (r == Success(None) <==> k !in items)
      && (r.Success? && r.value.Some? ==>
            && items[k] == UserItem(r.value.value.userId, r.value.value.name)
            && !IsBlank(r.value.value.userId) && !IsBlank(r.value.value.name))
      && (r.Failure? <==> k in items && (!items[k].UserItem? || NewUser(items[k].userId, items[k].name).Failure?))
  {
    var k := Key(UserPk(userId), MetadataSk);
    if k !in items then Success(None)
    else
      match items[k]
      case UserItem(id, name) =>
        (match NewUser(id, name)
         case Success(user) => Success(Some(user))
         case Failure(reason) => Failure(Invalid(reason)))
      case _ => Failure(MalformedRecord)
  }

  /** `UserRepository.exists`: `get` found a user. */
  function UserExists(items: map<Key, Item>, userId: string): (r: Result<bool, Error>)
    ensures r.Success? <==> GetUser(items, userId).Success?
    ensures r.Success? ==> (r.value <==> GetUser(items, userId).value.Some?)
    ensures r.Success? ==> (r.value <==> Key(UserPk(userId), MetadataSk) in items)
  {
    var user :- GetUser(items, userId);
    Success(user.Some?)
  }

  /** Every record under `pk` whose sort key begins with `prefix` has a user id. */
  ghost predicate AllHaveUserIds(items: map<Key, Item>, pk: string, prefix: string) {
    forall sk :: Key(pk, sk) in items && prefix <= sk ==> HasUserId(items[Key(pk, sk)])
  }

  /** The user ids of the records under `pk` whose sort key begins with
      `prefix`. */
  ghost function UsersRecorded(items: map<Key, Item>, pk: string, prefix: string): set<string> {
    set sk | sk in SkSet(items, pk, prefix) && HasUserId(items[Key(pk, sk)]) :: items[Key(pk, sk)].userId
  }

  /** `_get_registered_users` (prefix REG#) and `_get_waitlist` (prefix WAIT#):
      the user ids of the matching records in sort key order. It fails exactly
      when one of them has no user id, and otherwise lists every recorded
      user, one entry per record. */
  function ListedUsers(items: map<Key, Item>, eventId: string, prefix: string): (r: Result<seq<string>, Error>)
    ensures var pk := EventPk(eventId);
      && (r.Success? <==> AllHaveUserIds(items, pk, prefix))
      && (r.Failure? ==> r.error == MalformedRecord)
      && (r.Success? ==> |r.value| == |SkSet(items, pk, prefix)|)
      && (r.Success? ==> forall u :: u in r.value <==> u in UsersRecorded(items, pk, prefix))
  {
    var pk := EventPk(eventId);
    QueryProjection(items, pk, prefix);
    ProjectUserIds(items, pk, QueryKeys(items, pk, prefix))
  }

  lemma QueryProjection(items: map<Key, Item>, pk: string, prefix: string)
    ensures var r := ProjectUserIds(items, pk, QueryKeys(items, pk, prefix));
      && (r.Success? <==> AllHaveUserIds(items, pk, prefix))
      && (r.Success? ==> forall u :: u in r.value <==> u in UsersRecorded(items, pk, prefix))
  {
    QueryProjectionSucceeds(items, pk, prefix);
    if ProjectUserIds(items, pk, QueryKeys(items, pk, prefix)).Success? {
      QueryProjectionMembers(items, pk, prefix);
    }
  }

  lemma QueryProjectionSucceeds(items: map<Key, Item>, pk: string, prefix: string)
    ensures ProjectUserIds(items, pk, QueryKeys(items, pk, prefix)).Success? <==> AllHaveUserIds(items, pk, prefix)
  {
    if ProjectUserIds(items, pk, QueryKeys(items, pk, prefix)).Success? {
      ProjectedAllHaveUserIds(items, pk, prefix);
    } else {
      var sks := QueryKeys(items, pk, prefix);
      var i :| 0 <= i < |sks| && !HasUserId(items[Key(pk, sks[i])]);
      assert Key(pk, sks[i]) in items && prefix <= sks[i];
    }
  }

  lemma ProjectedAllHaveUserIds(items: map<Key, Item>, pk: string, prefix: string)
    requires ProjectUserIds(items, pk, QueryKeys(items, pk, prefix)).Success?
    ensures AllHaveUserIds(items, pk, prefix)
  {
    var sks := QueryKeys(items, pk, prefix);
    forall sk | Key(pk, sk) in items && prefix <= sk
      ensures HasUserId(items[Key(pk, sk)])
    {
      var i :| 0 <= i < |sks| && sks[i] == sk;
    }
  }

  lemma QueryProjectionMembers(items: map<Key, Item>, pk: string, prefix: string)
    requires ProjectUserIds(items, pk, QueryKeys(items, pk, prefix)).Success?
    ensures var r := ProjectUserIds(items, pk, QueryKeys(items, pk, prefix));
      forall u :: u in r.value <==> u in UsersRecorded(items, pk, prefix)
  {
    var sks := QueryKeys(items, pk, prefix);
    var r := ProjectUserIds(items, pk, sks);
    forall u ensures u in r.value <==> u in UsersRecorded(items, pk, prefix) {
      if u in r.value {
        var i :| 0 <= i < |r.value| && r.value[i] == u;
        assert sks[i] in SkSet(items, pk, prefix);
      }
      if u in UsersRecorded(items, pk, prefix) {
        var sk :| sk in SkSet(items, pk, prefix) && HasUserId(items[Key(pk, sk)]) && items[Key(pk, sk)].userId == u;
        assert sk in sks;
        var i :| 0 <= i < |sks| && sks[i] == sk;
        assert r.value[i] == u;
      }
    }
  }

  /** `EventRepository.get`: None without a METADATA record; otherwise the
      registered users and the waitlist read back from their records, then
      the event rebuilt from METADATA and validated. */
  function GetEvent(items: map<Key, Item>, eventId: string): Result<Option<Event>, Error> {
    var mk := Key(EventPk(eventId), MetadataSk);
    if mk !in items then Success(None)
    else
      var registered :- ListedUsers(items, eventId, RegPrefix);
      var waitlist :- ListedUsers(items, eventId, WaitPrefix);
      match items[mk]
      case EventItem(id, name, capacity, waitlistEnabled, _, _) =>
        (match NewEvent(id, name, capacity, waitlistEnabled, registered, waitlist)
         case Success(e) => Success(Some(e))
         case Failure(reason) => Failure(Invalid(reason)))
      case _ => Failure(MalformedRecord)
  }

  /** `get` finds nothing exactly without METADATA; it fails exactly on a
      list record without a user id, a METADATA record that is not an
      event's or a capacity that is not positive; otherwise the event has
      the METADATA attributes and one entry per list record. */
  lemma GetEventOutcome(items: map<Key, Item>, eventId: string)
    ensures var r := GetEvent(items, eventId);
      var pk := EventPk(eventId);
      var mk := Key(pk, MetadataSk);
      && (r == Success(None) <==> mk !in items)
      && (r.Failure? <==>
            (mk in items
             && (!AllHaveUserIds(items, pk, RegPrefix) || !AllHaveUserIds(items, pk, WaitPrefix)
                 || !items[mk].EventItem? || items[mk].capacity <= 0)))
      && (r.Success? && r.value.Some? ==>
            var e := r.value.value;
            && items[mk].EventItem?
            && e.eventId == items[mk].eventId && e.name == items[mk].name
            && e.capacity == items[mk].capacity > 0 && e.waitlistEnabled == items[mk].waitlistEnabled
            && (forall u :: u in e.registeredUsers <==> u in UsersRecorded(items, pk, RegPrefix))
            && (forall u :: u in e.waitlist <==> u in UsersRecorded(items, pk, WaitPrefix))
            && |e.registeredUsers| == |SkSet(items, pk, RegPrefix)|
            && |e.waitlist| == |SkSet(items, pk, WaitPrefix)|)
  {
  }

  // ---------------------------------------------------------------------------
  // What each write leaves in the table
  // ---------------------------------------------------------------------------

  function WithUser(items: map<Key, Item>, user: User): map<Key, Item> {
    items[Key(UserPk(user.userId), MetadataSk) := UserItem(user.userId, user.name)]
  }

  function WithEventMetadata(items: map<Key, Item>, e: Event): map<Key, Item> {
    items[Key(EventPk(e.eventId), MetadataSk) :=
      EventItem(e.eventId, e.name, e.capacity, e.waitlistEnabled, |e.registeredUsers|, |e.waitlist|)]
  }

  function WithRegistration(items: map<Key, Item>, eventId: string, userId: string): map<Key, Item> {
    items[Key(EventPk(eventId), RegSk(userId)) := RegItem(userId, eventId)]
  }

  function WithWaitEntry(items: map<Key, Item>, eventId: string, userId: string, position: nat): map<Key, Item> {
    items[Key(EventPk(eventId), WaitSk(position, userId)) := WaitItem(userId, eventId, position)]
  }

  function WithoutRegistration(items: map<Key, Item>, eventId: string, userId: string): map<Key, Item> {
    items - {Key(EventPk(eventId), RegSk(userId))}
  }

  /** `_remove_from_waitlist`: the table without the first waitlist record of
      the user in sort key order, the table unchanged when there is none, or
      the KeyError of a record without a user id met first. */
  function WaitlistRemoval(items: map<Key, Item>, eventId: string, userId: string): (r: Result<map<Key, Item>, Error>)
    ensures AllHaveUserIds(items, EventPk(eventId), WaitPrefix) ==> r.Success?
    ensures r.Failure? ==> r.error == MalformedRecord
  {
    var pk := EventPk(eventId);
    var sks := QueryKeys(items, pk, WaitPrefix);
    var found :- FirstMatch(items, pk, sks, userId);
    match found
    case None => Success(items)
    case Some(sk) => Success(items - {Key(pk, sk)})
  }

  /** `EventRepository.update`: `update_item` sets the two counts on METADATA
      and keeps its other attributes; on a missing record it creates one that
      holds only the counts. A METADATA key holding a record of another kind
      would be replaced by the counts alone, where the table keeps that
      record's attributes; no write ever puts such a record under
      `EVENT#id`/`METADATA`, so the case does not arise. */
  function WithCounts(items: map<Key, Item>, e: Event): map<Key, Item> {
    var k := Key(EventPk(e.eventId), MetadataSk);
    var rc, wc := |e.registeredUsers|, |e.waitlist|;
    items[k := if k in items && (items[k].EventItem? || items[k].CountsOnly?)
               then items[k].(registeredCount := rc, waitlistCount := wc)
               else CountsOnly(rc, wc)]
  }

  /** One registration record per user, in list order. */
  function WithRegistrations(items: map<Key, Item>, eventId: string, users: seq<string>): map<Key, Item>
    decreases |users|
  {
    if users == [] then items
    else WithRegistrations(WithRegistration(items, eventId, users[0]), eventId, users[1..])
  }

  /** One waitlist record per entry from index `from` on, at its index. */
  function WithWaitlistFrom(items: map<Key, Item>, eventId: string, waitlist: seq<string>, from: nat): map<Key, Item>
    decreases |waitlist| - from
  {
    if from >= |waitlist| then items
    else WithWaitlistFrom(WithWaitEntry(items, eventId, waitlist[from], from), eventId, waitlist, from + 1)
  }

  /** `EventRepository.create`: METADATA, then the registrations, then the
      waitlist at positions 0..n-1. */
  function Created(items: map<Key, Item>, e: Event): map<Key, Item> {
    WithWaitlistFrom(
      WithRegistrations(WithEventMetadata(items, e), e.eventId, e.registeredUsers),
      e.eventId, e.waitlist, 0)
  }

  // ---------------------------------------------------------------------------
  // The repositories
  // ---------------------------------------------------------------------------

  class UserRepository {
    const table: Table

    constructor (table: Table)
      ensures this.table == table
    {
      this.table := table;
    }

    /** `create`: stores the user, overwriting any record under its key. */
    method Create(user: User) returns (r: User)
      modifies table
      ensures table.items == WithUser(old(table.items), user)
      ensures r == user
    {
      table.PutItem(Key(UserPk(user.userId), MetadataSk), UserItem(user.userId, user.name));
      r := user;
    }
  }

  class EventRepository {
    const table: Table

    constructor (table: Table)
      ensures this.table == table
    {
      this.table := table;
    }

    /** `create`: the METADATA record, one registration record per registered
        user and one waitlist record per entry at its index. */
    method Create(event: Event) returns (r: Event)
      modifies table
      ensures table.items == Created(old(table.items), event)
      ensures r == event
    {
      table.PutItem(Key(EventPk(event.eventId), MetadataSk),
        EventItem(event.eventId, event.name, event.capacity, event.waitlistEnabled,
                  |event.registeredUsers|, |event.waitlist|));
      ghost var written := table.items;
      var users := event.registeredUsers;
      for i := 0 to |users|
        invariant WithRegistrations(table.items, event.eventId, users[i..])
                  == WithRegistrations(written, event.eventId, users)
      {
        assert users[i..][1..] == users[i + 1..];
        AddRegistration(event.eventId, users[i]);
      }
      var waitlist := event.waitlist;
      for position := 0 to |waitlist|
        invariant WithWaitlistFrom(table.items, event.eventId, waitlist, position)
                  == Created(old(table.items), event)
      {
        AddToWaitlist(event.eventId, waitlist[position], position);
      }
      r := event;
    }

    /** `update`: only the two counts on METADATA change. */
    method Update(event: Event) returns (r: Event)
      modifies table
      ensures table.items == WithCounts(old(table.items), event)
      ensures r == event
    {
      var k := Key(EventPk(event.eventId), MetadataSk);
      var rc, wc := |event.registeredUsers|, |event.waitlist|;
      if k in table.items && (table.items[k].EventItem? || table.items[k].CountsOnly?) {
        table.PutItem(k, table.items[k].(registeredCount := rc, waitlistCount := wc));
      } else {
        table.PutItem(k, CountsOnly(rc, wc));
      }
      r := event;
    }

    /** `_add_registration`. */
    method AddRegistration(eventId: string, userId: string)
      modifies table
      ensures table.items == WithRegistration(old(table.items), eventId, userId)
    {
      table.PutItem(Key(EventPk(eventId), RegSk(userId)), RegItem(userId, eventId));
    }

    /** `_add_to_waitlist`. */
    method AddToWaitlist(eventId: string, userId: string, position: nat)
      modifies table
      ensures table.items == WithWaitEntry(old(table.items), eventId, userId, position)
    {
      table.PutItem(Key(EventPk(eventId), WaitSk(position, userId)), WaitItem(userId, eventId, position));
    }

    /** `_remove_registration`. */
    method RemoveRegistration(eventId: string, userId: string)
      modifies table
      ensures table.items == WithoutRegistration(old(table.items), eventId, userId)
    {
      table.DeleteItem(Key(EventPk(eventId), RegSk(userId)));
    }

    /** `_remove_from_waitlist`: walks the waitlist records in sort key order
        and deletes the first one of the user. */
    method RemoveFromWaitlist(eventId: string, userId: string) returns (r: Result<(), Error>)
      modifies table
      ensures var removal := WaitlistRemoval(old(table.items), eventId, userId);
        && (r.Success? <==> removal.Success?)
        && (r.Failure? ==> r.error == removal.error && table.items == old(table.items))
        && (r.Success? ==> table.items == removal.value)
    {
      var pk := EventPk(eventId);
      var sks := QueryKeys(table.items, pk, WaitPrefix);
      var i := 0;
      while i < |sks|
        invariant 0 <= i <= |sks|
        invariant table.items == old(table.items)
        invariant FirstMatch(table.items, pk, sks, userId) == FirstMatch(table.items, pk, sks[i..], userId)
      {
        var item := table.items[Key(pk, sks[i])];
        if !HasUserId(item) {
          return Failure(MalformedRecord);
        }
        if item.userId == userId {
          table.DeleteItem(Key(pk, sks[i]));
          break;
        }
        assert sks[i..][1..] == sks[i + 1..];
        i := i + 1;
      }
      r := Success(());
    }

    /** `get_events_by_registered_user` (m = Registered) and
        `get_events_by_waitlisted_user` (m = Waitlisted): every event that one
        of the user's index entries names and that `get` finds. The call
        fails exactly when one of those reads fails. */
    method EventsOf(userId: string, m: Status) returns (r: Result<seq<Event>, Error>)
      ensures var entries := IndexKeys(table.items, userId, m);
        && (r.Success? <==> forall k :: k in entries ==> GetEvent(table.items, table.items[k].eventId).Success?)
        && (r.Success? ==> forall e :: e in r.value ==>
              exists k :: k in entries && GetEvent(table.items, table.items[k].eventId) == Success(Some(e)))
        && (r.Success? ==> forall k :: k in entries && GetEvent(table.items, table.items[k].eventId).value.Some? ==>
              GetEvent(table.items, table.items[k].eventId).value.value in r.value)
    {
      var entries := IndexKeys(table.items, userId, m);
      var pending := entries;
      var events: seq<Event> := [];
      while pending != {}
        invariant pending <= entries
        invariant forall k :: k in entries - pending ==> GetEvent(table.items, table.items[k].eventId).Success?
        invariant forall e :: e in events ==>
          exists k :: k in entries - pending && GetEvent(table.items, table.items[k].eventId) == Success(Some(e))
        invariant forall k :: k in entries - pending && GetEvent(table.items, table.items[k].eventId).value.Some? ==>
          GetEvent(table.items, table.items[k].eventId).value.value in events
        decreases |pending|
      {
        var k :| k in pending;
        pending := pending - {k};
        var found := GetEvent(table.items, table.items[k].eventId);
        if found.Failure? {
          return Failure(found.error);
        }
        if found.value.Some? {
          events := events + [found.value.value];
        }
      }
      r := Success(events);
    }
  }
}
