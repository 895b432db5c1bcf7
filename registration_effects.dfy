/** The sequence of repository writes each operation of
    backend/registration/service.py performs, as functions of the table
    before it, and the proofs that these writes keep the table holding
    exactly the event the registration engine computes. */
module RegistrationEffects {
  import opened Results
  import opened Text
  import opened RegistrationModels
  import opened RegistrationTable
  import opened RegistrationEngine
  import opened RegistrationRepositories
  import opened RegistrationLayout

  // ---------------------------------------------------------------------------
  // The writes
  // ---------------------------------------------------------------------------

  /** The reindexing loop of `unregister_user`: from index `from` on, each
      remaining user's first waitlist record is deleted and the user is
      stored again at its index. */
  function Reindexed(items: map<Key, Item>, eventId: string, rest: seq<string>, from: nat): (r: Result<map<Key, Item>, Error>)
    ensures r.Failure? ==> r.error == MalformedRecord
    decreases |rest| - from
  {
    if from >= |rest| then Success(items)
    else
      var removed :- WaitlistRemoval(items, eventId, rest[from]);
      Reindexed(WithWaitEntry(removed, eventId, rest[from], from), eventId, rest, from + 1)
  }

  /** The writes of a successful `register_user` on the event `read` it has
      read: the new registration or the waitlist record at the tail, then the
      counts. */
  function RegisterWrites(items: map<Key, Item>, eventId: string, read: Event, userId: string): map<Key, Item>
    requires RegisterStep(read, userId).Success?
  {
    var next := RegisterStep(read, userId).value.0;
    if RegisterStep(read, userId).value.1 == Registered then
      WithCounts(WithRegistration(items, eventId, userId), next)
    else
      WithCounts(WithWaitEntry(items, eventId, userId, |read.waitlist|), next)
  }

  /** The writes of a successful `unregister_user` on the event `read` it has
      read. A registered user's record goes; the head of the waitlist, if
      any, loses its waitlist record and gains a registration, and the rest
      of the waitlist is reindexed. A waitlisted user's record goes and the
      rest of the waitlist is reindexed. Then the counts. */
  function UnregisterWrites(items: map<Key, Item>, eventId: string, read: Event, userId: string): Result<map<Key, Item>, Error>
    requires UnregisterStep(read, userId).Success?
  {
    var next := UnregisterStep(read, userId).value;
    if userId in read.registeredUsers then
      var dropped := WithoutRegistration(items, eventId, userId);
      if read.waitlist == [] then Success(WithCounts(dropped, next))
      else
        var head := read.waitlist[0];
        var removed :- WaitlistRemoval(dropped, eventId, head);
        var reindexed :- Reindexed(WithRegistration(removed, eventId, head), eventId, read.waitlist[1..], 0);
        Success(WithCounts(reindexed, next))
    else
      var removed :- WaitlistRemoval(items, eventId, userId);
      var reindexed :- Reindexed(removed, eventId, RemoveFirst(read.waitlist, userId), 0);
      Success(WithCounts(reindexed, next))
  }

  // ---------------------------------------------------------------------------
  // Frames compose
  // ---------------------------------------------------------------------------

  lemma AgreeOnTrans(a: map<Key, Item>, b: map<Key, Item>, c: map<Key, Item>, pk: string, prefix: string)
    requires AgreeOn(a, b, pk, prefix) && AgreeOn(b, c, pk, prefix)
    ensures AgreeOn(a, c, pk, prefix)
  {
  }

  lemma SameMetadataTrans(a: map<Key, Item>, b: map<Key, Item>, c: map<Key, Item>, eventId: string)
    requires SameMetadata(a, b, eventId) && SameMetadata(b, c, eventId)
    ensures SameMetadata(a, c, eventId)
  {
  }

  /** Writing or deleting a WAIT# record touches neither the registrations
      nor METADATA. */
  lemma WaitWriteFrames(items: map<Key, Item>, eventId: string, sk: string, item: Item)
    requires WaitPrefix <= sk
    ensures var pk := EventPk(eventId);
      && AgreeOn(items, items[Key(pk, sk) := item], pk, RegPrefix)
      && SameMetadata(items, items[Key(pk, sk) := item], eventId)
      && AgreeOn(items, items - {Key(pk, sk)}, pk, RegPrefix)
      && SameMetadata(items, items - {Key(pk, sk)}, eventId)
  {
    assert sk[0] == 'W';
    MetadataSkHasNoListPrefix();
  }

  /** `_remove_from_waitlist` touches neither the registrations nor METADATA. */
  lemma WaitRemovalFrames(items: map<Key, Item>, eventId: string, userId: string)
    requires WaitlistRemoval(items, eventId, userId).Success?
    ensures var after := WaitlistRemoval(items, eventId, userId).value;
      && AgreeOn(items, after, EventPk(eventId), RegPrefix)
      && SameMetadata(items, after, eventId)
  {
    var pk := EventPk(eventId);
    var sks := QueryKeys(items, pk, WaitPrefix);
    var found := FirstMatch(items, pk, sks, userId).value;
    if found.Some? {
      WaitWriteFrames(items, eventId, found.value, UserItem("", ""));
    }
  }

  // ---------------------------------------------------------------------------
  // The reindexing loop
  // ---------------------------------------------------------------------------

  /** One turn of the reindexing loop. */
  lemma ReindexStep(items: map<Key, Item>, eventId: string, rest: seq<string>, from: nat, removed: map<Key, Item>)
    requires from < |rest| && WaitlistRemoval(items, eventId, rest[from]) == Success(removed)
    ensures Reindexed(items, eventId, rest, from)
            == Reindexed(WithWaitEntry(removed, eventId, rest[from], from), eventId, rest, from + 1)
  {
  }

  /** A turn of the loop over a waitlist without repetitions moves the entry
      at `from` to position `from`. */
  lemma ReindexTurn(items: map<Key, Item>, eventId: string, positions: seq<nat>, users: seq<string>, from: nat)
    returns (moved: map<Key, Item>)
    requires WaitEntries(items, eventId, positions, users) && Distinct(users) && from < |users|
    ensures Reindexed(items, eventId, users, from) == Reindexed(moved, eventId, users, from + 1)
    ensures WaitEntries(moved, eventId, positions[from := from], users)
  {
    var removed := items - {Key(EventPk(eventId), WaitSk(positions[from], users[from]))};
    WaitRemovalFinds(items, eventId, positions, users, from);
    ReindexStep(items, eventId, users, from, removed);
    WaitEntryMoved(items, eventId, positions, users, from, from);
    moved := WithWaitEntry(removed, eventId, users[from], from);
  }

  /** Reindexing a waitlist without repetitions, whose first `from` entries
      already sit at their index, never fails and stores every entry at its
      index. */
  lemma {:induction false} ReindexedStores(items: map<Key, Item>, eventId: string, positions: seq<nat>,
                                           users: seq<string>, from: nat)
    requires WaitEntries(items, eventId, positions, users) && Distinct(users) && from <= |users|
    requires forall i :: 0 <= i < from ==> positions[i] == i
    ensures Reindexed(items, eventId, users, from).Success?
    ensures WaitRecords(Reindexed(items, eventId, users, from).value, eventId, users)
    decreases |users| - from
  {
    if from < |users| {
      var moved := ReindexTurn(items, eventId, positions, users, from);
      var placed := positions[from := from];
      assert forall i :: 0 <= i < from + 1 ==> placed[i] == i;
      ReindexedStores(moved, eventId, placed, users, from + 1);
    } else {
      ReindexDone(items, eventId, positions, users);
    }
  }

  /** Once every entry sits at its index, the loop is over. */
  lemma ReindexDone(items: map<Key, Item>, eventId: string, positions: seq<nat>, users: seq<string>)
    requires WaitEntries(items, eventId, positions, users)
    requires forall i :: 0 <= i < |users| ==> positions[i] == i
    ensures Reindexed(items, eventId, users, |users|) == Success(items)
    ensures WaitRecords(items, eventId, users)
  {
    assert positions == Indices(|users|);
  }

  /** Whatever it stores, a reindexing that succeeds touches neither the
      registrations nor METADATA. */
  lemma {:induction false} ReindexedFrames(items: map<Key, Item>, eventId: string, rest: seq<string>, from: nat)
    requires Reindexed(items, eventId, rest, from).Success?
    ensures var after := Reindexed(items, eventId, rest, from).value;
      && AgreeOn(items, after, EventPk(eventId), RegPrefix)
      && SameMetadata(items, after, eventId)
    decreases |rest| - from
  {
    if from < |rest| {
      var pk := EventPk(eventId);
      var removed := WaitlistRemoval(items, eventId, rest[from]).value;
      WaitRemovalFrames(items, eventId, rest[from]);
      ReindexStep(items, eventId, rest, from, removed);
      var moved := WithWaitEntry(removed, eventId, rest[from], from);
      WaitWriteFrames(removed, eventId, WaitSk(from, rest[from]), WaitItem(rest[from], eventId, from));
      ReindexedFrames(moved, eventId, rest, from + 1);
      var after := Reindexed(moved, eventId, rest, from + 1).value;
      AgreeOnTrans(items, removed, moved, pk, RegPrefix);
      AgreeOnTrans(items, moved, after, pk, RegPrefix);
      SameMetadataTrans(items, removed, moved, eventId);
      SameMetadataTrans(items, moved, after, eventId);
    }
  }

  /** Reindexing a waitlist without repetitions from its start stores every
      entry at its index and keeps the registrations and METADATA. */
  lemma ReindexKeeps(items: map<Key, Item>, eventId: string, positions: seq<nat>, users: seq<string>,
                     registered: set<string>)
    requires WaitEntries(items, eventId, positions, users) && Distinct(users)
    requires RegRecords(items, eventId, registered)
    ensures Reindexed(items, eventId, users, 0).Success?
    ensures var after := Reindexed(items, eventId, users, 0).value;
      && WaitRecords(after, eventId, users)
      && RegRecords(after, eventId, registered)
      && SameMetadata(items, after, eventId)
  {
    ReindexedStores(items, eventId, positions, users, 0);
    ReindexedFrames(items, eventId, users, 0);
    RegRecordsAgree(items, Reindexed(items, eventId, users, 0).value, eventId, registered);
  }

  // ---------------------------------------------------------------------------
  // register_user
  // ---------------------------------------------------------------------------

  /** A successful registration leaves the table holding the event the
      engine computes, while the waitlist stays within the five-digit
      positions. */
  lemma RegisterKeepsStore(items: map<Key, Item>, e: Event, userId: string)
    requires StoresEvent(items, e) && RegisterStep(e, userId).Success?
    requires |e.waitlist| < MaxWaitlist
    ensures StoresEvent(RegisterWrites(items, e.eventId, e, userId), RegisterStep(e, userId).value.0)
  {
    var pk := EventPk(e.eventId);
    var next := RegisterStep(e, userId).value.0;
    RegisterOutcome(e, userId);
    RegisterKeepsConsistent(e, userId);
    if RegisterStep(e, userId).value.1 == Registered {
      var added := WithRegistration(items, e.eventId, userId);
      RegistrationAdded(items, e.eventId, userId, Members(e.registeredUsers));
      assert Members(next.registeredUsers) == Members(e.registeredUsers) + {userId};
      WaitEntriesAgree(items, added, e.eventId, Indices(|e.waitlist|), e.waitlist);
      CountsFinish(items, added, e, next);
    } else {
      var added := WithWaitEntry(items, e.eventId, userId, |e.waitlist|);
      DistinctConcat(e.registeredUsers, e.waitlist);
      WaitEntryAdded(items, e.eventId, Indices(|e.waitlist|), e.waitlist, userId, |e.waitlist|);
      RegRecordsAgree(items, added, e.eventId, Members(e.registeredUsers));
      CountsFinish(items, added, e, next);
    }
  }

  // ---------------------------------------------------------------------------
  // unregister_user
  // ---------------------------------------------------------------------------

  /** A successful unregistration never fails half way and leaves the table
      holding the event the engine computes. */
  lemma UnregisterKeepsStore(items: map<Key, Item>, e: Event, userId: string)
    requires StoresEvent(items, e) && UnregisterStep(e, userId).Success?
    ensures UnregisterWrites(items, e.eventId, e, userId).Success?
    ensures StoresEvent(UnregisterWrites(items, e.eventId, e, userId).value, UnregisterStep(e, userId).value)
  {
    UnregisterKeepsConsistent(e, userId);
    DistinctConcat(e.registeredUsers, e.waitlist);
    if userId in e.registeredUsers {
      RemoveFirstMembers(e.registeredUsers, userId);
      if e.waitlist == [] {
        UnregisterAloneKeeps(items, e, userId);
      } else {
        UnregisterPromotingKeeps(items, e, userId);
      }
    } else {
      UnregisterWaitingKeeps(items, e, userId);
    }
  }

  /** The records left once a registered user's record is gone: the other
      registrations and the whole waitlist. */
  lemma RegistrationDropped(items: map<Key, Item>, e: Event, userId: string)
    requires StoresEvent(items, e) && userId in e.registeredUsers
    ensures var dropped := WithoutRegistration(items, e.eventId, userId);
      && RegRecords(dropped, e.eventId, Members(e.registeredUsers) - {userId})
      && WaitRecords(dropped, e.eventId, e.waitlist)
      && SameMetadata(items, dropped, e.eventId)
  {
    var dropped := WithoutRegistration(items, e.eventId, userId);
    RegistrationRemoved(items, e.eventId, userId, Members(e.registeredUsers));
    WaitEntriesAgree(items, dropped, e.eventId, Indices(|e.waitlist|), e.waitlist);
  }

  /** The counts written last on top of records that already match `next`. */
  lemma CountsFinish(items: map<Key, Item>, written: map<Key, Item>, e: Event, next: Event)
    requires StoresEvent(items, e) && SameMetadata(items, written, e.eventId)
    requires next.eventId == e.eventId && next.name == e.name && next.capacity == e.capacity
    requires next.waitlistEnabled == e.waitlistEnabled
    requires RegRecords(written, e.eventId, Members(next.registeredUsers))
    requires WaitRecords(written, e.eventId, next.waitlist)
    requires Consistent(next) && |next.waitlist| <= MaxWaitlist
    ensures StoresEvent(WithCounts(written, next), next)
  {
    var after := WithCounts(written, next);
    CountsUpdated(written, e, next);
    RegRecordsAgree(written, after, e.eventId, Members(next.registeredUsers));
    WaitEntriesAgree(written, after, e.eventId, Indices(|next.waitlist|), next.waitlist);
  }

  lemma UnregisterAloneKeeps(items: map<Key, Item>, e: Event, userId: string)
    requires StoresEvent(items, e) && userId in e.registeredUsers && e.waitlist == []
    requires Members(RemoveFirst(e.registeredUsers, userId)) == Members(e.registeredUsers) - {userId}
    requires Consistent(UnregisterStep(e, userId).value)
    ensures UnregisterWrites(items, e.eventId, e, userId).Success?
    ensures StoresEvent(UnregisterWrites(items, e.eventId, e, userId).value, UnregisterStep(e, userId).value)
  {
    RegistrationDropped(items, e, userId);
    CountsFinish(items, WithoutRegistration(items, e.eventId, userId), e, UnregisterStep(e, userId).value);
  }

  /** The head of the waitlist leaves it for the registrations. */
  lemma HeadPromoted(items: map<Key, Item>, eventId: string, waitlist: seq<string>, registered: set<string>)
    requires RegRecords(items, eventId, registered) && WaitRecords(items, eventId, waitlist)
    requires Distinct(waitlist) && waitlist != []
    ensures var removed := items - {Key(EventPk(eventId), WaitSk(0, waitlist[0]))};
      && WaitlistRemoval(items, eventId, waitlist[0]) == Success(removed)
      && var promoted := WithRegistration(removed, eventId, waitlist[0]);
      && RegRecords(promoted, eventId, registered + {waitlist[0]})
      && WaitEntries(promoted, eventId, Indices(|waitlist|)[1..], waitlist[1..])
      && SameMetadata(items, promoted, eventId)
  {
    var pk := EventPk(eventId);
    var ps := Indices(|waitlist|);
    var removed := items - {Key(pk, WaitSk(0, waitlist[0]))};
    WaitRemovalFinds(items, eventId, ps, waitlist, 0);
    WaitEntryDeleted(items, eventId, ps, waitlist, 0);
    assert Without(waitlist, 0) == waitlist[1..];
    assert Without(ps, 0) == ps[1..];
    RegRecordsAgree(items, removed, eventId, registered);
    var promoted := WithRegistration(removed, eventId, waitlist[0]);
    RegistrationAdded(removed, eventId, waitlist[0], registered);
    WaitEntriesAgree(removed, promoted, eventId, ps[1..], waitlist[1..]);
    SameMetadataTrans(items, removed, promoted, eventId);
  }

  /** The writes of an unregistration that promotes the head of the waitlist,
      once each of their steps is known. */
  lemma PromotingWrites(items: map<Key, Item>, e: Event, userId: string, removed: map<Key, Item>,
                        reindexed: map<Key, Item>)
    requires userId in e.registeredUsers && e.waitlist != []
    requires WaitlistRemoval(WithoutRegistration(items, e.eventId, userId), e.eventId, e.waitlist[0]) == Success(removed)
    requires Reindexed(WithRegistration(removed, e.eventId, e.waitlist[0]), e.eventId, e.waitlist[1..], 0)
             == Success(reindexed)
    ensures UnregisterWrites(items, e.eventId, e, userId)
            == Success(WithCounts(reindexed, UnregisterStep(e, userId).value))
  {
  }

  /** The registered users after the promotion: the others and the head. */
  lemma PromotedMembers(e: Event, userId: string)
    requires userId in e.registeredUsers && e.waitlist != []
    requires Members(RemoveFirst(e.registeredUsers, userId)) == Members(e.registeredUsers) - {userId}
    ensures Members(UnregisterStep(e, userId).value.registeredUsers)
            == Members(e.registeredUsers) - {userId} + {e.waitlist[0]}
  {
    var kept := RemoveFirst(e.registeredUsers, userId);
    assert Members(kept + [e.waitlist[0]]) == Members(kept) + {e.waitlist[0]};
  }

  /** After a registered user's record is gone, the promotion and the
      reindexing succeed and leave the head registered and the rest of the
      waitlist at their indices. */
  lemma PromotedAndReindexed(items: map<Key, Item>, e: Event, userId: string) returns (reindexed: map<Key, Item>)
    requires userId in e.registeredUsers && e.waitlist != [] && Distinct(e.waitlist)
    requires var dropped := WithoutRegistration(items, e.eventId, userId);
      && RegRecords(dropped, e.eventId, Members(e.registeredUsers) - {userId})
      && WaitRecords(dropped, e.eventId, e.waitlist)
    ensures UnregisterWrites(items, e.eventId, e, userId)
            == Success(WithCounts(reindexed, UnregisterStep(e, userId).value))
    ensures RegRecords(reindexed, e.eventId, Members(e.registeredUsers) - {userId} + {e.waitlist[0]})
    ensures WaitRecords(reindexed, e.eventId, e.waitlist[1..])
    ensures SameMetadata(WithoutRegistration(items, e.eventId, userId), reindexed, e.eventId)
  {
    var eid, w := e.eventId, e.waitlist;
    var kept := Members(e.registeredUsers) - {userId};
    var dropped := WithoutRegistration(items, eid, userId);
    HeadPromoted(dropped, eid, w, kept);
    var removed := dropped - {Key(EventPk(eid), WaitSk(0, w[0]))};
    var promoted := WithRegistration(removed, eid, w[0]);
    assert Distinct(w[1..]);
    ReindexKeeps(promoted, eid, Indices(|w|)[1..], w[1..], kept + {w[0]});
    reindexed := Reindexed(promoted, eid, w[1..], 0).value;
    PromotingWrites(items, e, userId, removed, reindexed);
    SameMetadataTrans(dropped, promoted, reindexed, eid);
  }

  lemma UnregisterPromotingKeeps(items: map<Key, Item>, e: Event, userId: string)
    requires StoresEvent(items, e) && userId in e.registeredUsers && e.waitlist != []
    requires Members(RemoveFirst(e.registeredUsers, userId)) == Members(e.registeredUsers) - {userId}
    requires Distinct(e.waitlist)
    requires Consistent(UnregisterStep(e, userId).value)
    ensures UnregisterWrites(items, e.eventId, e, userId).Success?
    ensures StoresEvent(UnregisterWrites(items, e.eventId, e, userId).value, UnregisterStep(e, userId).value)
  {
    RegistrationDropped(items, e, userId);
    var reindexed := PromotedAndReindexed(items, e, userId);
    SameMetadataTrans(items, WithoutRegistration(items, e.eventId, userId), reindexed, e.eventId);
    PromotedMembers(e, userId);
    CountsFinish(items, reindexed, e, UnregisterStep(e, userId).value);
  }

  /** A waitlisted user's record leaves the waitlist. */
  lemma WaitingRemoved(items: map<Key, Item>, eventId: string, waitlist: seq<string>, registered: set<string>,
                       userId: string)
    requires RegRecords(items, eventId, registered) && WaitRecords(items, eventId, waitlist)
    requires Distinct(waitlist) && userId in waitlist
    ensures var k := IndexOf(waitlist, userId);
      var removed := items - {Key(EventPk(eventId), WaitSk(k, userId))};
      && WaitlistRemoval(items, eventId, userId) == Success(removed)
      && RegRecords(removed, eventId, registered)
      && WaitEntries(removed, eventId, Without(Indices(|waitlist|), k), RemoveFirst(waitlist, userId))
      && SameMetadata(items, removed, eventId)
  {
    var ps := Indices(|waitlist|);
    var k := IndexOf(waitlist, userId);
    var removed := items - {Key(EventPk(eventId), WaitSk(k, userId))};
    WaitRemovalFinds(items, eventId, ps, waitlist, k);
    WaitEntryDeleted(items, eventId, ps, waitlist, k);
    assert Without(waitlist, k) == RemoveFirst(waitlist, userId);
    RegRecordsAgree(items, removed, eventId, registered);
  }

  /** The writes of an unregistration from the waitlist, once each of their
      steps is known. */
  lemma WaitingWrites(items: map<Key, Item>, e: Event, userId: string, removed: map<Key, Item>,
                      reindexed: map<Key, Item>)
    requires userId !in e.registeredUsers && userId in e.waitlist
    requires WaitlistRemoval(items, e.eventId, userId) == Success(removed)
    requires Reindexed(removed, e.eventId, RemoveFirst(e.waitlist, userId), 0) == Success(reindexed)
    ensures UnregisterWrites(items, e.eventId, e, userId)
            == Success(WithCounts(reindexed, UnregisterStep(e, userId).value))
  {
  }

  lemma UnregisterWaitingKeeps(items: map<Key, Item>, e: Event, userId: string)
    requires StoresEvent(items, e) && userId !in e.registeredUsers
    requires UnregisterStep(e, userId).Success?
    requires Distinct(e.waitlist)
    requires Consistent(UnregisterStep(e, userId).value)
    ensures UnregisterWrites(items, e.eventId, e, userId).Success?
    ensures StoresEvent(UnregisterWrites(items, e.eventId, e, userId).value, UnregisterStep(e, userId).value)
  {
    var eid, w := e.eventId, e.waitlist;
    var next := UnregisterStep(e, userId).value;
    var k := IndexOf(w, userId);
    WaitingRemoved(items, eid, w, Members(e.registeredUsers), userId);
    var removed := items - {Key(EventPk(eid), WaitSk(k, userId))};
    RemoveFirstMembers(w, userId);
    ReindexKeeps(removed, eid, Without(Indices(|w|), k), next.waitlist, Members(e.registeredUsers));
    var reindexed := Reindexed(removed, eid, next.waitlist, 0).value;
    WaitingWrites(items, e, userId, removed, reindexed);
    SameMetadataTrans(items, removed, reindexed, eid);
    CountsFinish(items, reindexed, e, next);
  }

  // ---------------------------------------------------------------------------
  // create
  // ---------------------------------------------------------------------------

  /** The event has no registration or waitlist record. */
  ghost predicate NoListRecords(items: map<Key, Item>, eventId: string) {
    forall sk :: Key(EventPk(eventId), sk) in items ==> !(RegPrefix <= sk) && !(WaitPrefix <= sk)
  }

  lemma {:induction false} RegistrationsAdded(items: map<Key, Item>, eventId: string, users: seq<string>, known: set<string>)
    requires RegRecords(items, eventId, known)
    ensures var after := WithRegistrations(items, eventId, users);
      && RegRecords(after, eventId, known + Members(users))
      && AgreeOn(items, after, EventPk(eventId), WaitPrefix)
      && SameMetadata(items, after, eventId)
    decreases |users|
  {
    if users != [] {
      var pk := EventPk(eventId);
      var added := WithRegistration(items, eventId, users[0]);
      RegistrationAdded(items, eventId, users[0], known);
      RegistrationsAdded(added, eventId, users[1..], known + {users[0]});
      var after := WithRegistrations(added, eventId, users[1..]);
      assert known + {users[0]} + Members(users[1..]) == known + Members(users);
      AgreeOnTrans(items, added, after, pk, WaitPrefix);
      SameMetadataTrans(items, added, after, eventId);
    } else {
      assert known + Members(users) == known;
    }
  }

  lemma {:induction false} WaitlistAddedFrom(items: map<Key, Item>, eventId: string, waitlist: seq<string>, from: nat)
    requires from <= |waitlist| && Distinct(waitlist)
    requires WaitEntries(items, eventId, Indices(from), waitlist[..from])
    ensures var after := WithWaitlistFrom(items, eventId, waitlist, from);
      && WaitRecords(after, eventId, waitlist)
      && AgreeOn(items, after, EventPk(eventId), RegPrefix)
      && SameMetadata(items, after, eventId)
    decreases |waitlist| - from
  {
    var pk := EventPk(eventId);
    if from < |waitlist| {
      var added := WithWaitEntry(items, eventId, waitlist[from], from);
      assert waitlist[from] !in waitlist[..from];
      WaitEntryAdded(items, eventId, Indices(from), waitlist[..from], waitlist[from], from);
      assert waitlist[..from] + [waitlist[from]] == waitlist[..from + 1];
      WaitlistAddedFrom(added, eventId, waitlist, from + 1);
      var after := WithWaitlistFrom(added, eventId, waitlist, from + 1);
      AgreeOnTrans(items, added, after, pk, RegPrefix);
      SameMetadataTrans(items, added, after, eventId);
    } else {
      assert waitlist[..from] == waitlist;
    }
  }

  /** `EventRepository.create` of a consistent event over a table without
      registration or waitlist records for it stores exactly that event, and
      `get` then returns it. */
  lemma CreatedStores(items: map<Key, Item>, e: Event)
    requires Consistent(e) && |e.waitlist| <= MaxWaitlist && NoListRecords(items, e.eventId)
    ensures StoresEvent(Created(items, e), e)
    ensures GetEvent(Created(items, e), e.eventId) == Success(Some(Normalized(e)))
  {
    var eid := e.eventId;
    var pk := EventPk(eid);
    var meta := WithEventMetadata(items, e);
    MetadataSkHasNoListPrefix();
    assert RegRecords(meta, eid, {});
    assert WaitEntries(meta, eid, Indices(0), e.waitlist[..0]);
    var regs := WithRegistrations(meta, eid, e.registeredUsers);
    RegistrationsAdded(meta, eid, e.registeredUsers, {});
    assert {} + Members(e.registeredUsers) == Members(e.registeredUsers);
    WaitEntriesAgree(meta, regs, eid, Indices(0), e.waitlist[..0]);
    DistinctConcat(e.registeredUsers, e.waitlist);
    WaitlistAddedFrom(regs, eid, e.waitlist, 0);
    var after := WithWaitlistFrom(regs, eid, e.waitlist, 0);
    RegRecordsAgree(regs, after, eid, Members(e.registeredUsers));
    ReadBack(after, e);
  }

  // ---------------------------------------------------------------------------
  // Users
  // ---------------------------------------------------------------------------

  /** `UserRepository.create` of a valid user, then `get`, returns the user. */
  lemma UserRoundTrip(items: map<Key, Item>, user: User)
    requires NewUser(user.userId, user.name).Success?
    ensures GetUser(WithUser(items, user), user.userId) == Success(Some(user))
    ensures UserExists(WithUser(items, user), user.userId) == Success(true)
  {
  }
}
