/** How an event is laid out in the registration table: the METADATA record,
    one REG# record per registered user and one WAIT# record per waitlist
    entry at its position. The lemmas follow each repository write through
    this layout and prove that `EventRepository.get` reads an event back. */
module RegistrationLayout {
  import opened Results
  import opened Text
  import opened RegistrationModels
  import opened RegistrationTable
  import opened RegistrationEngine
  import opened RegistrationRepositories

  /** Up to this many waitlist entries the five-digit positions in the sort
      keys keep the waitlist in order. */
  const MaxWaitlist: nat := 100000

  function Indices(n: nat): (r: seq<nat>)
    ensures |r| == n && forall i :: 0 <= i < n ==> r[i] == i
  {
    if n == 0 then [] else Indices(n - 1) + [n - 1]
  }

  /** `s` without its k-th element. */
  function Without<T>(s: seq<T>, k: nat): (r: seq<T>)
    requires k < |s|
    ensures |r| == |s| - 1
    ensures forall j :: 0 <= j < k ==> r[j] == s[j]
    ensures forall j :: k <= j < |r| ==> r[j] == s[j + 1]
  {
    s[..k] + s[k + 1..]
  }

  /** `a` and `b` hold the same records under `pk` with sort keys beginning
      with `prefix`. */
  ghost predicate AgreeOn(a: map<Key, Item>, b: map<Key, Item>, pk: string, prefix: string) {
    forall sk :: prefix <= sk ==>
      (Key(pk, sk) in a <==> Key(pk, sk) in b) && (Key(pk, sk) in a ==> a[Key(pk, sk)] == b[Key(pk, sk)])
  }

  /** `a` and `b` hold the same METADATA record for the event, or none. */
  ghost predicate SameMetadata(a: map<Key, Item>, b: map<Key, Item>, eventId: string) {
    var mk := Key(EventPk(eventId), MetadataSk);
    (mk in a <==> mk in b) && (mk in a ==> a[mk] == b[mk])
  }

  /** The REG# records of the event are exactly one per user of `users`:
      each user's record is stored, and every REG# key names one of them. */
  ghost predicate RegRecords(items: map<Key, Item>, eventId: string, users: set<string>) {
    var pk := EventPk(eventId);
    && (forall u :: u in users ==>
          Key(pk, RegSk(u)) in items && items[Key(pk, RegSk(u))] == RegItem(u, eventId))
    && (forall sk :: Key(pk, sk) in items && RegPrefix <= sk ==> sk[|RegPrefix|..] in users)
  }

  /** The WAIT# records of the event are exactly one per entry of `users`, the
      i-th at position `positions[i]`. */
  ghost predicate WaitEntries(items: map<Key, Item>, eventId: string, positions: seq<nat>, users: seq<string>) {
    WaitStored(items, eventId, positions, users) && WaitKeyed(items, eventId, positions, users)
  }

  /** Each entry's WAIT# record is stored. */
  ghost predicate WaitStored(items: map<Key, Item>, eventId: string, positions: seq<nat>, users: seq<string>) {
    var pk := EventPk(eventId);
    && |positions| == |users|
    && forall i {:trigger WaitSk(positions[i], users[i])} :: 0 <= i < |users| ==>
         && Key(pk, WaitSk(positions[i], users[i])) in items
         && items[Key(pk, WaitSk(positions[i], users[i]))] == WaitItem(users[i], eventId, positions[i])
  }

  /** Every WAIT# key of the event belongs to the first entry of the user it
      records. */
  ghost predicate WaitKeyed(items: map<Key, Item>, eventId: string, positions: seq<nat>, users: seq<string>) {
    var pk := EventPk(eventId);
    && |positions| == |users|
    && forall sk :: Key(pk, sk) in items && WaitPrefix <= sk ==>
         && HasUserId(items[Key(pk, sk)])
         && items[Key(pk, sk)].userId in users
         && sk == WaitSk(positions[IndexOf(users, items[Key(pk, sk)].userId)], items[Key(pk, sk)].userId)
  }

  /** The waitlist is stored at positions 0..n-1 in list order. */
  ghost predicate WaitRecords(items: map<Key, Item>, eventId: string, waitlist: seq<string>) {
    WaitEntries(items, eventId, Indices(|waitlist|), waitlist)
  }

  /** The users on a list, as a set. */
  function Members(s: seq<string>): (r: set<string>)
    ensures forall u :: u in r <==> u in s
  {
    set u | u in s
  }

  /** The table holds exactly event `e`: METADATA with its fields and counts,
      its registrations and its waitlist, and `e` keeps the invariants of the
      registration engine. */
  ghost predicate StoresEvent(items: map<Key, Item>, e: Event) {
    var mk := Key(EventPk(e.eventId), MetadataSk);
    && mk in items
    && items[mk] == EventItem(e.eventId, e.name, e.capacity, e.waitlistEnabled,
                              |e.registeredUsers|, |e.waitlist|)
    && RegRecords(items, e.eventId, Members(e.registeredUsers))
    && WaitRecords(items, e.eventId, e.waitlist)
    && Consistent(e)
    && |e.waitlist| <= MaxWaitlist
  }

  /** The event as a read returns it: registered users come back in sort key
      order, that is ordered by user id. */
  function Normalized(e: Event): (r: Event)
    ensures r.eventId == e.eventId && r.name == e.name && r.capacity == e.capacity
    ensures r.waitlistEnabled == e.waitlistEnabled && r.waitlist == e.waitlist
    ensures StrictlySorted(r.registeredUsers)
    ensures forall u :: u in r.registeredUsers <==> u in e.registeredUsers
  {
    e.(registeredUsers := SortStrings(Members(e.registeredUsers)))
  }

  // ---------------------------------------------------------------------------
  // Small facts
  // ---------------------------------------------------------------------------

  lemma RegSkDistinct(a: string, b: string)
    ensures RegSk(a) == RegSk(b) <==> a == b
  {
    if RegSk(a) == RegSk(b) {
      assert a == RegSk(a)[|RegPrefix|..];
    }
  }

  lemma RegSkOfSuffix(sk: string)
    requires RegPrefix <= sk
    ensures RegSk(sk[|RegPrefix|..]) == sk
  {
    assert sk == RegPrefix + sk[|RegPrefix|..];
  }

  lemma WaitSkDistinct(i: nat, a: string, j: nat, b: string)
    ensures WaitSk(i, a) == WaitSk(j, b) <==> i == j && a == b
  {
    if WaitSk(i, a) == WaitSk(j, b) {
      WaitSkInjective(i, a, j, b);
    }
  }

  /** The element at i != k sits one place earlier past k. */
  lemma WithoutIndex<T>(s: seq<T>, k: nat, i: nat)
    requires k < |s| && i < |s| && i != k
    ensures var j := if i < k then i else i - 1;
      j < |Without(s, k)| && Without(s, k)[j] == s[i]
  {
  }

  lemma WithoutDistinct(s: seq<string>, k: nat)
    requires Distinct(s) && k < |s|
    ensures Distinct(Without(s, k))
  {
    var r := Without(s, k);
    forall a, b | 0 <= a < b < |r| ensures r[a] != r[b] {
      var a', b' := if a < k then a else a + 1, if b < k then b else b + 1;
      assert r[a] == s[a'] && r[b] == s[b'];
    }
  }

  lemma RegRecordsAgree(a: map<Key, Item>, b: map<Key, Item>, eventId: string, users: set<string>)
    requires RegRecords(a, eventId, users) && AgreeOn(a, b, EventPk(eventId), RegPrefix)
    ensures RegRecords(b, eventId, users)
  {
  }

  lemma WaitEntriesAgree(a: map<Key, Item>, b: map<Key, Item>, eventId: string, positions: seq<nat>, users: seq<string>)
    requires WaitEntries(a, eventId, positions, users) && AgreeOn(a, b, EventPk(eventId), WaitPrefix)
    ensures WaitEntries(b, eventId, positions, users)
  {
    var pk := EventPk(eventId);
    forall sk | Key(pk, sk) in b && WaitPrefix <= sk
      ensures Key(pk, sk) in a && a[Key(pk, sk)] == b[Key(pk, sk)]
    {
    }
  }

  lemma StrictlySortedDistinct(s: seq<string>)
    requires StrictlySorted(s)
    ensures Distinct(s)
  {
    forall i, j | 0 <= i < j < |s| ensures s[i] != s[j] {
      LessIrreflexive(s[i]);
    }
  }

  lemma {:induction false} DistinctCard(s: seq<string>)
    requires Distinct(s)
    ensures |Members(s)| == |s|
  {
    if s != [] {
      var t := s[1..];
      assert Distinct(t);
      DistinctCard(t);
      assert Members(s) == Members(t) + {s[0]};
      assert s[0] !in t;
    }
  }

  // ---------------------------------------------------------------------------
  // Each write through the layout
  // ---------------------------------------------------------------------------

  /** `_add_registration` adds the user's REG# record and touches neither the
      waitlist nor METADATA. */
  lemma RegistrationAdded(items: map<Key, Item>, eventId: string, userId: string, users: set<string>)
    requires RegRecords(items, eventId, users)
    ensures var after := WithRegistration(items, eventId, userId);
      && RegRecords(after, eventId, users + {userId})
      && AgreeOn(items, after, EventPk(eventId), WaitPrefix)
      && SameMetadata(items, after, eventId)
  {
    var pk := EventPk(eventId);
    var after := WithRegistration(items, eventId, userId);
    forall u | u in users + {userId}
      ensures Key(pk, RegSk(u)) in after && after[Key(pk, RegSk(u))] == RegItem(u, eventId)
    {
      RegSkDistinct(u, userId);
    }
  }

  /** `_remove_registration` removes exactly the user's REG# record. */
  lemma RegistrationRemoved(items: map<Key, Item>, eventId: string, userId: string, users: set<string>)
    requires RegRecords(items, eventId, users)
    ensures var after := WithoutRegistration(items, eventId, userId);
      && RegRecords(after, eventId, users - {userId})
      && AgreeOn(items, after, EventPk(eventId), WaitPrefix)
      && SameMetadata(items, after, eventId)
  {
    var pk := EventPk(eventId);
    var after := WithoutRegistration(items, eventId, userId);
    forall u | u in users - {userId} ensures Key(pk, RegSk(u)) in after {
      RegSkDistinct(u, userId);
    }
    forall sk | Key(pk, sk) in after && RegPrefix <= sk ensures sk[|RegPrefix|..] in users - {userId} {
      RegSkOfSuffix(sk);
    }
  }

  /** `_add_to_waitlist` for a user not yet on the waitlist adds one WAIT#
      record and touches neither the registrations nor METADATA. */
  lemma WaitEntryAdded(items: map<Key, Item>, eventId: string, positions: seq<nat>, users: seq<string>,
                       userId: string, position: nat)
    requires WaitEntries(items, eventId, positions, users) && userId !in users
    ensures var after := WithWaitEntry(items, eventId, userId, position);
      && WaitEntries(after, eventId, positions + [position], users + [userId])
      && AgreeOn(items, after, EventPk(eventId), RegPrefix)
      && SameMetadata(items, after, eventId)
  {
    WaitEntryAddedStored(items, eventId, positions, users, userId, position);
    WaitEntryAddedKeyed(items, eventId, positions, users, userId, position);
  }

  lemma WaitEntryAddedStored(items: map<Key, Item>, eventId: string, positions: seq<nat>, users: seq<string>,
                             userId: string, position: nat)
    requires WaitStored(items, eventId, positions, users) && userId !in users
    ensures WaitStored(WithWaitEntry(items, eventId, userId, position), eventId,
                       positions + [position], users + [userId])
  {
    var pk := EventPk(eventId);
    var after := WithWaitEntry(items, eventId, userId, position);
    var ps, us := positions + [position], users + [userId];
    forall i | 0 <= i < |us|
      ensures Key(pk, WaitSk(ps[i], us[i])) in after
      ensures after[Key(pk, WaitSk(ps[i], us[i]))] == WaitItem(us[i], eventId, ps[i])
    {
      if i < |users| {
        assert ps[i] == positions[i] && us[i] == users[i];
        WaitSkDistinct(positions[i], users[i], position, userId);
      }
    }
  }

  lemma WaitEntryAddedKeyed(items: map<Key, Item>, eventId: string, positions: seq<nat>, users: seq<string>,
                            userId: string, position: nat)
    requires WaitKeyed(items, eventId, positions, users) && userId !in users
    ensures WaitKeyed(WithWaitEntry(items, eventId, userId, position), eventId,
                      positions + [position], users + [userId])
  {
    var pk := EventPk(eventId);
    var after := WithWaitEntry(items, eventId, userId, position);
    var ps, us := positions + [position], users + [userId];
    forall sk | Key(pk, sk) in after && WaitPrefix <= sk
      ensures HasUserId(after[Key(pk, sk)]) && after[Key(pk, sk)].userId in us
      ensures sk == WaitSk(ps[IndexOf(us, after[Key(pk, sk)].userId)], after[Key(pk, sk)].userId)
    {
      if sk == WaitSk(position, userId) {
        IndexOfPastPrefix(users, [userId], userId);
      } else {
        IndexOfPrefix(users, [userId], items[Key(pk, sk)].userId);
      }
    }
  }

  /** With distinct users on the waitlist, `_remove_from_waitlist` of the k-th
      user deletes exactly that user's WAIT# record. */
  lemma WaitRemovalFinds(items: map<Key, Item>, eventId: string, positions: seq<nat>, users: seq<string>, k: nat)
    requires WaitEntries(items, eventId, positions, users) && Distinct(users) && k < |users|
    ensures WaitlistRemoval(items, eventId, users[k])
            == Success(items - {Key(EventPk(eventId), WaitSk(positions[k], users[k]))})
  {
    var pk := EventPk(eventId);
    var sks := QueryKeys(items, pk, WaitPrefix);
    var found := WaitSk(positions[k], users[k]);
    IndexOfDistinct(users, k);
    FirstMatchUnique(items, pk, sks, users[k], found);
  }

  /** Deleting the k-th user's WAIT# record leaves the others in place. */
  lemma WaitEntryDeleted(items: map<Key, Item>, eventId: string, positions: seq<nat>, users: seq<string>, k: nat)
    requires WaitEntries(items, eventId, positions, users) && Distinct(users) && k < |users|
    ensures var after := items - {Key(EventPk(eventId), WaitSk(positions[k], users[k]))};
      && WaitEntries(after, eventId, Without(positions, k), Without(users, k))
      && AgreeOn(items, after, EventPk(eventId), RegPrefix)
      && SameMetadata(items, after, eventId)
  {
    WaitEntryDeletedStored(items, eventId, positions, users, k);
    WaitEntryDeletedKeyed(items, eventId, positions, users, k);
  }

  lemma WaitEntryDeletedStored(items: map<Key, Item>, eventId: string, positions: seq<nat>, users: seq<string>, k: nat)
    requires WaitStored(items, eventId, positions, users) && Distinct(users) && k < |users|
    ensures WaitStored(items - {Key(EventPk(eventId), WaitSk(positions[k], users[k]))}, eventId,
                       Without(positions, k), Without(users, k))
  {
    var pk := EventPk(eventId);
    var after := items - {Key(pk, WaitSk(positions[k], users[k]))};
    var ps, us := Without(positions, k), Without(users, k);
    forall j | 0 <= j < |us|
      ensures Key(pk, WaitSk(ps[j], us[j])) in after
      ensures after[Key(pk, WaitSk(ps[j], us[j]))] == WaitItem(us[j], eventId, ps[j])
    {
      var i := if j < k then j else j + 1;
      WithoutIndex(users, k, i);
      WithoutIndex(positions, k, i);
      WaitSkDistinct(positions[i], users[i], positions[k], users[k]);
    }
  }

  lemma WaitEntryDeletedKeyed(items: map<Key, Item>, eventId: string, positions: seq<nat>, users: seq<string>, k: nat)
    requires WaitKeyed(items, eventId, positions, users) && Distinct(users) && k < |users|
    ensures WaitKeyed(items - {Key(EventPk(eventId), WaitSk(positions[k], users[k]))}, eventId,
                      Without(positions, k), Without(users, k))
  {
    var pk := EventPk(eventId);
    var after := items - {Key(pk, WaitSk(positions[k], users[k]))};
    var ps, us := Without(positions, k), Without(users, k);
    WithoutDistinct(users, k);
    forall sk | Key(pk, sk) in after && WaitPrefix <= sk
      ensures HasUserId(after[Key(pk, sk)]) && after[Key(pk, sk)].userId in us
      ensures sk == WaitSk(ps[IndexOf(us, after[Key(pk, sk)].userId)], after[Key(pk, sk)].userId)
    {
      var u := items[Key(pk, sk)].userId;
      var i := IndexOf(users, u);
      assert i != k;
      WithoutIndex(users, k, i);
      WithoutIndex(positions, k, i);
      IndexOfDistinct(us, if i < k then i else i - 1);
    }
  }

  /** Deleting the k-th user's WAIT# record and storing the user again at
      `position` leaves the others in place. */
  lemma WaitEntryMoved(items: map<Key, Item>, eventId: string, positions: seq<nat>, users: seq<string>,
                       k: nat, position: nat)
    requires WaitEntries(items, eventId, positions, users) && Distinct(users) && k < |users|
    ensures var after := WithWaitEntry(items - {Key(EventPk(eventId), WaitSk(positions[k], users[k]))},
                                       eventId, users[k], position);
      && WaitEntries(after, eventId, positions[k := position], users)
      && AgreeOn(items, after, EventPk(eventId), RegPrefix)
      && SameMetadata(items, after, eventId)
  {
    WaitEntryMovedStored(items, eventId, positions, users, k, position);
    WaitEntryMovedKeyed(items, eventId, positions, users, k, position);
  }

  lemma WaitEntryMovedStored(items: map<Key, Item>, eventId: string, positions: seq<nat>, users: seq<string>,
                             k: nat, position: nat)
    requires WaitStored(items, eventId, positions, users) && Distinct(users) && k < |users|
    ensures WaitStored(WithWaitEntry(items - {Key(EventPk(eventId), WaitSk(positions[k], users[k]))},
                                     eventId, users[k], position),
                       eventId, positions[k := position], users)
  {
    var pk := EventPk(eventId);
    var after := WithWaitEntry(items - {Key(pk, WaitSk(positions[k], users[k]))}, eventId, users[k], position);
    var ps := positions[k := position];
    forall i | 0 <= i < |users|
      ensures Key(pk, WaitSk(ps[i], users[i])) in after
      ensures after[Key(pk, WaitSk(ps[i], users[i]))] == WaitItem(users[i], eventId, ps[i])
    {
      if i != k {
        WaitSkDistinct(positions[i], users[i], positions[k], users[k]);
        WaitSkDistinct(positions[i], users[i], position, users[k]);
      }
    }
  }

  lemma WaitEntryMovedKeyed(items: map<Key, Item>, eventId: string, positions: seq<nat>, users: seq<string>,
                            k: nat, position: nat)
    requires WaitKeyed(items, eventId, positions, users) && Distinct(users) && k < |users|
    ensures WaitKeyed(WithWaitEntry(items - {Key(EventPk(eventId), WaitSk(positions[k], users[k]))},
                                    eventId, users[k], position),
                      eventId, positions[k := position], users)
  {
    var pk := EventPk(eventId);
    var after := WithWaitEntry(items - {Key(pk, WaitSk(positions[k], users[k]))}, eventId, users[k], position);
    var ps := positions[k := position];
    IndexOfDistinct(users, k);
    forall sk | Key(pk, sk) in after && WaitPrefix <= sk
      ensures HasUserId(after[Key(pk, sk)]) && after[Key(pk, sk)].userId in users
      ensures sk == WaitSk(ps[IndexOf(users, after[Key(pk, sk)].userId)], after[Key(pk, sk)].userId)
    {
      if sk != WaitSk(position, users[k]) {
        var i := IndexOf(users, items[Key(pk, sk)].userId);
        assert i != k;
      }
    }
  }

  /** `EventRepository.update` on a stored event sets its counts and changes
      no membership record. */
  lemma CountsUpdated(items: map<Key, Item>, e: Event, next: Event)
    requires var mk := Key(EventPk(e.eventId), MetadataSk);
      mk in items && items[mk] == EventItem(e.eventId, e.name, e.capacity, e.waitlistEnabled,
                                            |e.registeredUsers|, |e.waitlist|)
    requires next.eventId == e.eventId
    ensures var after := WithCounts(items, next);
      && after[Key(EventPk(e.eventId), MetadataSk)]
           == EventItem(e.eventId, e.name, e.capacity, e.waitlistEnabled,
                        |next.registeredUsers|, |next.waitlist|)
      && AgreeOn(items, after, EventPk(e.eventId), RegPrefix)
      && AgreeOn(items, after, EventPk(e.eventId), WaitPrefix)
  {
    MetadataSkHasNoListPrefix();
  }

  // ---------------------------------------------------------------------------
  // Reading an event back
  // ---------------------------------------------------------------------------

  /** The REG# sort keys of `users`, in the same order. */
  function RegKeys(users: seq<string>): (r: seq<string>)
    ensures |r| == |users| && forall i :: 0 <= i < |users| ==> r[i] == RegSk(users[i])
  {
    seq(|users|, i requires 0 <= i < |users| => RegSk(users[i]))
  }

  /** The WAIT# sort keys of `waitlist` at positions 0..n-1. */
  function WaitKeys(waitlist: seq<string>): (r: seq<string>)
    ensures |r| == |waitlist| && forall i :: 0 <= i < |waitlist| ==> r[i] == WaitSk(i, waitlist[i])
  {
    seq(|waitlist|, i requires 0 <= i < |waitlist| => WaitSk(i, waitlist[i]))
  }

  lemma RegKeysSorted(users: seq<string>)
    requires StrictlySorted(users)
    ensures StrictlySorted(RegKeys(users))
  {
    var keys := RegKeys(users);
    forall i, j | 0 <= i < j < |keys| ensures Less(keys[i], keys[j]) {
      RegSkOrder(users[i], users[j]);
    }
  }

  lemma WaitKeysSorted(waitlist: seq<string>)
    requires |waitlist| <= MaxWaitlist
    ensures StrictlySorted(WaitKeys(waitlist))
  {
    var keys := WaitKeys(waitlist);
    forall i, j | 0 <= i < j < |keys| ensures Less(keys[i], keys[j]) {
      WaitSkOrder(i, waitlist[i], j, waitlist[j]);
    }
  }

  /** A query whose keys are `keys`, each holding the matching user of
      `users`, lists exactly `users`. */
  lemma ListedFrom(items: map<Key, Item>, eventId: string, prefix: string, keys: seq<string>, users: seq<string>)
    requires QueryKeys(items, EventPk(eventId), prefix) == keys && |keys| == |users|
    requires forall i :: 0 <= i < |keys| ==>
      Key(EventPk(eventId), keys[i]) in items && HasUserId(items[Key(EventPk(eventId), keys[i])])
      && items[Key(EventPk(eventId), keys[i])].userId == users[i]
    ensures ListedUsers(items, eventId, prefix) == Success(users)
  {
    var r := ProjectUserIds(items, EventPk(eventId), keys);
    assert r.value == users;
  }

  /** The REG# records read back as the registered users in ascending order. */
  lemma RegistrationsReadBack(items: map<Key, Item>, eventId: string, users: set<string>)
    requires RegRecords(items, eventId, users)
    ensures ListedUsers(items, eventId, RegPrefix) == Success(SortStrings(users))
  {
    var sorted := SortStrings(users);
    RegQueryKeys(items, eventId, users);
    RegItemsAt(items, eventId, users);
    ListedFrom(items, eventId, RegPrefix, RegKeys(sorted), sorted);
  }

  /** The REG# query of the event returns the registered users' keys in
      user order. */
  lemma RegQueryKeys(items: map<Key, Item>, eventId: string, users: set<string>)
    requires RegRecords(items, eventId, users)
    ensures QueryKeys(items, EventPk(eventId), RegPrefix) == RegKeys(SortStrings(users))
  {
    var keys := RegKeys(SortStrings(users));
    RegKeysSorted(SortStrings(users));
    RegKeysStored(items, eventId, users);
    SortStringsOfSorted(keys, SkSet(items, EventPk(eventId), RegPrefix));
  }

  /** The i-th REG# key in user order holds the i-th user's record. */
  lemma RegItemsAt(items: map<Key, Item>, eventId: string, users: set<string>)
    requires RegRecords(items, eventId, users)
    ensures var pk, sorted := EventPk(eventId), SortStrings(users);
      var keys := RegKeys(sorted);
      forall i :: 0 <= i < |keys| ==>
        Key(pk, keys[i]) in items && HasUserId(items[Key(pk, keys[i])])
        && items[Key(pk, keys[i])].userId == sorted[i]
  {
    var pk := EventPk(eventId);
    var sorted := SortStrings(users);
    var keys := RegKeys(sorted);
    forall i | 0 <= i < |keys| ensures Key(pk, keys[i]) in items && items[Key(pk, keys[i])] == RegItem(sorted[i], eventId) {
      assert sorted[i] in users;
    }
  }

  /** The REG# keys of the event are exactly those of the registered users. */
  lemma RegKeysStored(items: map<Key, Item>, eventId: string, users: set<string>)
    requires RegRecords(items, eventId, users)
    ensures forall sk :: sk in RegKeys(SortStrings(users)) <==> sk in SkSet(items, EventPk(eventId), RegPrefix)
  {
    var pk := EventPk(eventId);
    var sorted := SortStrings(users);
    var keys := RegKeys(sorted);
    forall sk ensures sk in keys <==> sk in SkSet(items, pk, RegPrefix) {
      if sk in SkSet(items, pk, RegPrefix) {
        var u := sk[|RegPrefix|..];
        RegSkOfSuffix(sk);
        var i :| 0 <= i < |sorted| && sorted[i] == u;
        assert keys[i] == sk;
      }
      if sk in keys {
        var i :| 0 <= i < |keys| && keys[i] == sk;
        assert sorted[i] in users;
      }
    }
  }

  /** The WAIT# records at positions 0..n-1 read back as the waitlist, in
      order, while n is at most 100000. */
  lemma WaitlistReadBack(items: map<Key, Item>, eventId: string, waitlist: seq<string>)
    requires WaitRecords(items, eventId, waitlist) && |waitlist| <= MaxWaitlist
    ensures ListedUsers(items, eventId, WaitPrefix) == Success(waitlist)
  {
    var pk := EventPk(eventId);
    var keys := WaitKeys(waitlist);
    WaitKeysSorted(waitlist);
    WaitKeysStored(items, eventId, waitlist);
    SortStringsOfSorted(keys, SkSet(items, pk, WaitPrefix));
    WaitItemsAt(items, eventId, waitlist);
    ListedFrom(items, eventId, WaitPrefix, keys, waitlist);
  }

  /** The WAIT# keys of the event are exactly those of the waitlist at
      positions 0..n-1. */
  lemma WaitKeysStored(items: map<Key, Item>, eventId: string, waitlist: seq<string>)
    requires WaitRecords(items, eventId, waitlist)
    ensures forall sk :: sk in WaitKeys(waitlist) <==> sk in SkSet(items, EventPk(eventId), WaitPrefix)
  {
    var pk := EventPk(eventId);
    var ps := Indices(|waitlist|);
    var keys := WaitKeys(waitlist);
    forall sk ensures sk in keys <==> sk in SkSet(items, pk, WaitPrefix) {
      if sk in SkSet(items, pk, WaitPrefix) {
        var i := IndexOf(waitlist, items[Key(pk, sk)].userId);
        assert keys[i] == sk;
      }
      if sk in keys {
        var i :| 0 <= i < |keys| && keys[i] == sk;
        assert sk == WaitSk(ps[i], waitlist[i]);
      }
    }
  }

  /** The record under the i-th WAIT# key is the i-th waitlist entry. */
  lemma WaitItemsAt(items: map<Key, Item>, eventId: string, waitlist: seq<string>)
    requires WaitRecords(items, eventId, waitlist)
    ensures var pk, keys := EventPk(eventId), WaitKeys(waitlist);
      forall i :: 0 <= i < |keys| ==>
        Key(pk, keys[i]) in items && HasUserId(items[Key(pk, keys[i])])
        && items[Key(pk, keys[i])].userId == waitlist[i]
  {
    var pk := EventPk(eventId);
    var ps := Indices(|waitlist|);
    var keys := WaitKeys(waitlist);
    forall i | 0 <= i < |keys|
      ensures Key(pk, keys[i]) in items && items[Key(pk, keys[i])] == WaitItem(waitlist[i], eventId, i)
    {
      assert keys[i] == WaitSk(ps[i], waitlist[i]);
    }
  }

  /** `EventRepository.get` of a stored event returns it, with the registered
      users in ascending order and the waitlist in its stored order. */
  lemma ReadBack(items: map<Key, Item>, e: Event)
    requires StoresEvent(items, e)
    ensures GetEvent(items, e.eventId) == Success(Some(Normalized(e)))
    ensures StoresEvent(items, Normalized(e))
  {
    ReadBackGet(items, e);
    NormalizedStored(items, e);
  }

  lemma ReadBackGet(items: map<Key, Item>, e: Event)
    requires StoresEvent(items, e)
    ensures GetEvent(items, e.eventId) == Success(Some(Normalized(e)))
  {
    RegistrationsReadBack(items, e.eventId, Members(e.registeredUsers));
    WaitlistReadBack(items, e.eventId, e.waitlist);
    GetEventOf(items, Normalized(e));
  }

  /** The normalized event is stored by the same records. */
  lemma NormalizedStored(items: map<Key, Item>, e: Event)
    requires StoresEvent(items, e)
    ensures StoresEvent(items, Normalized(e))
  {
    NormalizedMembers(e);
    ReadBackConsistent(e);
  }

  lemma NormalizedMembers(e: Event)
    ensures Members(Normalized(e).registeredUsers) == Members(e.registeredUsers)
  {
  }

  /** `get` of an event whose METADATA record carries the fields of `e` and
      whose two queries list its registered users and its waitlist. */
  lemma GetEventOf(items: map<Key, Item>, e: Event)
    requires var mk := Key(EventPk(e.eventId), MetadataSk);
      && mk in items && items[mk].EventItem?
      && items[mk].eventId == e.eventId && items[mk].name == e.name
      && items[mk].capacity == e.capacity && items[mk].waitlistEnabled == e.waitlistEnabled
    requires e.capacity > 0
    requires ListedUsers(items, e.eventId, RegPrefix) == Success(e.registeredUsers)
    requires ListedUsers(items, e.eventId, WaitPrefix) == Success(e.waitlist)
    ensures GetEvent(items, e.eventId) == Success(Some(e))
  {
  }

  lemma ReadBackConsistent(e: Event)
    requires Consistent(e)
    ensures Consistent(Normalized(e))
    ensures |Normalized(e).registeredUsers| == |e.registeredUsers|
  {
    var n := Normalized(e);
    DistinctConcat(e.registeredUsers, e.waitlist);
    DistinctCard(e.registeredUsers);
    StrictlySortedDistinct(n.registeredUsers);
    DistinctConcat(n.registeredUsers, n.waitlist);
  }
}
