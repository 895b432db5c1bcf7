/** The registration state machine of backend/registration/service.py, stated
    on the Event value alone: what `register_user` and `unregister_user` do to
    `registered_users` and `waitlist` once the event has been read, and the
    invariants both keep. The service methods that perform these steps on the
    store are proved to agree with these functions. */
module RegistrationEngine {
  import opened Results
  import opened Text
  import opened RegistrationModels

  /** The position of the first occurrence of `x`. */
  function IndexOf(s: seq<string>, x: string): (i: nat)
    requires x in s
    ensures i < |s| && s[i] == x && x !in s[..i]
  {
    if s[0] == x then 0 else 1 + IndexOf(s[1..], x)
  }

  /** Python's `list.remove(x)`: the first occurrence of `x` is dropped and the
      rest keeps its order. */
  function RemoveFirst(s: seq<string>, x: string): (r: seq<string>)
    requires x in s
    ensures |r| == |s| - 1
  {
    var i := IndexOf(s, x);
    s[..i] + s[i + 1..]
  }

  /** The invariants of an event that only these operations have changed:
      the capacity is positive and never exceeded, a user is in at most one
      list and at most once, there is no waitlist when the event has it
      disabled, and nobody waits while a seat is free. */
  ghost predicate Consistent(e: Event) {
    && e.capacity > 0
    && |e.registeredUsers| <= e.capacity
    && Distinct(e.registeredUsers + e.waitlist)
    && (!e.waitlistEnabled ==> e.waitlist == [])
    && (e.waitlist != [] ==> |e.registeredUsers| == e.capacity)
  }

  /** The decision `register_user` takes on the event it has read: reject a
      user already on either list, take a free seat, else join the waitlist
      tail when it is enabled, else report the event full. */
  function RegisterStep(e: Event, userId: string): Result<(Event, Status), Error> {
    if userId in e.registeredUsers || userId in e.waitlist then Failure(AlreadyRegistered)
    else if HasAvailableCapacity(e) then
      Success((e.(registeredUsers := e.registeredUsers + [userId]), Registered))
    else if e.waitlistEnabled then
      Success((e.(waitlist := e.waitlist + [userId]), Waitlisted))
    else Failure(EventFull)
  }

  /** The decision `unregister_user` takes on the event it has read: a
      registered user gives up the seat and the head of the waitlist, if any,
      takes it; a waitlisted user leaves the waitlist; anyone else is
      rejected. */
  function UnregisterStep(e: Event, userId: string): Result<Event, Error> {
    if userId in e.registeredUsers then
      var kept := RemoveFirst(e.registeredUsers, userId);
      if e.waitlist != [] then
        Success(e.(registeredUsers := kept + [e.waitlist[0]], waitlist := e.waitlist[1..]))
      else
        Success(e.(registeredUsers := kept))
    else if userId in e.waitlist then
      Success(e.(waitlist := RemoveFirst(e.waitlist, userId)))
    else Failure(NotRegistered)
  }

  // ---------------------------------------------------------------------------
  // Facts about list.remove
  // ---------------------------------------------------------------------------

  lemma RemoveFirstMembers(s: seq<string>, x: string)
    requires x in s && Distinct(s)
    ensures Distinct(RemoveFirst(s, x))
    ensures forall y :: y in RemoveFirst(s, x) <==> y in s && y != x
  {
    var i := IndexOf(s, x);
    var r := RemoveFirst(s, x);
    forall y ensures y in r <==> y in s && y != x {
      if y in r {
        var k :| 0 <= k < |r| && r[k] == y;
        if k < i { assert s[k] == y; } else { assert s[k + 1] == y; }
      }
      if y in s && y != x {
        var k :| 0 <= k < |s| && s[k] == y;
        if k < i { assert r[k] == y; } else { assert k != i; assert r[k - 1] == y; }
      }
    }
    forall a, b | 0 <= a < b < |r|
      ensures r[a] != r[b]
    {
      var a', b' := if a < i then a else a + 1, if b < i then b else b + 1;
      assert r[a] == s[a'] && r[b] == s[b'];
    }
  }

  /** Removing an element that was appended last gives back the list before
      the append. */
  lemma RemoveFirstOfAppended(s: seq<string>, x: string)
    requires x !in s
    ensures RemoveFirst(s + [x], x) == s
  {
    IndexOfPastPrefix(s, [x], x);
    assert (s + [x])[..|s|] == s;
  }

  lemma {:induction false} IndexOfPastPrefix(s: seq<string>, t: seq<string>, x: string)
    requires x !in s && x in t
    ensures IndexOf(s + t, x) == |s| + IndexOf(t, x)
  {
    if s != [] {
      assert (s + t)[1..] == s[1..] + t;
      IndexOfPastPrefix(s[1..], t, x);
    } else {
      assert s + t == t;
    }
  }

  lemma {:induction false} IndexOfPrefix(s: seq<string>, t: seq<string>, x: string)
    requires x in s
    ensures IndexOf(s + t, x) == IndexOf(s, x)
  {
    if s[0] != x {
      assert (s + t)[1..] == s[1..] + t;
      IndexOfPrefix(s[1..], t, x);
    }
  }

  /** In a list without repetitions, the first occurrence is the only one. */
  lemma IndexOfDistinct(s: seq<string>, j: nat)
    requires Distinct(s) && j < |s|
    ensures IndexOf(s, s[j]) == j
  {
    var i := IndexOf(s, s[j]);
    forall m | 0 <= m < i ensures s[m] != s[j] {
      assert s[..i][m] == s[m];
    }
  }

  lemma DistinctConcat(a: seq<string>, b: seq<string>)
    ensures Distinct(a + b) <==> Distinct(a) && Distinct(b) && forall x :: x in a ==> x !in b
  {
    if Distinct(a + b) {
      forall i, j | 0 <= i < j < |a| ensures a[i] != a[j] {
        assert a[i] == (a + b)[i] && a[j] == (a + b)[j];
      }
      forall i, j | 0 <= i < j < |b| ensures b[i] != b[j] {
        assert b[i] == (a + b)[|a| + i] && b[j] == (a + b)[|a| + j];
      }
      forall x | x in a ensures x !in b {
        var i :| 0 <= i < |a| && a[i] == x;
        forall j | 0 <= j < |b| ensures b[j] != x {
          assert (a + b)[i] == a[i] && (a + b)[|a| + j] == b[j];
        }
      }
    }
    if Distinct(a) && Distinct(b) && forall x :: x in a ==> x !in b {
      forall i, j | 0 <= i < j < |a + b| ensures (a + b)[i] != (a + b)[j] {
        if j < |a| {
          assert (a + b)[i] == a[i] && (a + b)[j] == a[j];
        } else if i >= |a| {
          assert (a + b)[i] == b[i - |a|] && (a + b)[j] == b[j - |a|];
        } else {
          assert (a + b)[i] == a[i] && a[i] in a;
          assert (a + b)[j] == b[j - |a|] && b[j - |a|] in b;
        }
      }
    }
  }

  // ---------------------------------------------------------------------------
  // register_user
  // ---------------------------------------------------------------------------

  /** The outcome of a registration attempt, by case: a user already on
      either list is rejected; a user who finds a free seat is appended to
      `registered_users`, the waitlist untouched; a user who finds the event
      full joins the waitlist tail when it is enabled, the registered users
      untouched, and is otherwise turned away. */
  lemma RegisterOutcome(e: Event, userId: string)
    ensures RegisterStep(e, userId) == Failure(AlreadyRegistered)
            <==> userId in e.registeredUsers || userId in e.waitlist
    ensures (RegisterStep(e, userId).Success? && RegisterStep(e, userId).value.1 == Registered)
            <==> userId !in e.registeredUsers && userId !in e.waitlist && |e.registeredUsers| < e.capacity
    ensures (RegisterStep(e, userId).Success? && RegisterStep(e, userId).value.1 == Waitlisted)
            <==> userId !in e.registeredUsers && userId !in e.waitlist
                 && |e.registeredUsers| >= e.capacity && e.waitlistEnabled
    ensures RegisterStep(e, userId) == Failure(EventFull)
            <==> userId !in e.registeredUsers && userId !in e.waitlist
                 && |e.registeredUsers| >= e.capacity && !e.waitlistEnabled
    ensures RegisterStep(e, userId).Success? ==>
      var (next, status) := RegisterStep(e, userId).value;
      && next.eventId == e.eventId && next.name == e.name
      && next.capacity == e.capacity && next.waitlistEnabled == e.waitlistEnabled
      && (status == Registered ==>
            next.registeredUsers == e.registeredUsers + [userId] && next.waitlist == e.waitlist)
      && (status == Waitlisted ==>
            next.waitlist == e.waitlist + [userId] && next.registeredUsers == e.registeredUsers)
  {
  }

  /** A registration keeps every invariant: in particular the capacity is not
      exceeded and the new user is on exactly one list, once. */
  lemma RegisterKeepsConsistent(e: Event, userId: string)
    requires Consistent(e) && RegisterStep(e, userId).Success?
    ensures Consistent(RegisterStep(e, userId).value.0)
  {
    var (next, status) := RegisterStep(e, userId).value;
    DistinctConcat(e.registeredUsers, e.waitlist);
    if status == Registered {
      DistinctConcat(e.registeredUsers, [userId]);
      DistinctConcat(e.registeredUsers + [userId], e.waitlist);
    } else {
      DistinctConcat(e.waitlist, [userId]);
      DistinctConcat(e.registeredUsers, e.waitlist + [userId]);
    }
  }

  // ---------------------------------------------------------------------------
  // unregister_user
  // ---------------------------------------------------------------------------

  /** Unregistering leaves the user on neither list and everyone else where
      they were, except that a freed seat goes to the head of the waitlist:
      the waitlist behind the head keeps its order (FIFO promotion), and a
      waitlisted user leaving keeps the others' order. */
  lemma UnregisterOutcome(e: Event, userId: string)
    requires Consistent(e)
    ensures UnregisterStep(e, userId) == Failure(NotRegistered)
            <==> userId !in e.registeredUsers && userId !in e.waitlist
    ensures UnregisterStep(e, userId).Success? ==>
      var next := UnregisterStep(e, userId).value;
      && next.eventId == e.eventId && next.name == e.name
      && next.capacity == e.capacity && next.waitlistEnabled == e.waitlistEnabled
      && userId !in next.registeredUsers && userId !in next.waitlist
      && (userId in e.registeredUsers && e.waitlist != [] ==>
            && (forall u :: u in next.registeredUsers <==>
                  (u in e.registeredUsers && u != userId) || u == e.waitlist[0])
            && next.waitlist == e.waitlist[1..])
      && (userId in e.registeredUsers && e.waitlist == [] ==>
            && (forall u :: u in next.registeredUsers <==> u in e.registeredUsers && u != userId)
            && next.waitlist == [])
      && (userId in e.waitlist ==>
            && next.registeredUsers == e.registeredUsers
            && exists k :: 0 <= k < |e.waitlist| && e.waitlist[k] == userId
                           && next.waitlist == e.waitlist[..k] + e.waitlist[k + 1..])
  {
    DistinctConcat(e.registeredUsers, e.waitlist);
    if userId in e.registeredUsers {
      RemoveFirstMembers(e.registeredUsers, userId);
      assert userId !in e.waitlist;
      if e.waitlist != [] {
        assert e.waitlist[0] != userId;
        assert forall u :: u in e.waitlist[1..] ==> u in e.waitlist && u != e.waitlist[0];
      }
    } else if userId in e.waitlist {
      RemoveFirstMembers(e.waitlist, userId);
      assert e.waitlist[IndexOf(e.waitlist, userId)] == userId;
    }
  }

  /** An unregistration keeps every invariant. A promotion refills exactly the
      seat that was freed, so the capacity is never exceeded. */
  lemma UnregisterKeepsConsistent(e: Event, userId: string)
    requires Consistent(e) && UnregisterStep(e, userId).Success?
    ensures Consistent(UnregisterStep(e, userId).value)
    ensures userId in e.registeredUsers && e.waitlist != [] ==>
      |UnregisterStep(e, userId).value.registeredUsers| == |e.registeredUsers|
  {
    var next := UnregisterStep(e, userId).value;
    DistinctConcat(e.registeredUsers, e.waitlist);
    if userId in e.registeredUsers {
      var kept := RemoveFirst(e.registeredUsers, userId);
      RemoveFirstMembers(e.registeredUsers, userId);
      if e.waitlist != [] {
        var w := e.waitlist;
        assert w == [w[0]] + w[1..];
        DistinctConcat([w[0]], w[1..]);
        DistinctConcat(kept, [w[0]]);
        DistinctConcat(kept + [w[0]], w[1..]);
      } else {
        DistinctConcat(kept, []);
      }
    } else {
      RemoveFirstMembers(e.waitlist, userId);
      DistinctConcat(e.registeredUsers, next.waitlist);
    }
  }

  /** Registering and then unregistering the same user restores the event. */
  lemma RegisterThenUnregister(e: Event, userId: string)
    requires Consistent(e) && RegisterStep(e, userId).Success?
    ensures UnregisterStep(RegisterStep(e, userId).value.0, userId) == Success(e)
  {
    var (next, status) := RegisterStep(e, userId).value;
    if status == Registered {
      RemoveFirstOfAppended(e.registeredUsers, userId);
    } else {
      RemoveFirstOfAppended(e.waitlist, userId);
    }
  }

  /** The walk-through of an event of capacity 2 with a waitlist: A and B are
      registered, C is waitlisted, and when A unregisters C takes the seat
      and the waitlist is empty again. */
  lemma PromotionScenario()
    ensures var e0 := Event("E", "Event", 2, true, [], []);
      && RegisterStep(e0, "A") == Success((e0.(registeredUsers := ["A"]), Registered))
      && RegisterStep(e0.(registeredUsers := ["A"]), "B")
           == Success((e0.(registeredUsers := ["A", "B"]), Registered))
      && RegisterStep(e0.(registeredUsers := ["A", "B"]), "C")
           == Success((e0.(registeredUsers := ["A", "B"], waitlist := ["C"]), Waitlisted))
      && UnregisterStep(e0.(registeredUsers := ["A", "B"], waitlist := ["C"]), "A")
           == Success(e0.(registeredUsers := ["B", "C"], waitlist := []))
  {
    var e0 := Event("E", "Event", 2, true, [], []);
    assert [] + ["A"] == ["A"];
    assert ["A"] + ["B"] == ["A", "B"];
    assert [] + ["C"] == ["C"];
    assert "C" != "A" && "C" != "B" && "B" != "A";
    assert "C" !in ["A", "B"] && "B" !in ["A"];
    assert IndexOf(["A", "B"], "A") == 0;
    assert RemoveFirst(["A", "B"], "A") == ["B"];
    assert ["B"] + ["C"] == ["B", "C"];
    assert ["C"][1..] == [];
  }
}
