/** The single DynamoDB table behind the registration repositories
    (backend/registration/repositories.py): composite keys, the records stored
    under them, the table with its two writes, the key-condition query in sort
    key order and the GSI1 index. */
module RegistrationTable {
  import opened Results
  import opened Text
  import opened RegistrationModels

  datatype Key = Key(pk: string, sk: string)

  /** A stored record by kind, with the attributes the reads look up.
      `CountsOnly` is what `update_item` leaves behind when the METADATA record
      it updates does not exist. */
  datatype Item =
    | UserItem(userId: string, name: string)
    | EventItem(eventId: string, name: string, capacity: int, waitlistEnabled: bool,
                registeredCount: int, waitlistCount: int)
    | CountsOnly(registeredCount: int, waitlistCount: int)
    | RegItem(userId: string, eventId: string)
    | WaitItem(userId: string, eventId: string, position: nat)

  /** The record carries a `user_id` attribute. */
  predicate HasUserId(item: Item) {
    item.UserItem? || item.RegItem? || item.WaitItem?
  }

  // ---------------------------------------------------------------------------
  // Keys
  // ---------------------------------------------------------------------------

  function UserPk(userId: string): (pk: string)
    ensures |pk| >= 5 && pk[0] == 'U' && pk[5..] == userId
  {
    "USER#" + userId
  }

  function EventPk(eventId: string): (pk: string)
    ensures |pk| >= 6 && pk[0] == 'E' && pk[6..] == eventId
  {
    "EVENT#" + eventId
  }

  const MetadataSk: string := "METADATA"
  const RegPrefix: string := "REG#"
  const WaitPrefix: string := "WAIT#"

  /** The sort key of a registration record. */
  function RegSk(userId: string): (sk: string)
    ensures RegPrefix <= sk && !(WaitPrefix <= sk) && sk != MetadataSk
    ensures sk[|RegPrefix|..] == userId
  {
    var sk := RegPrefix + userId;
    assert sk[..|RegPrefix|] == RegPrefix;
    assert sk[0] == 'R';
    sk
  }

  /** The sort key of a waitlist record: `WAIT#{position:05d}#{user_id}`. */
  function WaitSk(position: nat, userId: string): (sk: string)
    ensures WaitPrefix <= sk && !(RegPrefix <= sk) && sk != MetadataSk
  {
    var sk := WaitPrefix + Format05d(position) + "#" + userId;
    assert sk[..|WaitPrefix|] == WaitPrefix;
    assert sk[0] == 'W';
    sk
  }

  /** The METADATA sort key carries neither list prefix. */
  lemma MetadataSkHasNoListPrefix()
    ensures !(RegPrefix <= MetadataSk) && !(WaitPrefix <= MetadataSk)
  {
    assert MetadataSk[0] == 'M';
  }

  /** Registration sort keys sort as the user ids they carry. */
  lemma RegSkOrder(a: string, b: string)
    ensures Less(RegSk(a), RegSk(b)) <==> Less(a, b)
  {
    assert RegSk(a) == RegPrefix + a && RegSk(b) == RegPrefix + b;
    LessCommonPrefix(RegPrefix, a, b);
  }

  /** Waitlist sort keys sort by position, below position 100000. */
  lemma WaitSkOrder(i: nat, a: string, j: nat, b: string)
    requires i < j < 100000
    ensures Less(WaitSk(i, a), WaitSk(j, b))
  {
    var fi, fj := Format05d(i), Format05d(j);
    Format05dOrdered(i, j);
    LessEqualLengthExtend(fi, fj, "#" + a, "#" + b);
    assert fi + ("#" + a) == fi + "#" + a && fj + ("#" + b) == fj + "#" + b;
    LessCommonPrefix(WaitPrefix, fi + "#" + a, fj + "#" + b);
    assert WaitSk(i, a) == WaitPrefix + (fi + "#" + a);
    assert WaitSk(j, b) == WaitPrefix + (fj + "#" + b);
  }

  /** Two waitlist records share a sort key only when they have the same
      position and the same user, at any position. */
  lemma WaitSkInjective(i: nat, a: string, j: nat, b: string)
    requires WaitSk(i, a) == WaitSk(j, b)
    ensures i == j && a == b
  {
    var s, fi, fj := WaitSk(i, a), Format05d(i), Format05d(j);
    var n := |WaitPrefix|;
    assert s[n..] == fi + "#" + a;
    assert s[n..] == fj + "#" + b;
    HashFollowsDigits(fi, a);
    HashFollowsDigits(fj, b);
    assert fi == s[n..n + |fi|] == fj;
    Format05dInjective(i, j);
    assert a == s[n + |fi| + 1..] == b;
  }

  /** The index of the first '#' in `s`, or |s| when there is none. */
  function IndexOfHash(s: string): (i: nat)
    ensures i <= |s|
  {
    if s == [] || s[0] == '#' then 0 else 1 + IndexOfHash(s[1..])
  }

  lemma {:induction false} HashFollowsDigits(digits: string, rest: string)
    requires forall k :: 0 <= k < |digits| ==> '0' <= digits[k] <= '9'
    ensures IndexOfHash(digits + "#" + rest) == |digits|
  {
    if digits != [] {
      assert (digits + "#" + rest)[1..] == digits[1..] + "#" + rest;
      HashFollowsDigits(digits[1..], rest);
    }
  }

  // ---------------------------------------------------------------------------
  // The table
  // ---------------------------------------------------------------------------

  /** The table: every stored record under its key. `put_item` overwrites,
      `delete_item` of a missing key does nothing. */
  class Table {
    var items: map<Key, Item>

    constructor ()
      ensures items == map[]
    {
      items := map[];
    }

    method PutItem(key: Key, item: Item)
      modifies this
      ensures items == old(items)[key := item]
    {
      items := items[key := item];
    }

    method DeleteItem(key: Key)
      modifies this
      ensures items == old(items) - {key}
    {
      items := items - {key};
    }
  }

  // ---------------------------------------------------------------------------
  // Queries
  // ---------------------------------------------------------------------------

  /** The sort keys under partition `pk` that begin with `prefix`. */
  function SkSet(items: map<Key, Item>, pk: string, prefix: string): (r: set<string>)
    ensures forall sk :: sk in r <==> Key(pk, sk) in items && prefix <= sk
  {
    var r := set k | k in items && k.pk == pk && prefix <= k.sk :: k.sk;
    assert forall sk :: Key(pk, sk) in items && prefix <= sk ==> sk in r by {
      forall sk | Key(pk, sk) in items && prefix <= sk
        ensures sk in r
      {
        var k := Key(pk, sk);
        assert k.sk == sk;
      }
    }
    r
  }

  /** `query(PK = pk AND begins_with(SK, prefix))`: the matching sort keys in
      ascending order, the order DynamoDB returns them in. */
  function QueryKeys(items: map<Key, Item>, pk: string, prefix: string): (r: seq<string>)
    ensures StrictlySorted(r)
    ensures forall sk :: sk in r <==> Key(pk, sk) in items && prefix <= sk
    ensures |r| == |SkSet(items, pk, prefix)|
  {
    SortStrings(SkSet(items, pk, prefix))
  }

  /** `[item['user_id'] for item in ...]` over the records under `sks`: the
      user ids in the same order, or the KeyError of a record without one. */
  function ProjectUserIds(items: map<Key, Item>, pk: string, sks: seq<string>): (r: Result<seq<string>, Error>)
    requires forall sk :: sk in sks ==> Key(pk, sk) in items
    ensures r.Success? <==> forall i :: 0 <= i < |sks| ==> HasUserId(items[Key(pk, sks[i])])
    ensures r.Failure? ==> r.error == MalformedRecord
    ensures r.Success? ==> |r.value| == |sks|
    ensures r.Success? ==> forall i :: 0 <= i < |sks| ==> r.value[i] == items[Key(pk, sks[i])].userId
  {
    if sks == [] then Success([])
    else
      var item := items[Key(pk, sks[0])];
      if !HasUserId(item) then Failure(MalformedRecord)
      else
        match ProjectUserIds(items, pk, sks[1..])
        case Failure(e) => Failure(e)
        case Success(rest) => Success([item.userId] + rest)
  }

  /** Every record under `sks` has a user id, and none is `userId`. */
  ghost predicate NoneOfUser(items: map<Key, Item>, pk: string, sks: seq<string>, userId: string)
    requires forall sk :: sk in sks ==> Key(pk, sk) in items
  {
    forall sk :: sk in sks ==> HasUserId(items[Key(pk, sk)]) && items[Key(pk, sk)].userId != userId
  }

  /** The loop of `_remove_from_waitlist` over the records under `sks`: the
      sort key of the first record whose user is `userId`, none, or the
      KeyError of a record without a user id met before any match. */
  function FirstMatch(items: map<Key, Item>, pk: string, sks: seq<string>, userId: string): (r: Result<Option<string>, Error>)
    requires forall sk :: sk in sks ==> Key(pk, sk) in items
    ensures (forall sk :: sk in sks ==> HasUserId(items[Key(pk, sk)])) ==> r.Success?
    ensures r.Failure? ==> r.error == MalformedRecord
    ensures r == Success(None) ==> NoneOfUser(items, pk, sks, userId)
    ensures r.Success? && r.value.Some? ==>
      r.value.value in sks && HasUserId(items[Key(pk, r.value.value)])
      && items[Key(pk, r.value.value)].userId == userId
    ensures r.Success? && r.value.Some? ==>
      exists j :: 0 <= j < |sks| && sks[j] == r.value.value && NoneOfUser(items, pk, sks[..j], userId)
  {
    if sks == [] then Success(None)
    else
      var item := items[Key(pk, sks[0])];
      if !HasUserId(item) then Failure(MalformedRecord)
      else if item.userId == userId then Success(Some(sks[0]))
      else FirstMatch(items, pk, sks[1..], userId)
  }

  /** Where a user matches exactly one record and every record has a user id,
      the search finds that record. */
  lemma FirstMatchUnique(items: map<Key, Item>, pk: string, sks: seq<string>, userId: string, found: string)
    requires forall sk :: sk in sks ==> Key(pk, sk) in items && HasUserId(items[Key(pk, sk)])
    requires found in sks && HasUserId(items[Key(pk, found)]) && items[Key(pk, found)].userId == userId
    requires forall sk :: sk in sks && HasUserId(items[Key(pk, sk)]) && items[Key(pk, sk)].userId == userId ==> sk == found
    ensures FirstMatch(items, pk, sks, userId) == Success(Some(found))
  {
  }

  // ---------------------------------------------------------------------------
  // The GSI1 index
  // ---------------------------------------------------------------------------

  function Gsi1Sk(m: Status): string {
    match m
    case Registered => "REGISTERED"
    case Waitlisted => "WAITLISTED"
  }

  /** The GSI1 key a record is indexed under, if any: registration and
      waitlist records are indexed under their user. */
  function Gsi1(item: Item): Option<(string, string)> {
    match item
    case RegItem(u, _) => Some((UserPk(u), Gsi1Sk(Registered)))
    case WaitItem(u, _, _) => Some((UserPk(u), Gsi1Sk(Waitlisted)))
    case _ => None
  }

  /** `query(IndexName='GSI1', GSI1PK = USER#userId AND GSI1SK = m)`: the keys of
      the records on list `m` of `userId`. */
  function IndexKeys(items: map<Key, Item>, userId: string, m: Status): (r: set<Key>)
    ensures forall k :: k in r <==>
      k in items && HasUserId(items[k]) && items[k].userId == userId
      && (if m == Registered then items[k].RegItem? else items[k].WaitItem?)
  {
    set k | k in items && Gsi1(items[k]) == Some((UserPk(userId), Gsi1Sk(m)))
  }
}
