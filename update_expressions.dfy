/** The update request `EventRepository.update` sends to the table
    (backend/events/repositories.py): the expression `SET #k = :k, ...` over
    the keys of the updates, the placeholder maps `#k -> k` and `:k -> v`,
    and what the table does with the three of them. */
module UpdateExpressions {
  import opened Results
  import opened Dicts
  import opened EventModels

  type Item = map<string, Value>

  // ---------------------------------------------------------------------------
  // Building the request
  // ---------------------------------------------------------------------------

  function Clause(k: string): string {
    "#" + k + " = :" + k
  }

  /** `", ".join(clauses)`. */
  function Joined(clauses: seq<string>): string {
    if clauses == [] then ""
    else if |clauses| == 1 then clauses[0]
    else clauses[0] + ", " + Joined(clauses[1..])
  }

  function Clauses(keys: seq<string>): (r: seq<string>)
    ensures |r| == |keys|
    ensures forall i :: 0 <= i < |keys| ==> r[i] == Clause(keys[i])
  {
    if keys == [] then [] else [Clause(keys[0])] + Clauses(keys[1..])
  }

  function UpdateExpression(keys: seq<string>): string {
    "SET " + Joined(Clauses(keys))
  }

  /** `{f"#{k}": k for k in updates.keys()}`. */
  function AttributeNames(keys: seq<string>): map<string, string> {
    if keys == [] then map[]
    else AttributeNames(keys[..|keys| - 1])["#" + keys[|keys| - 1] := keys[|keys| - 1]]
  }

  /** `{f":{k}": v for k, v in updates.items()}`. */
  function AttributeValues(d: Dict<Value>): map<string, Value> {
    if d == [] then map[]
    else AttributeValues(d[..|d| - 1])[":" + d[|d| - 1].0 := d[|d| - 1].1]
  }

  // ---------------------------------------------------------------------------
  // What the table does with it
  // ---------------------------------------------------------------------------

  /** The index of the first `", "` in `s`. */
  function FindSeparator(s: string): (r: Option<nat>)
    ensures r.Some? ==> r.value + 2 <= |s| && s[r.value..r.value + 2] == ", "
  {
    if |s| < 2 then None
    else if s[..2] == ", " then Some(0)
    else match FindSeparator(s[1..])
         case None => None
         case Some(i) => Some(i + 1)
  }

  /** The clause texts between the separators. */
  function SplitClauses(s: string): seq<string>
    decreases |s|
  {
    match FindSeparator(s)
    case None => [s]
    case Some(i) => [s[..i]] + SplitClauses(s[i + 2..])
  }

  /** `#name = :value` read as its two placeholders; the name placeholder
      ends at the first space. */
  function ParseClause(c: string): Option<(string, string)> {
    if c == [] || c[0] != '#' || ' ' !in c then None
    else
      var i := FirstSpace(c);
      if " = :" <= c[i..] then Some((c[..i], ":" + c[i + 4..])) else None
  }

  function FirstSpace(c: string): (i: nat)
    requires ' ' in c
    ensures i < |c| && c[i] == ' ' && ' ' !in c[..i]
  {
    if c[0] == ' ' then 0 else FirstSpace(c[1..]) + 1
  }

  /** Each clause sets the attribute its name placeholder stands for to the
      value its value placeholder stands for; an unknown placeholder, a
      clause that does not parse or a set of the key attribute `eventId` is
      refused, and then nothing is written. */
  function ApplyClauses(item: Item, clauses: seq<string>, names: map<string, string>,
                        values: map<string, Value>): Result<Item, EventError>
    decreases |clauses|
  {
    if clauses == [] then Success(item)
    else match ParseClause(clauses[0])
      case None => Failure(StoreRejected)
      case Some((n, v)) =>
        if n !in names || v !in values || names[n] == "eventId" then Failure(StoreRejected)
        else ApplyClauses(item[names[n] := values[v]], clauses[1..], names, values)
  }

  /** `update_item` with a `SET` expression. */
  function ApplySet(item: Item, expression: string, names: map<string, string>,
                    values: map<string, Value>): Result<Item, EventError>
  {
    if |expression| < 4 || expression[..4] != "SET " then Failure(StoreRejected)
    else ApplyClauses(item, SplitClauses(expression[4..]), names, values)
  }

  /** The item with every entry of the updates written over it. */
  function Overlay(item: Item, d: Dict<Value>): Item
    decreases |d|
  {
    if d == [] then item else Overlay(item[d[0].0 := d[0].1], d[1..])
  }

  // ---------------------------------------------------------------------------
  // The request does what the updates say
  // ---------------------------------------------------------------------------

  /** A key that fits in a placeholder: no space and no comma. */
  predicate PlainName(k: string) {
    ' ' !in k && ',' !in k
  }

  /** An attribute an update may set: a plain name other than the key. */
  predicate Settable(k: string) {
    PlainName(k) && k != "eventId"
  }

  ghost predicate AllSettable(d: Dict<Value>) {
    forall i :: 0 <= i < |d| ==> Settable(d[i].0)
  }

  lemma FindSeparatorPast(c: string, rest: string)
    requires ',' !in c
    ensures FindSeparator(c + ", " + rest) == Some(|c|)
  {
    var s := c + ", " + rest;
    if c == [] {
      assert s[..2] == ", ";
    } else {
      assert s[0] == c[0] != ',';
      assert s[..2] != ", " by { assert s[..2][0] == s[0]; }
      assert (c + ", " + rest)[1..] == c[1..] + ", " + rest;
      FindSeparatorPast(c[1..], rest);
    }
  }

  lemma FindSeparatorNone(c: string)
    requires ',' !in c
    ensures FindSeparator(c) == None
  {
    if |c| >= 2 {
      assert c[0] != ',';
      assert c[1..][0] == c[1];
      FindSeparatorNone(c[1..]);
    }
  }

  /** Splitting at the separators gives back the joined clauses. */
  lemma {:induction false} SplitJoined(clauses: seq<string>)
    requires clauses != []
    requires forall i :: 0 <= i < |clauses| ==> ',' !in clauses[i]
    ensures SplitClauses(Joined(clauses)) == clauses
  {
    if |clauses| == 1 {
      FindSeparatorNone(clauses[0]);
    } else {
      var rest := Joined(clauses[1..]);
      var s := clauses[0] + ", " + rest;
      assert Joined(clauses) == s;
      FindSeparatorPast(clauses[0], rest);
      assert s[..|clauses[0]|] == clauses[0];
      assert s[|clauses[0]| + 2..] == rest;
      assert SplitClauses(s) == [clauses[0]] + SplitClauses(rest);
      SplitJoined(clauses[1..]);
      assert clauses == [clauses[0]] + clauses[1..];
    }
  }

  lemma ParseClauseOf(k: string)
    requires PlainName(k)
    ensures ParseClause(Clause(k)) == Some(("#" + k, ":" + k))
  {
    var c := Clause(k);
    assert c == "#" + k + " = :" + k;
    assert c[|k| + 1] == ' ';
    assert c[1..|k| + 1] == k;
    FirstSpaceAt(c, |k| + 1);
    assert c[..|k| + 1] == "#" + k;
    assert c[|k| + 1..] == " = :" + k;
    assert c[|k| + 5..] == k;
  }

  lemma FirstSpaceAt(c: string, i: nat)
    requires i < |c| && c[i] == ' ' && ' ' !in c[..i]
    ensures FirstSpace(c) == i
  {
    if i > 0 {
      assert c[0] == c[..i][0];
      assert c[1..][..i - 1] == c[..i][1..];
      FirstSpaceAt(c[1..], i - 1);
    }
  }

  /** The name placeholder of an entry resolves to its key. */
  lemma {:induction false} AttributeNamesOf(keys: seq<string>, i: nat)
    requires i < |keys|
    ensures "#" + keys[i] in AttributeNames(keys)
    ensures AttributeNames(keys)["#" + keys[i]] == keys[i]
  {
    var last := |keys| - 1;
    if i < last {
      assert keys[..last][i] == keys[i];
      AttributeNamesOf(keys[..last], i);
      if "#" + keys[i] == "#" + keys[last] {
        assert keys[i] == ("#" + keys[i])[1..];
      }
    }
  }

  /** The value placeholder of an entry resolves to its value, in a
      dictionary with distinct keys. */
  lemma {:induction false} AttributeValuesOf(d: Dict<Value>, i: nat)
    requires i < |d| && KeysDistinct(d)
    ensures ":" + d[i].0 in AttributeValues(d)
    ensures AttributeValues(d)[":" + d[i].0] == d[i].1
  {
    var last := |d| - 1;
    if i < last {
      assert d[..last][i] == d[i];
      AttributeValuesOf(d[..last], i);
      assert d[i].0 != d[last].0;
      assert d[i].0 == (":" + d[i].0)[1..] && d[last].0 == (":" + d[last].0)[1..];
    }
  }

  /** Applying the clauses of the entries from `from` on is writing those
      entries over the item. */
  lemma {:induction false} ApplyClausesOverlay(item: Item, d: Dict<Value>, from: nat)
    requires from <= |d| && KeysDistinct(d)
    requires AllSettable(d)
    ensures ApplyClauses(item, Clauses(Keys(d))[from..], AttributeNames(Keys(d)), AttributeValues(d))
            == Success(Overlay(item, d[from..]))
    decreases |d| - from
  {
    if from < |d| {
      var (k, v) := d[from];
      ClauseApplies(item, d, from);
      ApplyClausesOverlay(item[k := v], d, from + 1);
      assert d[from..][1..] == d[from + 1..];
    } else {
      assert Clauses(Keys(d))[from..] == [];
    }
  }

  /** The clause of the entry at `from` writes that entry and passes on to
      the next clause. */
  lemma ClauseApplies(item: Item, d: Dict<Value>, from: nat)
    requires from < |d| && KeysDistinct(d)
    requires AllSettable(d)
    ensures var names, values := AttributeNames(Keys(d)), AttributeValues(d);
      ApplyClauses(item, Clauses(Keys(d))[from..], names, values)
      == ApplyClauses(item[d[from].0 := d[from].1], Clauses(Keys(d))[from + 1..], names, values)
  {
    var cs := Clauses(Keys(d))[from..];
    var k := d[from].0;
    ParseClauseOf(k);
    AttributeNamesOf(Keys(d), from);
    AttributeValuesOf(d, from);
    assert cs[0] == Clause(k);
    assert cs[1..] == Clauses(Keys(d))[from + 1..];
  }

  /** The table reads the expression back as the clauses it was built
      from. */
  lemma ExpressionClauses(keys: seq<string>)
    requires keys != []
    requires forall i :: 0 <= i < |keys| ==> PlainName(keys[i])
    ensures var e := UpdateExpression(keys);
      |e| >= 4 && e[..4] == "SET " && SplitClauses(e[4..]) == Clauses(keys)
  {
    var cs := Clauses(keys);
    forall i | 0 <= i < |cs| ensures ',' !in cs[i] {
      assert cs[i] == "#" + keys[i] + " = :" + keys[i];
    }
    SplitJoined(cs);
    assert UpdateExpression(keys)[4..] == Joined(cs);
  }

  /** The request `update` builds writes exactly the updates over the stored
      item: the expression, the name map and the value map agree. */
  lemma UpdateApplies(item: Item, d: Dict<Value>)
    requires d != [] && KeysDistinct(d)
    requires AllSettable(d)
    ensures ApplySet(item, UpdateExpression(Keys(d)), AttributeNames(Keys(d)), AttributeValues(d))
            == Success(Overlay(item, d))
  {
    ExpressionClauses(Keys(d));
    ApplyClausesOverlay(item, d, 0);
    assert Clauses(Keys(d))[0..] == Clauses(Keys(d)) && d[0..] == d;
  }

  /** The clauses up to the one that sets `eventId` apply, and that one is
      refused. */
  lemma {:induction false} ApplyClausesRefused(item: Item, d: Dict<Value>, from: nat, at: nat)
    requires from <= at < |d| && d[at].0 == "eventId"
    requires forall i :: 0 <= i < |d| ==> PlainName(d[i].0)
    ensures ApplyClauses(item, Clauses(Keys(d))[from..], AttributeNames(Keys(d)), AttributeValues(d))
            == Failure(StoreRejected)
    decreases at - from
  {
    var names := AttributeNames(Keys(d));
    var cs := Clauses(Keys(d))[from..];
    var k := d[from].0;
    ParseClauseOf(k);
    AttributeNamesOf(Keys(d), from);
    assert cs[0] == Clause(k);
    if from == at {
      assert names["#" + k] == "eventId";
    } else {
      assert cs[1..] == Clauses(Keys(d))[from + 1..];
      if ":" + k in AttributeValues(d) && names["#" + k] != "eventId" {
        ApplyClausesRefused(item[k := AttributeValues(d)[":" + k]], d, from + 1, at);
      }
    }
  }

  /** A request that sets the key attribute is refused, and nothing is
      written. */
  lemma KeyUpdateRefused(item: Item, d: Dict<Value>)
    requires forall i :: 0 <= i < |d| ==> PlainName(d[i].0)
    requires "eventId" in Keys(d)
    ensures ApplySet(item, UpdateExpression(Keys(d)), AttributeNames(Keys(d)), AttributeValues(d))
            == Failure(StoreRejected)
  {
    var at :| 0 <= at < |d| && Keys(d)[at] == "eventId";
    ExpressionClauses(Keys(d));
    ApplyClausesRefused(item, d, 0, at);
    assert Clauses(Keys(d))[0..] == Clauses(Keys(d));
  }

  /** What the overlay leaves under each attribute. */
  lemma {:induction false} OverlayAt(item: Item, d: Dict<Value>, a: string)
    requires KeysDistinct(d)
    decreases |d|
    ensures a in Overlay(item, d) <==> a in item || a in Keys(d)
    ensures a in Overlay(item, d) ==>
              Overlay(item, d)[a] == match Get(d, a) case Some(v) => v case None => item[a]
  {
    if d != [] {
      assert KeysDistinct(d[1..]) by {
        forall i, j | 0 <= i < j < |d| - 1 ensures d[1..][i].0 != d[1..][j].0 {
          assert d[1..][i] == d[i + 1] && d[1..][j] == d[j + 1];
        }
      }
      OverlayAt(item[d[0].0 := d[0].1], d[1..], a);
      assert Keys(d) == [d[0].0] + Keys(d[1..]);
      if a == d[0].0 {
        assert a !in Keys(d[1..]) by {
          forall i | 0 <= i < |d| - 1 ensures Keys(d[1..])[i] != a {
            assert d[1..][i] == d[i + 1];
          }
        }
      }
    }
  }
}
