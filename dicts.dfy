/** Python dictionaries with string keys, as the event service passes them
    around: an insertion-ordered list of entries whose keys are distinct.
    Iteration (`keys()`, `items()`) follows insertion order, `d[k] = v` on a
    present key keeps its place and on a new key appends it. */
module Dicts {
  import opened Results
  import opened Text

  type Dict<V> = seq<(string, V)>

  function Keys<V>(d: Dict<V>): (r: seq<string>)
    ensures |r| == |d|
    ensures forall i :: 0 <= i < |d| ==> r[i] == d[i].0
  {
    if d == [] then [] else [d[0].0] + Keys(d[1..])
  }

  /** No key occurs twice (`KeysDistinctIff`: the key list is `Distinct`). */
  ghost predicate KeysDistinct<V>(d: Dict<V>) {
    forall i, j :: 0 <= i < j < |d| ==> d[i].0 != d[j].0
  }

  /** `d.get(k)`: the value of the first entry with key `k`. */
  function Get<V>(d: Dict<V>, k: string): (r: Option<V>)
    ensures r.Some? <==> k in Keys(d)
    ensures r.Some? ==> exists i :: 0 <= i < |d| && d[i] == (k, r.value)
  {
    if d == [] then None
    else if d[0].0 == k then Some(d[0].1)
    else
      assert forall i :: 0 <= i < |d| - 1 ==> d[1..][i] == d[i + 1];
      Get(d[1..], k)
  }

  /** `d[k] = v`. */
  function Assigned<V>(d: Dict<V>, k: string, v: V): (r: Dict<V>)
    ensures |r| == |d| || |r| == |d| + 1
  {
    if d == [] then [(k, v)]
    else if d[0].0 == k then [(k, v)] + d[1..]
    else [d[0]] + Assigned(d[1..], k, v)
  }

  /** In a dictionary with distinct keys, the value read under a key is the
      one of its entry. */
  lemma GetEntry<V>(d: Dict<V>, i: nat)
    requires KeysDistinct(d) && i < |d|
    ensures Get(d, d[i].0) == Some(d[i].1)
  {
    if i > 0 {
      assert d[0].0 != d[i].0;
      assert d[1..][i - 1] == d[i];
      GetEntry(d[1..], i - 1);
    }
  }

  /** After `d[k] = v`, `k` reads `v` and every other key reads what it
      read before. */
  lemma {:induction false} AssignedGet<V>(d: Dict<V>, k: string, v: V)
    ensures Get(Assigned(d, k, v), k) == Some(v)
    ensures forall j :: j != k ==> Get(Assigned(d, k, v), j) == Get(d, j)
  {
    if d != [] {
      assert Assigned(d, k, v)[1..] == if d[0].0 == k then d[1..] else Assigned(d[1..], k, v);
      if d[0].0 != k {
        AssignedGet(d[1..], k, v);
      }
    }
  }

  /** `k` keeps its place or, when new, is appended. */
  lemma {:induction false} AssignedKeys<V>(d: Dict<V>, k: string, v: V)
    ensures k in Keys(d) ==> Keys(Assigned(d, k, v)) == Keys(d)
    ensures k !in Keys(d) ==> Keys(Assigned(d, k, v)) == Keys(d) + [k]
  {
    if d != [] {
      assert Keys(d) == [d[0].0] + Keys(d[1..]);
      assert Assigned(d, k, v)[1..] == if d[0].0 == k then d[1..] else Assigned(d[1..], k, v);
      assert Keys(Assigned(d, k, v)) == [d[0].0] + Keys(Assigned(d, k, v)[1..]);
      if d[0].0 != k {
        AssignedKeys(d[1..], k, v);
      }
    }
  }

  /** Distinct keys, stated on the key list. */
  lemma KeysDistinctIff<V>(d: Dict<V>)
    ensures KeysDistinct(d) <==> Distinct(Keys(d))
  {
  }

  /** `d[k] = v` keeps the keys distinct. */
  lemma AssignedDistinct<V>(d: Dict<V>, k: string, v: V)
    requires KeysDistinct(d)
    ensures KeysDistinct(Assigned(d, k, v))
  {
    AssignedKeys(d, k, v);
    KeysDistinctIff(d);
    KeysDistinctIff(Assigned(d, k, v));
  }

  /** A Python dictionary object: callers that hold it see `d[k] = v`. */
  class PyDict<V> {
    var entries: Dict<V>

    constructor (entries: Dict<V>)
      ensures this.entries == entries
    {
      this.entries := entries;
    }

    /** `d[k] = v`. */
    method Assign(k: string, v: V)
      modifies this
      ensures entries == Assigned(old(entries), k, v)
    {
      entries := Assigned(entries, k, v);
    }
  }
}
