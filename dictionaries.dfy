/** `Dictionary<string, V>` as the pipeline uses it: filled by `Add` only and then
    enumerated, so its enumeration order is its insertion order. */
module Dictionaries {
  import opened Common

  datatype Entry<V> = Entry(key: string, value: V)

  /** The entries of a dictionary in enumeration order. */
  type Dict<V> = seq<Entry<V>>

  /** No key occurs twice, as in every .NET dictionary. */
  predicate DistinctKeys<V>(d: Dict<V>)
  {
    forall i, j :: 0 <= i < j < |d| ==> d[i].key != d[j].key
  }

  predicate HasKey<V>(d: Dict<V>, key: string)
  {
    exists i :: 0 <= i < |d| && d[i].key == key
  }

  /** `Dictionary.Add`: appends a new key, or throws (None) when the key is present. */
  function Add<V>(d: Dict<V>, key: string, value: V): (r: Option<Dict<V>>)
    ensures r.None? <==> HasKey(d, key)
    ensures r.Some? ==> r.value == d + [Entry(key, value)]
    ensures r.Some? && DistinctKeys(d) ==> DistinctKeys(r.value)
  {
    if HasKey(d, key) then None else Some(d + [Entry(key, value)])
  }

  /** The value stored under `key`, or None when it is absent. */
  function Lookup<V>(d: Dict<V>, key: string): (r: Option<V>)
    ensures r.None? <==> !HasKey(d, key)
    ensures r.Some? ==> Entry(key, r.value) in d
  {
    if d == [] then None
    else if d[0].key == key then Some(d[0].value)
    else
      var r := Lookup(d[1..], key);
      assert r.Some? ==> d[1..][0] == d[1] && Entry(key, r.value) in d[1..];
      assert HasKey(d[1..], key) ==> HasKey(d, key) by {
        if HasKey(d[1..], key) {
          var i :| 0 <= i < |d| - 1 && d[1..][i].key == key;
          assert d[i + 1].key == key;
        }
      }
      assert HasKey(d, key) ==> HasKey(d[1..], key) by {
        if HasKey(d, key) {
          var i :| 0 <= i < |d| && d[i].key == key;
          assert i != 0 && d[1..][i - 1].key == key;
        }
      }
      r
  }

  /** In a dictionary with distinct keys, looking up a stored key finds its own value. */
  lemma {:induction false} LookupFindsEntry<V>(d: Dict<V>, i: nat)
    requires DistinctKeys(d) && i < |d|
    ensures Lookup(d, d[i].key) == Some(d[i].value)
  {
    if i > 0 {
      assert d[0].key != d[i].key;
      assert DistinctKeys(d[1..]) by {
        forall a, b | 0 <= a < b < |d| - 1 ensures d[1..][a].key != d[1..][b].key {
          assert d[1..][a] == d[a + 1] && d[1..][b] == d[b + 1];
        }
      }
      assert d[1..][i - 1] == d[i];
      LookupFindsEntry(d[1..], i - 1);
    }
  }
}
