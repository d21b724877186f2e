/**
 * Python's `dict` as the import script relies on it: keys iterate in the
 * order they were first inserted, and assigning to a present key replaces
 * its value without moving it.
 */
module Dicts {

  datatype Option<T> = None | Some(value: T)

  /** No element occurs twice. */
  predicate Distinct<T(==)>(s: seq<T>)
  {
    forall i, j :: 0 <= i < j < |s| ==> s[i] != s[j]
  }

  /** The elements of `s`, as a set. */
  function KeySet<T>(s: seq<T>): set<T>
  {
    set i | 0 <= i < |s| :: s[i]
  }

  lemma KeySetAppend<T>(s: seq<T>, x: T)
    ensures KeySet(s + [x]) == KeySet(s) + {x}
  {
    var t := s + [x];
    assert forall i :: 0 <= i < |s| ==> t[i] == s[i];
    assert t[|s|] == x;
  }

  /** The keys in insertion order and the value each key is bound to. */
  datatype Dict<K, V> = Dict(keys: seq<K>, values: map<K, V>)

  predicate Valid<K(==), V>(d: Dict<K, V>)
  {
    Distinct(d.keys) && d.values.Keys == KeySet(d.keys)
  }

  function Empty<K, V>(): (d: Dict<K, V>)
    ensures Valid(d) && d.keys == [] && d.values == map[]
  {
    Dict([], map[])
  }

  /** `d[k] = v`: a new key goes to the end, a present key keeps its place. */
  function Set<K(==), V>(d: Dict<K, V>, k: K, v: V): (r: Dict<K, V>)
    requires Valid(d)
    ensures Valid(r)
    ensures r.values == d.values[k := v]
    ensures k in d.values ==> r.keys == d.keys
    ensures k !in d.values ==> r.keys == d.keys + [k]
  {
    if k in d.values then Dict(d.keys, d.values[k := v])
    else
      KeySetAppend(d.keys, k);
      Dict(d.keys + [k], d.values[k := v])
  }

  /** `d.items()`, in key order. */
  function Items<K(==), V>(d: Dict<K, V>): (items: seq<(K, V)>)
    requires Valid(d)
    ensures |items| == |d.keys|
    ensures forall i :: 0 <= i < |items| ==> items[i] == (d.keys[i], d.values[d.keys[i]])
  {
    seq(|d.keys|, i requires 0 <= i < |d.keys| => (d.keys[i], d.values[d.keys[i]]))
  }

  /** Binding a new key adds one item at the end and leaves the others alone. */
  lemma ItemsSetNew<K, V>(d: Dict<K, V>, k: K, v: V)
    requires Valid(d) && k !in d.values
    ensures Items(Set(d, k, v)) == Items(d) + [(k, v)]
  {
    var r := Set(d, k, v);
    var old_items := Items(d);
    var new_items := Items(r);
    forall i | 0 <= i < |d.keys|
      ensures new_items[i] == old_items[i]
    {
      assert d.keys[i] in d.values;
    }
  }
}
