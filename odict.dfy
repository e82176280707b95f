/**
 * A Python dict: a finite map whose iteration order is the order in which
 * keys were first inserted. Assigning to a key that is already present
 * changes its value and keeps its place.
 */
module OrderedDict {

  datatype ODict<K(==,!new), V> = ODict(keys: seq<K>, entries: map<K, V>) {

    /** Every key once, in insertion order, and exactly the keys of the map. */
    ghost predicate Valid() {
      && (forall i, j :: 0 <= i < j < |keys| ==> keys[i] != keys[j])
      && (forall k :: k in entries <==> k in keys)
    }

    /** `len(d)`. */
    function Size(): nat { |keys| }

    /** `d[k] = v`. */
    function Put(k: K, v: V): (d: ODict<K, V>)
      ensures Valid() ==> d.Valid()
      ensures d.entries == entries[k := v]
      ensures k in entries ==> d.keys == keys
      ensures k !in entries ==> d.keys == keys + [k]
    {
      if k in entries then ODict(keys, entries[k := v]) else ODict(keys + [k], entries[k := v])
    }

    /** `d.items()`, in iteration order. */
    function Items(): (items: seq<(K, V)>)
      requires Valid()
      ensures |items| == |keys|
      ensures forall i :: 0 <= i < |items| ==> items[i].0 == keys[i] && keys[i] in entries && items[i].1 == entries[keys[i]]
    {
      seq(|keys|, i requires 0 <= i < |keys| => (keys[i], entries[keys[i]]))
    }
  }

  /** `{}`. */
  function Empty<K(==,!new), V>(): (d: ODict<K, V>)
    ensures d.Valid() && d.keys == [] && d.entries == map[]
  {
    ODict([], map[])
  }

  /** Assigning a new key lists its item last, after every item there was. */
  lemma ItemsPutNew<K(!new), V>(d: ODict<K, V>, k: K, v: V)
    requires d.Valid() && k !in d.entries
    ensures d.Put(k, v).Items() == d.Items() + [(k, v)]
  {
    var e := d.Put(k, v);
    assert forall i :: 0 <= i < |d.keys| ==> d.keys[i] != k;
    assert forall i :: 0 <= i < |d.keys| ==> e.Items()[i] == d.Items()[i];
  }

  /** Assigning an existing key changes its value in its own place and no other item. */
  lemma ItemsPutExisting<K(!new), V>(d: ODict<K, V>, k: K, v: V)
    requires d.Valid() && k in d.entries
    ensures |d.Put(k, v).Items()| == |d.Items()|
    ensures forall i :: 0 <= i < |d.keys| ==>
      d.Put(k, v).Items()[i] == if d.keys[i] == k then (k, v) else d.Items()[i]
  {
  }

  /** In a valid dict, the number of keys is the number of entries. */
  lemma SizeIsCardinality<K(!new), V>(d: ODict<K, V>)
    requires d.Valid()
    ensures d.Size() == |d.entries|
  {
    DistinctCardinality(d.keys);
    assert d.entries.Keys == set k | k in d.keys;
  }

  lemma {:induction false} DistinctCardinality<K>(s: seq<K>)
    requires forall i, j :: 0 <= i < j < |s| ==> s[i] != s[j]
    ensures |set k | k in s| == |s|
  {
    if |s| > 0 {
      var init := s[..|s| - 1];
      DistinctCardinality(init);
      assert (set k | k in s) == (set k | k in init) + {s[|s| - 1]};
      assert s[|s| - 1] !in init;
    }
  }
}
