/** A Python `dict` as a value: its keys in insertion order and the key-to-value mapping. */
module PyDict {

  datatype Dict<K(!new), V> = Dict(keys: seq<K>, values: map<K, V>) {

    /** Keys are listed once each, and exactly the mapped keys are listed. */
    ghost predicate Valid() {
      && (forall i, j :: 0 <= i < j < |keys| ==> keys[i] != keys[j])
      && (forall k :: k in values <==> k in keys)
    }

    /**
     * `d[k] = v`: a new key is appended to the order; a key already present keeps
     * its place and only its value is replaced.
     */
    function Set(k: K, v: V): (d: Dict<K, V>)
      requires Valid()
      ensures d.Valid()
      ensures d.values == values[k := v]
      ensures k in values ==> d.keys == keys
      ensures k !in values ==> d.keys == keys + [k]
    {
      if k in values then Dict(keys, values[k := v]) else Dict(keys + [k], values[k := v])
    }

    /** `d.items()`: the (key, value) pairs in insertion order. */
    function Items(): (items: seq<(K, V)>)
      requires Valid()
      ensures |items| == |keys|
      ensures forall i :: 0 <= i < |items| ==>
                items[i].0 == keys[i] && items[i].0 in values && items[i].1 == values[items[i].0]
    {
      seq(|keys|, i requires 0 <= i < |keys| => (keys[i], values[keys[i]]))
    }

    /** Every entry of the dict shows up among its items. */
    lemma ItemsCoverEntries(k: K)
      requires Valid() && k in values
      ensures exists i :: 0 <= i < |Items()| && Items()[i] == (k, values[k])
    {
      var i :| 0 <= i < |keys| && keys[i] == k;
      assert Items()[i] == (k, values[k]);
    }
  }

  function Empty<K(!new), V>(): (d: Dict<K, V>)
    ensures d.Valid() && d.keys == [] && d.values == map[]
  {
    Dict([], map[])
  }
}
