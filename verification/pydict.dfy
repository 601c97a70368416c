/** Python's dict with string keys: a finite map that remembers the order in
    which its keys were first inserted. Iterating over `items()` follows that
    order, which decides which of two writes to the same cell comes last. */
module PyDict {

  datatype Dict<V> = Dict(order: seq<string>, m: map<string, V>) {
    /** The order lists every key of the map exactly once. */
    predicate Valid() {
      && (forall i, j | 0 <= i < j < |order| :: order[i] != order[j])
      && (forall k | k in m :: k in order)
      && (forall i | 0 <= i < |order| :: order[i] in m)
    }
  }

  /** {} */
  function Empty<V>(): (r: Dict<V>)
    ensures r.Valid() && r.m == map[] && r.order == []
  {
    Dict([], map[])
  }

  /** d[k] = v: a new key goes to the end of the order, an existing key keeps
      its place and only its value changes. */
  function Put<V>(d: Dict<V>, k: string, v: V): (r: Dict<V>)
    requires d.Valid()
    ensures r.Valid()
    ensures r.m == d.m[k := v]
    ensures k in d.m ==> r.order == d.order
    ensures k !in d.m ==> r.order == d.order + [k]
  {
    if k in d.m then Dict(d.order, d.m[k := v])
    else Dict(d.order + [k], d.m[k := v])
  }

  /** {k: v for k in keys} */
  function FromKeys<V>(keys: seq<string>, v: V): (r: Dict<V>)
    ensures r.Valid()
    ensures forall k :: k in r.m <==> k in keys
    ensures forall k | k in r.m :: r.m[k] == v
    ensures (forall i, j | 0 <= i < j < |keys| :: keys[i] != keys[j]) ==> r.order == keys
  {
    if keys == [] then Empty()
    else
      var prefix := keys[..|keys| - 1];
      var last := keys[|keys| - 1];
      var d := FromKeys(prefix, v);
      assert keys == prefix + [last];
      assert (forall i, j | 0 <= i < j < |keys| :: keys[i] != keys[j]) ==> last !in prefix;
      Put(d, last, v)
  }
}
