/** Python dictionaries with their insertion order: assigning to an
    existing key keeps its place, a new key goes last, `setdefault` inserts
    only a missing key, and `values()` lists the values in key order. */
module OrderedDicts {
  import opened Lists

  datatype ODict<K(==, !new), V> = ODict(keys: seq<K>, entries: map<K, V>)

  /** The keys are listed once each, and exactly the keys have entries. */
  ghost predicate WellFormed<K(!new), V>(d: ODict<K, V>)
  {
    NoDuplicates(d.keys) && forall k :: k in d.entries <==> k in d.keys
  }

  function Empty<K(==, !new), V>(): (d: ODict<K, V>)
    ensures WellFormed(d) && d.keys == []
  {
    ODict([], map[])
  }

  /** `d[k] = v` */
  function Put<K(==, !new), V>(d: ODict<K, V>, k: K, v: V): (r: ODict<K, V>)
    ensures WellFormed(d) ==> WellFormed(r)
  {
    ODict(if k in d.entries then d.keys else d.keys + [k], d.entries[k := v])
  }

  /** `d.setdefault(k, v)`, as its effect on the dictionary. */
  function SetDefault<K(==, !new), V>(d: ODict<K, V>, k: K, v: V): (r: ODict<K, V>)
    ensures WellFormed(d) ==> WellFormed(r)
    ensures k in r.entries
    ensures k in d.entries ==> r == d
    ensures k !in d.entries ==> r == Put(d, k, v)
  {
    if k in d.entries then d else Put(d, k, v)
  }

  /** `list(d.values())` */
  function ValuesOf<K(==, !new), V>(d: ODict<K, V>): (vs: seq<V>)
    requires WellFormed(d)
    ensures |vs| == |d.keys|
    ensures forall i :: 0 <= i < |d.keys| ==> vs[i] == d.entries[d.keys[i]]
  {
    seq(|d.keys|, i requires 0 <= i < |d.keys| => d.entries[d.keys[i]])
  }

  /** Reassigning a present key changes its value in place; a new key's
      value goes last. */
  lemma ValuesPut<K(!new), V>(d: ODict<K, V>, k: K, v: V)
    requires WellFormed(d)
    ensures k !in d.entries ==> ValuesOf(Put(d, k, v)) == ValuesOf(d) + [v]
    ensures forall i :: 0 <= i < |d.keys| && d.keys[i] == k ==> ValuesOf(Put(d, k, v)) == ValuesOf(d)[i := v]
  {
    var r := Put(d, k, v);
    forall i | 0 <= i < |d.keys| && d.keys[i] == k ensures ValuesOf(r) == ValuesOf(d)[i := v] {
      forall j | 0 <= j < |d.keys| && j != i ensures d.keys[j] != k {
      }
    }
  }
}
