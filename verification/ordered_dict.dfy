/** An insertion-ordered dictionary keyed by canonical strings. */
module OrderedDict {
  import opened Seqs

  /** `keys` lists the keys of `m` in insertion order. */
  datatype ODict<V> = ODict(keys: seq<string>, m: map<string, V>)

  ghost predicate Valid<V>(d: ODict<V>) {
    && NoDups(d.keys)
    && (forall k :: k in d.m <==> k in d.keys)
  }

  function Empty<V>(): (d: ODict<V>)
    ensures Valid(d) && d.m == map[] && d.keys == []
  {
    ODict([], map[])
  }

  /** Assignment `d[k] = v`: an existing key keeps its place, a new key goes last. */
  function Put<V>(d: ODict<V>, k: string, v: V): (r: ODict<V>)
    requires Valid(d)
    ensures Valid(r)
    ensures r.m == d.m[k := v]
    ensures k in d.m ==> r.keys == d.keys
    ensures k !in d.m ==> r.keys == d.keys + [k]
  {
    if k in d.m then ODict(d.keys, d.m[k := v]) else ODict(d.keys + [k], d.m[k := v])
  }
}
