/** A JavaScript object used as a dictionary (`Record<string, V>`): its keys
    in insertion order, as `for...in`, `Object.keys` and `Object.values`
    enumerate them, and the value under each key. Assigning to a key that is
    already present keeps its position. */
module Dicts {
  import opened Prelude

  datatype Dict<V> = Dict(keys: seq<string>, values: map<string, V>) {
    /** Exactly the keys are listed, each once, as `Object.keys` lists them. */
    predicate Valid() {
      && (forall k :: k in values ==> k in keys)
      && (forall k :: k in keys ==> k in values)
      && Distinct(keys)
    }
  }

  /** `{}` */
  function Empty<V>(): (d: Dict<V>)
    ensures d.Valid() && d.keys == [] && d.values == map[]
  {
    Dict([], map[])
  }

  /** `d[k] = v` */
  function Put<V>(d: Dict<V>, k: string, v: V): (r: Dict<V>)
    ensures d.Valid() ==> r.Valid()
    ensures r.values == d.values[k := v]
    ensures k in d.values ==> r.keys == d.keys
    ensures k !in d.values ==> r.keys == d.keys + [k]
  {
    if k in d.values then Dict(d.keys, d.values[k := v]) else Dict(d.keys + [k], d.values[k := v])
  }

  /** The values under `keys`, in order. */
  function ValuesOf<V>(keys: seq<string>, values: map<string, V>): (r: seq<V>)
    requires forall k :: k in keys ==> k in values
    ensures |r| == |keys| && forall i :: 0 <= i < |keys| ==> r[i] == values[keys[i]]
  {
    if keys == [] then [] else ValuesOf(keys[..|keys| - 1], values) + [values[keys[|keys| - 1]]]
  }

  /** `Object.values(d)` */
  function Values<V>(d: Dict<V>): (r: seq<V>)
    requires d.Valid()
    ensures |r| == |d.keys| && forall i :: 0 <= i < |d.keys| ==> r[i] == d.values[d.keys[i]]
  {
    ValuesOf(d.keys, d.values)
  }
}
