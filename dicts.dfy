/** Python's `dict` with string keys. Iteration order (`items()`) is the
    order in which keys were first inserted; assigning to an existing key
    keeps its place. Search tie-breaks and CSV row order depend on it. */
module Dicts {

  import opened Seqs

  datatype Dict<V> = Dict(keys: seq<string>, items: map<string, V>)
  {
    /** The keys are listed once each, and exactly the keys of the map. */
    ghost predicate Valid()
    {
      Distinct(keys) && (forall k :: k in items <==> k in keys)
    }

    /** `d[k] = v`. */
    function Put(k: string, v: V): (d: Dict<V>)
      ensures d.items == items[k := v]
      ensures d.keys == if k in items then keys else keys + [k]
      ensures Valid() ==> d.Valid()
    {
      if k in items then Dict(keys, items[k := v]) else Dict(keys + [k], items[k := v])
    }

    /** `d.get(k, default)`. */
    function Get(k: string, default: V): V
    {
      if k in items then items[k] else default
    }
  }

  function EmptyDict<V>(): (d: Dict<V>)
    ensures d.Valid() && d.keys == [] && d.items == map[]
  {
    Dict([], map[])
  }

  /** A second assignment to a present key overrides the first. */
  lemma PutTwice<V>(d: Dict<V>, k: string, v: V, v': V)
    requires k in d.items
    ensures d.Put(k, v).Put(k, v') == d.Put(k, v')
  {
    assert d.items[k := v][k := v'] == d.items[k := v'];
  }

  /** Assigning a key the value it has changes nothing. */
  lemma PutSame<V>(d: Dict<V>, k: string)
    requires k in d.items
    ensures d.Put(k, d.items[k]) == d
  {
    assert d.items[k := d.items[k]] == d.items;
  }
}
