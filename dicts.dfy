/** Python's `dict` with string keys, which remembers the order its keys were
    first inserted in: the model of every dictionary the pipeline fills in a loop. */
module Dicts {
  import opened Seqs

  datatype Dict<V> = Dict(keys: seq<string>, entries: map<string, V>) {
    /** The key order lists every key once, and exactly the keys that have an entry. */
    ghost predicate Valid() {
      Distinct(keys) && forall k :: k in entries <==> k in keys
    }
  }

  /** `{}` */
  function Empty<V>(): (d: Dict<V>)
    ensures d.Valid()
  {
    Dict([], map[])
  }

  /** `d[k] = v`: a new key goes to the end of the key order, an existing key keeps its place. */
  function Set<V>(d: Dict<V>, k: string, v: V): (r: Dict<V>)
    requires d.Valid()
    ensures r.Valid()
  {
    Dict(if k in d.entries then d.keys else d.keys + [k], d.entries[k := v])
  }

  /** `d.get(k, default)` */
  function Get<V>(d: Dict<V>, k: string, default: V): V {
    if k in d.entries then d.entries[k] else default
  }

  /** `d[k].add(v)` on a `defaultdict(set)`: a missing key is first bound to an empty set. */
  function AddToSet<V>(d: Dict<set<V>>, k: string, v: V): (r: Dict<set<V>>)
    requires d.Valid()
    ensures r.Valid()
  {
    Set(d, k, Get(d, k, {}) + {v})
  }

  /** When the key order of `d` is the first-occurrence order of `xs`, a store
      under `k` keeps it the first-occurrence order of `xs + [k]`. */
  lemma SetFollowsFirstOccurrence<V>(d: Dict<V>, xs: seq<string>, k: string, v: V)
    requires d.Valid() && d.keys == Dedup(xs)
    ensures Set(d, k, v).keys == Dedup(xs + [k])
  {
    DedupSnoc(xs, k);
  }
}
