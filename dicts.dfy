/**
 * Python's dict as the program uses it: keys kept in insertion order, and
 * `d[k] = v` replacing the value of a present key in place and appending a new
 * key at the end. Both the request-header dict and the metrics row are built
 * this way.
 */
module Dicts {

  /** `order` lists the keys in insertion order, `entries` maps each to its value. */
  datatype Dict<K, V> = Dict(order: seq<K>, entries: map<K, V>)

  /** No key listed twice. */
  ghost predicate Distinct<K>(s: seq<K>)
  {
    forall i, j :: 0 <= i < j < |s| ==> s[i] != s[j]
  }

  /** The order lists each key of the dict exactly once. */
  ghost predicate Valid<K, V>(d: Dict<K, V>)
  {
    && Distinct(d.order)
    && d.entries.Keys == Elements(d.order)
  }

  /** `{}` */
  function Empty<K, V>(): (d: Dict<K, V>)
    ensures Valid(d) && d.entries == map[] && d.order == []
  {
    Dict([], map[])
  }

  /** `d[k] = v` */
  function Put<K, V>(d: Dict<K, V>, k: K, v: V): (r: Dict<K, V>)
    requires Valid(d)
    ensures Valid(r)
    ensures r.entries == d.entries[k := v]
    ensures r.order == if k in d.entries then d.order else d.order + [k]
  {
    if k in d.entries then Dict(d.order, d.entries[k := v])
    else Dict(d.order + [k], d.entries[k := v])
  }

  /** The elements of a sequence, as a set. */
  function Elements<K>(s: seq<K>): set<K>
  {
    set x | x in s
  }

  /** A sequence without repetitions has as many elements as its set. */
  lemma {:induction false} DistinctCard<K>(s: seq<K>)
    requires Distinct(s)
    ensures |Elements(s)| == |s|
  {
    if s != [] {
      var t := s[..|s| - 1];
      assert Distinct(t);
      DistinctCard(t);
      assert Elements(s) == Elements(t) + {s[|s| - 1]};
    }
  }

  /** A dict holds exactly one entry per key: its size is the length of its order. */
  lemma SizeIsOrderLength<K, V>(d: Dict<K, V>)
    requires Valid(d)
    ensures |d.entries| == |d.order|
  {
    DistinctCard(d.order);
  }
}
