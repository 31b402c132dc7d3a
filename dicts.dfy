/** Python dictionaries as the list of their items in insertion order,
    which is the order in which they are iterated. */
module Dicts {

  /** A dictionary, as its items in insertion order. */
  predicate UniqueKeys<V>(d: seq<(string, V)>) {
    forall i, j | 0 <= i < j < |d| :: d[i].0 != d[j].0
  }

  /** The position of `key` among the items, or `|d|`. */
  function KeyIndex<V>(d: seq<(string, V)>, key: string): (i: nat)
    ensures i <= |d|
    ensures i < |d| ==> d[i].0 == key
    ensures forall k | 0 <= k < i :: d[k].0 != key
  {
    if |d| == 0 then 0 else if d[0].0 == key then 0 else 1 + KeyIndex(d[1..], key)
  }

  /** The second components of a list of pairs: `d.values()` on a
      dictionary. */
  function Values<K, V>(d: seq<(K, V)>): (v: seq<V>)
    ensures |v| == |d|
    ensures forall k | 0 <= k < |d| :: v[k] == d[k].1
  {
    seq(|d|, k requires 0 <= k < |d| => d[k].1)
  }

  /** `d[key] = v` on an insertion-ordered dictionary. */
  function Put<V>(d: seq<(string, V)>, key: string, v: V): (r: seq<(string, V)>)
    ensures (key, v) in r
    ensures forall k | 0 <= k < |r| :: r[k] == (key, v) || r[k] in d
    ensures UniqueKeys(d) ==> UniqueKeys(r)
  {
    var i := KeyIndex(d, key);
    if i < |d| then
      assert d[i := (key, v)][i] == (key, v);
      assert UniqueKeys(d) ==> forall k | 0 <= k < |d| && k != i :: d[k].0 != key;
      d[i := (key, v)]
    else d + [(key, v)]
  }

  /** `d[key] += xs` on a `defaultdict` of lists or of strings: the
      key's value is extended, or the key is added with `xs`. */
  function Extend<V>(d: seq<(string, seq<V>)>, key: string, xs: seq<V>): (r: seq<(string, seq<V>)>)
    ensures UniqueKeys(d) ==> UniqueKeys(r)
  {
    var i := KeyIndex(d, key);
    if i < |d| then d[i := (key, d[i].1 + xs)] else d + [(key, xs)]
  }

  /** Extending an entry keeps every key present and adds the one extended. */
  lemma ExtendFinds<V>(d: seq<(string, seq<V>)>, key: string, xs: seq<V>, q: string)
    requires KeyIndex(d, q) < |d| || q == key
    ensures KeyIndex(Extend(d, key, xs), q) < |Extend(d, key, xs)|
  {
    var r := Extend(d, key, xs);
    var i := KeyIndex(d, key);
    var m := if q == key then (if i < |d| then i else |d|) else KeyIndex(d, q);
    assert m < |r| && r[m].0 == q;
  }

  /** Appending an item finds exactly the keys found before and the new one. */
  lemma KeyIndexAppend<V>(d: seq<(string, V)>, item: (string, V), q: string)
    ensures KeyIndex(d + [item], q) < |d| + 1 <==> KeyIndex(d, q) < |d| || q == item.0
  {
    var e := d + [item];
    if KeyIndex(d, q) < |d| {
      assert e[KeyIndex(d, q)].0 == q;
    } else if q == item.0 {
      assert e[|d|].0 == q;
    }
  }

  /** Putting a key leaves the entries with other keys where they are. */
  lemma PutKeepsOthers<V>(d: seq<(string, V)>, key: string, v: V, m: nat)
    requires m < |d| && d[m].0 != key
    ensures m < |Put(d, key, v)| && Put(d, key, v)[m] == d[m]
  {
  }

  /** Item lists with the same keys in the same order find a key at the
      same place. */
  lemma KeyIndexSameKeys<V, W>(d: seq<(string, V)>, e: seq<(string, W)>, key: string)
    requires |d| == |e| && forall k | 0 <= k < |d| :: d[k].0 == e[k].0
    ensures KeyIndex(d, key) == KeyIndex(e, key)
  {
  }
}
