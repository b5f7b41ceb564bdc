/**
 * Insertion-ordered dictionaries, as Python dicts and DataFrame columns behave:
 * assigning to an existing key replaces its value in place, assigning to a new
 * key appends it at the end.
 */
module OrderedMap {
  import opened Wrappers

  /** Key/value pairs in insertion order. */
  type Assoc<K, V> = seq<(K, V)>

  /** The keys, in order. */
  function Keys<K, V>(m: Assoc<K, V>): (ks: seq<K>)
    ensures |ks| == |m|
    ensures forall i :: 0 <= i < |m| ==> ks[i] == m[i].0
  {
    seq(|m|, i requires 0 <= i < |m| => m[i].0)
  }

  /** No key occurs twice. */
  predicate UniqueKeys<K(==), V>(m: Assoc<K, V>) {
    forall i, j :: 0 <= i < j < |m| ==> m[i].0 != m[j].0
  }

  /** `m[k]`, or None when `k` is not a key (the first entry wins if a key repeats). */
  function Get<K(==), V(==)>(m: Assoc<K, V>, k: K): (r: Option<V>)
    ensures r.None? <==> k !in Keys(m)
    ensures r.Some? ==> (k, r.value) in m
  {
    if |m| == 0 then None
    else if m[0].0 == k then Some(m[0].1)
    else Get(m[1..], k)
  }

  /**
   * `m[k] = v`: the key order is kept and a new key goes last.
   */
  function Put<K(==), V>(m: Assoc<K, V>, k: K, v: V): (r: Assoc<K, V>)
    ensures k in Keys(m) ==> Keys(r) == Keys(m)
    ensures k !in Keys(m) ==> Keys(r) == Keys(m) + [k]
  {
    if |m| == 0 then [(k, v)]
    else
      assert m == [m[0]] + m[1..];
      KeysCons(m[0], m[1..]);
      if m[0].0 == k then
        KeysCons((k, v), m[1..]);
        [(k, v)] + m[1..]
      else
        var rest := Put(m[1..], k, v);
        KeysCons(m[0], rest);
        [m[0]] + rest
  }

  /** The keys of a map with one more entry in front. */
  lemma KeysCons<K, V>(x: (K, V), rest: Assoc<K, V>)
    ensures Keys([x] + rest) == [x.0] + Keys(rest)
  {
  }

  /** `m[k] = v` repeats no key that was not repeated before. */
  lemma PutKeepsUniqueKeys<K, V>(m: Assoc<K, V>, k: K, v: V)
    requires UniqueKeys(m)
    ensures UniqueKeys(Put(m, k, v))
  {
    var r := Put(m, k, v);
    forall i, j | 0 <= i < j < |r| ensures r[i].0 != r[j].0 {
      assert r[i].0 == Keys(r)[i] && r[j].0 == Keys(r)[j];
      assert Keys(r)[i] == Keys(m)[i];
      if j < |m| {
        assert Keys(r)[j] == Keys(m)[j];
      } else {
        assert Keys(r)[j] == k && k !in Keys(m);
      }
    }
  }

  /** Assignment keeps the existing keys in their order at the front. */
  lemma PutKeepsKeyOrder<K, V>(m: Assoc<K, V>, k: K, v: V)
    ensures |Keys(m)| == |m| <= |Keys(Put(m, k, v))|
    ensures Keys(Put(m, k, v))[..|m|] == Keys(m)
  {
  }

  /** After `m[k] = v`, `k` maps to `v`. */
  lemma {:induction false} PutThenGet<K, V>(m: Assoc<K, V>, k: K, v: V)
    ensures Get(Put(m, k, v), k) == Some(v)
  {
    if |m| > 0 && m[0].0 != k {
      PutThenGet(m[1..], k, v);
    }
  }

  /** After `m[k] = v`, every other key maps to what it mapped to before. */
  lemma {:induction false} PutKeepsOthers<K, V>(m: Assoc<K, V>, k: K, v: V, other: K)
    requires other != k
    ensures Get(Put(m, k, v), other) == Get(m, other)
  {
    if |m| > 0 && m[0].0 != k && m[0].0 != other {
      PutKeepsOthers(m[1..], k, v, other);
    }
  }

  /** After `m[k] = v`, no other key's value has changed. */
  lemma PutKeepsAllOthers<K, V>(m: Assoc<K, V>, k: K, v: V)
    ensures forall other :: other != k ==> Get(Put(m, k, v), other) == Get(m, other)
  {
    forall other | other != k ensures Get(Put(m, k, v), other) == Get(m, other) {
      PutKeepsOthers(m, k, v, other);
    }
  }

  /** In a map without repeated keys, `Get` finds the value stored next to the key. */
  lemma {:induction false} GetAtPosition<K, V>(m: Assoc<K, V>, i: nat)
    requires UniqueKeys(m) && i < |m|
    ensures Get(m, m[i].0) == Some(m[i].1)
  {
    if i > 0 {
      assert m[1..][i - 1] == m[i];
      GetAtPosition(m[1..], i - 1);
    }
  }
}
