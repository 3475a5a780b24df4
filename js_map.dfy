/**
 * A JavaScript `Map` as the list of its entries in insertion order: `set` on
 * a present key replaces the value in place, on a new key appends an entry,
 * and iteration follows the list.
 */
module JsMap {
  import opened Wrappers
  import SeqOps

  type OrderedMap<K, V> = seq<(K, V)>

  function Keys<K, V>(m: OrderedMap<K, V>): (r: seq<K>)
    ensures |r| == |m| && forall i :: 0 <= i < |m| ==> r[i] == m[i].0
  {
    seq(|m|, i requires 0 <= i < |m| => m[i].0)
  }

  /** No key occurs twice, as in every real `Map`. */
  predicate DistinctKeys<K(==), V>(m: OrderedMap<K, V>) {
    forall i, j :: 0 <= i < j < |m| ==> m[i].0 != m[j].0
  }

  /** `m.get(k)`. */
  function Get<K(==), V>(m: OrderedMap<K, V>, k: K): (r: Option<V>)
    ensures r.None? <==> k !in Keys(m)
    ensures r.Some? ==> exists i :: 0 <= i < |m| && m[i] == (k, r.value)
  {
    var i := SeqOps.IndexOf(Keys(m), k);
    if i == -1 then None else Some(m[i].1)
  }

  /** `m.set(k, v)`. */
  function Put<K(==), V>(m: OrderedMap<K, V>, k: K, v: V): (r: OrderedMap<K, V>)
    ensures k in Keys(m) ==> |r| == |m|
    ensures k !in Keys(m) ==> r == m + [(k, v)]
  {
    var i := SeqOps.IndexOf(Keys(m), k);
    if i == -1 then m + [(k, v)] else m[i := (k, v)]
  }

  /** After `set(k, v)`, `get(k)` is v and every other key reads as before. */
  lemma PutGet<K, V>(m: OrderedMap<K, V>, k: K, v: V, k': K)
    requires DistinctKeys(m)
    ensures Get(Put(m, k, v), k') == if k' == k then Some(v) else Get(m, k')
  {
    var i := SeqOps.IndexOf(Keys(m), k);
    var r := Put(m, k, v);
    if i == -1 {
      if k' == k {
        SeqOps.IndexOfFirst(Keys(r), k, |m|);
      } else if k' in Keys(m) {
        var j := SeqOps.IndexOf(Keys(m), k');
        assert Keys(r)[..j] == Keys(m)[..j];
        SeqOps.IndexOfFirst(Keys(r), k', j);
      } else {
        assert k' !in Keys(r);
      }
    } else {
      assert Keys(r) == Keys(m);
    }
  }

  /** `set` adds a key only when it is new, at the end. */
  lemma PutKeys<K, V>(m: OrderedMap<K, V>, k: K, v: V)
    ensures Keys(Put(m, k, v)) == if k in Keys(m) then Keys(m) else Keys(m) + [k]
  {
  }

  lemma PutDistinct<K, V>(m: OrderedMap<K, V>, k: K, v: V)
    requires DistinctKeys(m)
    ensures DistinctKeys(Put(m, k, v))
  {
  }

  /** Setting a key to the value it already has changes nothing. */
  lemma PutExisting<K, V>(m: OrderedMap<K, V>, i: nat)
    requires DistinctKeys(m) && i < |m|
    ensures Put(m, m[i].0, m[i].1) == m
  {
    SeqOps.IndexOfFirst(Keys(m), m[i].0, i);
  }

  /** Reading a map that has had a new entry added at its end. */
  lemma GetAppend<K, V>(m: OrderedMap<K, V>, k: K, v: V, k': K)
    requires k !in Keys(m)
    ensures Get(m + [(k, v)], k') == if k' in Keys(m) then Get(m, k') else if k' == k then Some(v) else None
  {
    var r := m + [(k, v)];
    assert Keys(r) == Keys(m) + [k];
    if k' in Keys(m) {
      var j := SeqOps.IndexOf(Keys(m), k');
      assert Keys(r)[..j] == Keys(m)[..j];
      SeqOps.IndexOfFirst(Keys(r), k', j);
    } else if k' == k {
      assert Keys(r)[..|m|] == Keys(m);
      SeqOps.IndexOfFirst(Keys(r), k, |m|);
    }
  }
}
