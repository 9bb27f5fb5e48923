/**
 * The ordered collection the delegate navigates. The real `Collection` interface
 * lives outside this model; here it is the sequence of its keys, in order, with
 * no key repeated. Every query below is only asked about a key of the collection.
 */
module Collection {
  import opened Wrappers

  /** Keys are stable identities: no key occurs twice. */
  ghost predicate Distinct<K>(keys: seq<K>) {
    forall a, b :: 0 <= a < b < |keys| ==> keys[a] != keys[b]
  }

  /** The position of `k` in the collection (its first one). */
  function IndexOf<K(==)>(keys: seq<K>, k: K): (i: nat)
    requires k in keys
    ensures i < |keys| && keys[i] == k
    ensures forall j :: 0 <= j < i ==> keys[j] != k
  {
    if keys[0] == k then 0 else 1 + IndexOf(keys[1..], k)
  }

  /** In a collection of distinct keys, the key at position `j` is found at `j`. */
  lemma IndexOfAt<K>(keys: seq<K>, j: nat)
    requires Distinct(keys) && j < |keys|
    ensures IndexOf(keys, keys[j]) == j
  {
  }

  /** `getFirstKey()`: none for an empty collection. */
  function FirstKey<K(==)>(keys: seq<K>): (r: Option<K>)
    ensures r.None? <==> |keys| == 0
    ensures r.Some? ==> r.value in keys && IndexOf(keys, r.value) == 0
  {
    if |keys| == 0 then None else Some(keys[0])
  }

  /** `getLastKey()`: none for an empty collection. */
  function LastKey<K(==)>(keys: seq<K>): (r: Option<K>)
    ensures r.None? <==> |keys| == 0
    ensures r.Some? ==> r.value in keys
  {
    if |keys| == 0 then None else Some(keys[|keys| - 1])
  }

  /** `getKeyAfter(k)`: none when `k` is the last key. */
  function KeyAfter<K(==)>(keys: seq<K>, k: K): (r: Option<K>)
    requires k in keys
    ensures Distinct(keys) ==> (r.None? <==> k == keys[|keys| - 1])
    ensures r.Some? ==> r.value in keys
  {
    var i := IndexOf(keys, k);
    if i + 1 < |keys| then Some(keys[i + 1]) else None
  }

  /** `getKeyBefore(k)`: none when `k` is the first key. */
  function KeyBefore<K(==)>(keys: seq<K>, k: K): (r: Option<K>)
    requires k in keys
    ensures r.None? <==> k == keys[0]
    ensures r.Some? ==> r.value in keys
  {
    var i := IndexOf(keys, k);
    if 0 < i then Some(keys[i - 1]) else None
  }

  /** In a collection, the last key sits at the last position. */
  lemma LastKeyPosition<K>(keys: seq<K>)
    requires Distinct(keys) && |keys| > 0
    ensures IndexOf(keys, LastKey(keys).value) == |keys| - 1
  {
    IndexOfAt(keys, |keys| - 1);
  }

  /** In a collection, the key after `k` sits one position further on. */
  lemma KeyAfterPosition<K>(keys: seq<K>, k: K)
    requires Distinct(keys) && k in keys && KeyAfter(keys, k).Some?
    ensures IndexOf(keys, KeyAfter(keys, k).value) == IndexOf(keys, k) + 1
  {
    IndexOfAt(keys, IndexOf(keys, k) + 1);
  }

  /** In a collection, the key before `k` sits one position back. */
  lemma KeyBeforePosition<K>(keys: seq<K>, k: K)
    requires Distinct(keys) && k in keys && KeyBefore(keys, k).Some?
    ensures IndexOf(keys, KeyBefore(keys, k).value) == IndexOf(keys, k) - 1
  {
    IndexOfAt(keys, IndexOf(keys, k) - 1);
  }
}
