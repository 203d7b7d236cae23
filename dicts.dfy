/**
 * Python dictionaries whose iteration order matters: a list of key/value
 * entries in insertion order. Assigning to a key that is already present
 * replaces its value in place; a new key goes to the end.
 */
module Dicts {
  import opened Wrappers
  import opened Collections

  type Dict<K, V> = seq<(K, V)>

  /** The keys, in iteration order: `list(d)`. */
  function Keys<K, V>(d: Dict<K, V>): (r: seq<K>)
    ensures |r| == |d|
    ensures forall i :: 0 <= i < |d| ==> r[i] == d[i].0
  {
    if d == [] then [] else Keys(d[..|d| - 1]) + [d[|d| - 1].0]
  }

  /** A well-formed dictionary holds each key once. */
  predicate IsDict<K(==), V>(d: Dict<K, V>) {
    NoDup(Keys(d))
  }

  /** The position of the first occurrence of `k` in `s`. */
  function IndexOf<K(==)>(s: seq<K>, k: K): (i: nat)
    requires k in s
    ensures i < |s| && s[i] == k
    ensures forall j :: 0 <= j < i ==> s[j] != k
  {
    if s[0] == k then 0 else 1 + IndexOf(s[1..], k)
  }

  /** `d.get(k)`. */
  function Get<K(==), V>(d: Dict<K, V>, k: K): (r: Option<V>)
    ensures r.Some? <==> k in Keys(d)
    ensures r.Some? ==> (k, r.value) in d
  {
    if k in Keys(d) then Some(d[IndexOf(Keys(d), k)].1) else None
  }

  /** In a well-formed dictionary the entry at position `i` is what `Get` finds. */
  lemma GetAt<K, V>(d: Dict<K, V>, i: nat)
    requires IsDict(d) && i < |d|
    ensures Get(d, d[i].0) == Some(d[i].1)
  {
    assert Keys(d)[i] == d[i].0;
  }

  /** Replacing the value of a present key keeps the keys and changes only that lookup. */
  lemma PutPresent<K(!new), V>(d: Dict<K, V>, k: K, v: V)
    requires IsDict(d) && k in Keys(d)
    ensures var r := d[IndexOf(Keys(d), k) := (k, v)];
      && Keys(r) == Keys(d)
      && Get(r, k) == Some(v)
      && forall k' :: k' != k ==> Get(r, k') == Get(d, k')
  {
    var i := IndexOf(Keys(d), k);
    var r := d[i := (k, v)];
    assert Keys(r) == Keys(d);
    assert Keys(r)[i] == k;
    forall k' | k' != k && k' in Keys(d) ensures Get(r, k') == Get(d, k') {
      var j := IndexOf(Keys(d), k');
      assert Keys(r)[j] == k';
    }
  }

  /** In a well-formed dictionary an entry is what `Get` finds for its key. */
  lemma GetEntry<K, V>(d: Dict<K, V>, k: K, v: V)
    requires IsDict(d) && (k, v) in d
    ensures Get(d, k) == Some(v)
  {
    var i :| 0 <= i < |d| && d[i] == (k, v);
    GetAt(d, i);
  }

  /** Appending an absent key adds it last and changes no other lookup. */
  lemma PutAbsent<K(!new), V>(d: Dict<K, V>, k: K, v: V)
    requires IsDict(d) && k !in Keys(d)
    ensures var r := d + [(k, v)];
      && Keys(r) == Keys(d) + [k]
      && Get(r, k) == Some(v)
      && forall k' :: k' != k ==> Get(r, k') == Get(d, k')
  {
    var r := d + [(k, v)];
    assert r[..|d|] == d;
    assert Keys(r) == Keys(d) + [k];
    GetEntry(r, k, v);
    forall k' | k' != k && k' in Keys(d) ensures Get(r, k') == Get(d, k') {
      var w := Get(d, k').value;
      GetEntry(r, k', w);
    }
  }

  /** `d[k] = v`: replace in place when `k` is present, otherwise append. */
  function Put<K(==,!new), V>(d: Dict<K, V>, k: K, v: V): (r: Dict<K, V>)
    requires IsDict(d)
    ensures Keys(r) == if k in Keys(d) then Keys(d) else Keys(d) + [k]
    ensures forall i :: 0 <= i < |d| && d[i].0 != k ==> r[i] == d[i]
    ensures Get(r, k) == Some(v)
    ensures forall k' :: k' != k ==> Get(r, k') == Get(d, k')
    ensures IsDict(r)
  {
    if k in Keys(d) then
      PutPresent(d, k, v);
      d[IndexOf(Keys(d), k) := (k, v)]
    else
      PutAbsent(d, k, v);
      d + [(k, v)]
  }
}
