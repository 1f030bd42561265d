/**
 * PHP's ordered arrays used as dictionaries: a sequence of (key, value)
 * entries in insertion order with distinct keys. Assigning `$a[$k] = $v`
 * overwrites the entry for `$k` in place, or appends a new entry at the end.
 */
module PhpArrays {
  import opened Wrappers

  function Keys<K, V>(a: seq<(K, V)>): (ks: seq<K>)
    ensures |ks| == |a| && forall i :: 0 <= i < |a| ==> ks[i] == a[i].0
  {
    seq(|a|, i requires 0 <= i < |a| => a[i].0)
  }

  predicate DistinctKeys<K(==), V>(a: seq<(K, V)>) {
    forall i, j :: 0 <= i < j < |a| ==> a[i].0 != a[j].0
  }

  /** Position of the first entry with key `k`, if any. */
  function IndexOf<K(==), V>(a: seq<(K, V)>, k: K): (r: Option<nat>)
    ensures r.None? <==> forall i :: 0 <= i < |a| ==> a[i].0 != k
    ensures r.Some? ==> r.value < |a| && a[r.value].0 == k
    ensures r.Some? ==> forall i :: 0 <= i < r.value ==> a[i].0 != k
  {
    if a == [] then None
    else if a[0].0 == k then Some(0)
    else match IndexOf(a[1..], k)
      case None => None
      case Some(i) => Some(i + 1)
  }

  /** `$a[$k]`, or None when the key is absent. */
  function Lookup<K(==), V>(a: seq<(K, V)>, k: K): Option<V> {
    match IndexOf(a, k)
    case None => None
    case Some(i) => Some(a[i].1)
  }

  /** `$a[$k] = $v`. */
  function Put<K(==), V>(a: seq<(K, V)>, k: K, v: V): seq<(K, V)> {
    match IndexOf(a, k)
    case None => a + [(k, v)]
    case Some(i) => a[i := (k, v)]
  }

  /** After the assignment the key reads back the new value and every other key reads as before. */
  lemma PutLookup<K, V>(a: seq<(K, V)>, k: K, v: V, k': K)
    ensures Lookup(Put(a, k, v), k) == Some(v)
    ensures k' != k ==> Lookup(Put(a, k, v), k') == Lookup(a, k')
  {
    var b := Put(a, k, v);
    match IndexOf(a, k)
    case None =>
      assert b[|a|] == (k, v);
      if k' != k {
        match IndexOf(a, k')
        case None =>
        case Some(j) =>
          assert b[j] == a[j];
      }
    case Some(i) =>
      assert b[i] == (k, v);
      assert forall j :: 0 <= j < i ==> b[j].0 != k;
      if k' != k {
        match IndexOf(a, k')
        case None =>
        case Some(j) =>
          assert b[j] == a[j];
      }
  }

  /** An assigned key that was present keeps its position; a new key goes at the end. Keys stay distinct. */
  lemma PutShape<K, V>(a: seq<(K, V)>, k: K, v: V)
    requires DistinctKeys(a)
    ensures DistinctKeys(Put(a, k, v))
    ensures Lookup(a, k).None? ==> Put(a, k, v) == a + [(k, v)]
    ensures Lookup(a, k).Some? ==> |Put(a, k, v)| == |a| && Keys(Put(a, k, v)) == Keys(a)
  {
  }

  /** `foreach ($entries as $k => $v) $a[$k] = $v;` */
  function PutAll<K(==), V>(a: seq<(K, V)>, entries: seq<(K, V)>): seq<(K, V)> {
    if |entries| == 0 then a
    else
      var (k, v) := entries[|entries| - 1];
      Put(PutAll(a, entries[..|entries| - 1]), k, v)
  }

  /**
   * After assigning a list of entries, a key reads back its last assigned
   * value, an unassigned key reads as before, and the keys stay distinct.
   */
  lemma {:induction false} PutAllLookup<K, V>(a: seq<(K, V)>, entries: seq<(K, V)>, k: K)
    requires DistinctKeys(a)
    ensures DistinctKeys(PutAll(a, entries))
    ensures Lookup(PutAll(a, entries), k) == match Lookup(Reversed(entries), k)
      case Some(v) => Some(v)
      case None => Lookup(a, k)
  {
    if |entries| > 0 {
      var init := entries[..|entries| - 1];
      var (k', v) := entries[|entries| - 1];
      PutAllLookup(a, init, k);
      PutShape(PutAll(a, init), k', v);
      PutLookup(PutAll(a, init), k', v, k);
      assert Reversed(entries) == [(k', v)] + Reversed(init);
      if k != k' {
        assert Lookup(Reversed(entries), k) == Lookup(Reversed(init), k) by {
          var r := Reversed(init);
          assert ([(k', v)] + r)[1..] == r;
        }
      }
    }
  }

  function Reversed<T>(s: seq<T>): (r: seq<T>)
    ensures |r| == |s|
  {
    if |s| == 0 then [] else [s[|s| - 1]] + Reversed(s[..|s| - 1])
  }
}
