/** Python's `dict`: key/value items kept in insertion order, each key once.
    Assigning to a present key replaces its value in place; assigning to a new
    key appends it; deleting a key removes its item. */
module Dicts {
  import opened Wrappers

  type Dict<K, V> = seq<(K, V)>

  ghost predicate UniqueKeys<K, V>(d: Dict<K, V>)
  {
    forall i, j :: 0 <= i < j < |d| ==> d[i].0 != d[j].0
  }

  function Keys<K, V>(d: Dict<K, V>): (ks: seq<K>)
    ensures |ks| == |d|
    ensures forall i :: 0 <= i < |d| ==> ks[i] == d[i].0
  {
    if |d| == 0 then [] else [d[0].0] + Keys(d[1..])
  }

  /** Position of the item with key `k`, if there is one. */
  function Find<K(==), V>(d: Dict<K, V>, k: K): (r: Option<nat>)
    ensures r.Some? ==> r.value < |d| && d[r.value].0 == k
    ensures r.Some? ==> forall j :: 0 <= j < r.value ==> d[j].0 != k
    ensures r.None? ==> forall j :: 0 <= j < |d| ==> d[j].0 != k
  {
    if |d| == 0 then None
    else if d[0].0 == k then Some(0)
    else match Find(d[1..], k)
      case None => None
      case Some(i) => Some(i + 1)
  }

  /** `d.get(k)`. */
  function Get<K(==), V>(d: Dict<K, V>, k: K): Option<V>
  {
    match Find(d, k)
    case None => None
    case Some(i) => Some(d[i].1)
  }

  /** `d[k] = v`. */
  function Set<K(==), V>(d: Dict<K, V>, k: K, v: V): Dict<K, V>
  {
    match Find(d, k)
    case None => d + [(k, v)]
    case Some(i) => d[i := (k, v)]
  }

  /** `del d[k]` when `k` is present; no change otherwise. */
  function Remove<K(==), V>(d: Dict<K, V>, k: K): Dict<K, V>
  {
    match Find(d, k)
    case None => d
    case Some(i) => d[..i] + d[i + 1..]
  }

  /** With distinct keys, `Get` finds exactly the item stored under the key. */
  lemma GetItem<K, V>(d: Dict<K, V>, i: nat)
    requires UniqueKeys(d) && i < |d|
    ensures Get(d, d[i].0) == Some(d[i].1)
  {
    var f := Find(d, d[i].0);
    assert f.Some?;
    assert f.value == i;
  }

  lemma GetMissing<K, V>(d: Dict<K, V>, k: K)
    ensures Get(d, k).None? <==> k !in Keys(d)
  {
    if Get(d, k).Some? {
      assert Keys(d)[Find(d, k).value] == k;
    }
  }

  /** After `d[k] = v`: `k` maps to `v`, every other key keeps its value, the
      keys stay distinct, and the key order is kept (a new key goes last). */
  lemma SetSpec<K, V>(d: Dict<K, V>, k: K, v: V)
    requires UniqueKeys(d)
    ensures UniqueKeys(Set(d, k, v))
    ensures Get(Set(d, k, v), k) == Some(v)
    ensures forall k' :: k' != k ==> Get(Set(d, k, v), k') == Get(d, k')
    ensures Keys(Set(d, k, v)) == if k in Keys(d) then Keys(d) else Keys(d) + [k]
  {
    GetMissing(d, k);
    match Find(d, k)
    case None => SetAbsent(d, k, v);
    case Some(i) => SetPresent(d, k, v, i);
  }

  lemma SetPresent<K, V>(d: Dict<K, V>, k: K, v: V, i: nat)
    requires UniqueKeys(d) && i < |d| && d[i].0 == k
    ensures UniqueKeys(d[i := (k, v)])
    ensures Get(d[i := (k, v)], k) == Some(v)
    ensures forall k' :: k' != k ==> Get(d[i := (k, v)], k') == Get(d, k')
    ensures Keys(d[i := (k, v)]) == Keys(d)
  {
    var e := d[i := (k, v)];
    KeysUpdate(d, i, v);
    assert forall j :: 0 <= j < |e| && j != i ==> e[j] == d[j];
    assert UniqueKeys(e);
    GetItem(e, i);
    forall k' | k' != k
      ensures Get(e, k') == Get(d, k')
    {
      GetOther(d, e, k, k');
    }
  }

  lemma SetAbsent<K, V>(d: Dict<K, V>, k: K, v: V)
    requires UniqueKeys(d) && k !in Keys(d)
    ensures UniqueKeys(d + [(k, v)])
    ensures Get(d + [(k, v)], k) == Some(v)
    ensures forall k' :: k' != k ==> Get(d + [(k, v)], k') == Get(d, k')
    ensures Keys(d + [(k, v)]) == Keys(d) + [k]
  {
    var e := d + [(k, v)];
    KeysAppend(d, k, v);
    assert forall j :: 0 <= j < |d| ==> e[j] == d[j] && d[j].0 != k;
    assert UniqueKeys(e);
    GetItem(e, |d|);
    forall k' | k' != k
      ensures Get(e, k') == Get(d, k')
    {
      GetOther(d, e, k, k');
    }
  }

  lemma KeysAppend<K, V>(d: Dict<K, V>, k: K, v: V)
    ensures Keys(d + [(k, v)]) == Keys(d) + [k]
  {
    assert forall j :: 0 <= j <= |d| ==> Keys(d + [(k, v)])[j] == (Keys(d) + [k])[j];
  }

  lemma KeysUpdate<K, V>(d: Dict<K, V>, i: nat, v: V)
    requires i < |d|
    ensures Keys(d[i := (d[i].0, v)]) == Keys(d)
  {
    assert forall j :: 0 <= j < |d| ==> Keys(d[i := (d[i].0, v)])[j] == Keys(d)[j];
  }

  /** Two distinct-key dictionaries that agree on every item not under `k`
      agree on every key other than `k`. */
  lemma GetOther<K, V>(d: Dict<K, V>, e: Dict<K, V>, k: K, k': K)
    requires UniqueKeys(e) && k' != k
    requires forall j :: 0 <= j < |e| ==> e[j].0 == k || (j < |d| && e[j] == d[j])
    requires forall j :: 0 <= j < |d| ==> d[j].0 == k || (j < |e| && e[j] == d[j])
    ensures Get(e, k') == Get(d, k')
  {
    match Find(d, k')
    case None =>
      assert forall j :: 0 <= j < |e| ==> e[j].0 != k';
    case Some(i) =>
      assert e[i] == d[i];
      GetItem(e, i);
  }

  /** After `del d[k]`: `k` is absent and every other key keeps its value. */
  lemma RemoveSpec<K, V>(d: Dict<K, V>, k: K)
    requires UniqueKeys(d)
    ensures UniqueKeys(Remove(d, k))
    ensures Get(Remove(d, k), k) == None
    ensures forall k' :: k' != k ==> Get(Remove(d, k), k') == Get(d, k')
    ensures |Remove(d, k)| == if k in Keys(d) then |d| - 1 else |d|
  {
    GetMissing(d, k);
    match Find(d, k)
    case None =>
    case Some(i) =>
      RemoveAtSpec(d, i);
      forall k' | k' != k
        ensures Get(Remove(d, k), k') == Get(d, k')
      {
        RemoveAtOther(d, i, k');
      }
  }

  lemma RemoveAtSpec<K, V>(d: Dict<K, V>, i: nat)
    requires UniqueKeys(d) && i < |d|
    ensures |d[..i] + d[i + 1..]| == |d| - 1
    ensures forall j :: 0 <= j < |d| - 1 ==>
      (d[..i] + d[i + 1..])[j] == if j < i then d[j] else d[j + 1]
    ensures UniqueKeys(d[..i] + d[i + 1..])
    ensures Find(d[..i] + d[i + 1..], d[i].0) == None
  {
    var e := d[..i] + d[i + 1..];
    assert forall j :: 0 <= j < |e| ==> e[j] == if j < i then d[j] else d[j + 1];
    assert forall j :: 0 <= j < |e| ==> e[j].0 != d[i].0;
  }

  lemma RemoveAtOther<K, V>(d: Dict<K, V>, i: nat, k': K)
    requires UniqueKeys(d) && i < |d| && d[i].0 != k'
    ensures Get(d[..i] + d[i + 1..], k') == Get(d, k')
  {
    RemoveAtSpec(d, i);
    var e := d[..i] + d[i + 1..];
    match Find(d, k')
    case None =>
      assert forall j :: 0 <= j < |e| ==> e[j].0 != k';
    case Some(p) =>
      var q := if p < i then p else p - 1;
      assert e[q] == d[p];
      GetItem(e, q);
  }

  /** Every item after `d[k] = v` is the new item or one of `d`. */
  lemma SetItems<K, V>(d: Dict<K, V>, k: K, v: V)
    ensures forall x :: x in Set(d, k, v) ==> x == (k, v) || x in d
  {
  }

  /** Every item after `del d[k]` is one of `d`. */
  lemma RemoveItems<K, V>(d: Dict<K, V>, k: K)
    ensures forall x :: x in Remove(d, k) ==> x in d
  {
    match Find(d, k)
    case None =>
    case Some(i) =>
      forall x | x in d[..i] + d[i + 1..]
        ensures x in d
      {
        var j :| 0 <= j < |d[..i] + d[i + 1..]| && (d[..i] + d[i + 1..])[j] == x;
        if j < i {
          assert x == d[j];
        } else {
          assert x == d[j + 1];
        }
      }
  }

  /** Looking up a key other than the last item's ignores the last item. */
  lemma GetButLast<K, V>(d: Dict<K, V>, k: K)
    requires |d| > 0 && d[|d| - 1].0 != k
    ensures Get(d, k) == Get(d[..|d| - 1], k)
  {
    var p := d[..|d| - 1];
    match Find(p, k)
    case None =>
      assert forall j :: 0 <= j < |d| ==> d[j].0 != k by {
        assert forall j :: 0 <= j < |p| ==> p[j] == d[j];
      }
    case Some(i) =>
      assert d[i] == p[i];
  }
}
