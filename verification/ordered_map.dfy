/**
 * The observable semantics of an insertion-ordered map (Immutable.js
 * `OrderedMap`): a sequence of key/value pairs whose keys are distinct.
 * Setting an existing key replaces its value where it stands; setting a
 * new key appends the pair at the end. Building a map from a list of
 * pairs sets them one after the other.
 */
module OrderedMaps {
  import opened Wrappers

  predicate DistinctKeys<K(==), V>(m: seq<(K, V)>) {
    forall i, j :: 0 <= i < j < |m| ==> m[i].0 != m[j].0
  }

  type OrderedMap<K(==), V> = m: seq<(K, V)> | DistinctKeys(m) witness []

  /** The keys of `m`, in order. */
  function Keys<K, V>(m: seq<(K, V)>): seq<K> {
    seq(|m|, i requires 0 <= i < |m| => m[i].0)
  }

  predicate HasKey<K(==), V>(m: seq<(K, V)>, k: K) {
    exists i :: 0 <= i < |m| && m[i].0 == k
  }

  /** Position of the first pair whose key is `k`, if any. */
  function Find<K(==), V>(m: seq<(K, V)>, k: K): (r: Option<nat>)
    ensures r.None? <==> !HasKey(m, k)
    ensures r.Some? ==> r.value < |m| && m[r.value].0 == k
    ensures r.Some? ==> forall j :: 0 <= j < r.value ==> m[j].0 != k
  {
    if m == [] then None
    else if m[0].0 == k then Some(0)
    else
      match Find(m[1..], k)
      case None =>
        assert forall i :: 1 <= i < |m| ==> m[i] == m[1..][i - 1];
        None
      case Some(i) =>
        assert m[i + 1] == m[1..][i];
        Some(i + 1)
  }

  /** Position of the first occurrence of `k`, or `|m|` when there is none. */
  function FirstIndex<K(==), V>(m: seq<(K, V)>, k: K): nat {
    match Find(m, k)
    case Some(i) => i
    case None => |m|
  }

  /** `map.get(k)`: the value stored under `k`, or `None`. */
  function Get<K(==), V>(m: seq<(K, V)>, k: K): (r: Option<V>)
    ensures r.Some? <==> HasKey(m, k)
    ensures r.Some? ==> exists i :: 0 <= i < |m| && m[i] == (k, r.value)
    ensures DistinctKeys(m) ==>
      forall i :: 0 <= i < |m| && m[i].0 == k ==> r == Some(m[i].1)
  {
    match Find(m, k)
    case None => None
    case Some(i) => Some(m[i].1)
  }

  /** `map.set(k, v)`: replace in place when `k` is present, else append. */
  function Set<K(==, !new), V>(m: OrderedMap<K, V>, k: K, v: V): (r: OrderedMap<K, V>)
    ensures Get(r, k) == Some(v)
    ensures forall k' :: k' != k ==> Get(r, k') == Get(m, k')
    ensures HasKey(m, k) ==> Keys(r) == Keys(m)
    ensures !HasKey(m, k) ==> Keys(r) == Keys(m) + [k]
    ensures forall i :: 0 <= i < |r| ==> r[i] in m || r[i] == (k, v)
  {
    match Find(m, k)
    case Some(i) =>
      UpdateLookup(m, i, v);
      m[i := (k, v)]
    case None =>
      AppendLookup(m, k, v);
      m + [(k, v)]
  }

  /** Lookups after overwriting the pair at position `i` with a new value for its key. */
  lemma UpdateLookup<K, V>(m: OrderedMap<K, V>, i: nat, v: V)
    requires i < |m|
    ensures DistinctKeys(m[i := (m[i].0, v)])
    ensures Get(m[i := (m[i].0, v)], m[i].0) == Some(v)
    ensures forall k' :: k' != m[i].0 ==> Get(m[i := (m[i].0, v)], k') == Get(m, k')
  {
    var k := m[i].0;
    var r := m[i := (k, v)];
    assert forall j :: 0 <= j < |m| ==> r[j].0 == m[j].0;
    forall k' | k' != k
      ensures Get(r, k') == Get(m, k')
    {
      if HasKey(m, k') {
        var j :| 0 <= j < |m| && m[j].0 == k';
        assert r[j] == m[j];
      } else {
        assert !HasKey(r, k');
      }
    }
  }

  /** Lookups after appending a pair whose key is new. */
  lemma AppendLookup<K, V>(m: OrderedMap<K, V>, k: K, v: V)
    requires !HasKey(m, k)
    ensures DistinctKeys(m + [(k, v)])
    ensures Get(m + [(k, v)], k) == Some(v)
    ensures forall k' :: k' != k ==> Get(m + [(k, v)], k') == Get(m, k')
  {
    var r := m + [(k, v)];
    assert forall j :: 0 <= j < |m| ==> r[j] == m[j];
    assert r[|m|] == (k, v);
    forall k' | k' != k
      ensures Get(r, k') == Get(m, k')
    {
      if HasKey(m, k') {
        var j :| 0 <= j < |m| && m[j].0 == k';
        assert r[j] == m[j];
      } else {
        assert !HasKey(r, k');
      }
    }
  }

  /** `OrderedMap(pairs)`: the pairs set one after the other, from the empty map. */
  function FromPairs<K(==, !new), V>(ps: seq<(K, V)>): (r: OrderedMap<K, V>)
    ensures forall i :: 0 <= i < |r| ==> r[i] in ps
  {
    if ps == [] then []
    else
      var init, last := ps[..|ps| - 1], ps[|ps| - 1];
      assert forall p :: p in init ==> p in ps;
      Set(FromPairs(init), last.0, last.1)
  }

  /** Keys of `r` appear in the order of their first occurrence in `ps`. */
  ghost predicate OrderedByFirstOccurrence<K, V>(r: seq<(K, V)>, ps: seq<(K, V)>) {
    forall i, j :: 0 <= i < j < |r| ==> FirstIndex(ps, r[i].0) < FirstIndex(ps, r[j].0)
  }

  lemma HasKeyAppend<K, V>(ps: seq<(K, V)>, p: (K, V), k: K)
    ensures HasKey(ps + [p], k) <==> HasKey(ps, k) || p.0 == k
  {
    var qs := ps + [p];
    if HasKey(ps, k) {
      var i :| 0 <= i < |ps| && ps[i].0 == k;
      assert qs[i] == ps[i];
    }
    if p.0 == k {
      assert qs[|ps|] == p;
    }
    if HasKey(qs, k) {
      var i :| 0 <= i < |qs| && qs[i].0 == k;
      if i < |ps| { assert ps[i] == qs[i]; }
    }
  }

  /** Appending a pair does not move the first occurrence of a key already present. */
  lemma FirstIndexAppend<K, V>(ps: seq<(K, V)>, p: (K, V), k: K)
    ensures HasKey(ps, k) ==> FirstIndex(ps + [p], k) == FirstIndex(ps, k)
    ensures !HasKey(ps, k) && p.0 == k ==> FirstIndex(ps + [p], k) == |ps|
  {
    var qs := ps + [p];
    HasKeyAppend(ps, p, k);
    assert forall j :: 0 <= j < |ps| ==> qs[j] == ps[j];
    assert qs[|ps|] == p;
  }

  /** The keys of `OrderedMap(pairs)` are exactly the keys occurring in `pairs`. */
  lemma {:induction false} FromPairsHasKey<K(!new), V>(ps: seq<(K, V)>, k: K)
    ensures HasKey(FromPairs(ps), k) <==> HasKey(ps, k)
  {
    if ps != [] {
      var init, last := ps[..|ps| - 1], ps[|ps| - 1];
      assert ps == init + [last];
      FromPairsHasKey(init, k);
      HasKeyAppend(init, last, k);
      var r := FromPairs(ps);
      if k != last.0 {
        assert Get(r, k) == Get(FromPairs(init), k);
      }
    }
  }

  /** Keys of `OrderedMap(pairs)` are ordered by their first occurrence in `pairs`. */
  lemma {:induction false} FromPairsOrder<K(!new), V>(ps: seq<(K, V)>)
    ensures OrderedByFirstOccurrence(FromPairs(ps), ps)
  {
    if ps != [] {
      var init, last := ps[..|ps| - 1], ps[|ps| - 1];
      assert ps == init + [last];
      var r0 := FromPairs(init);
      FromPairsOrder(init);
      forall i | 0 <= i < |r0|
        ensures FirstIndex(ps, r0[i].0) == FirstIndex(init, r0[i].0) < |init|
      {
        assert HasKey(r0, r0[i].0);
        FromPairsHasKey(init, r0[i].0);
        FirstIndexAppend(init, last, r0[i].0);
      }
      FromPairsHasKey(init, last.0);
      if !HasKey(r0, last.0) {
        FirstIndexAppend(init, last, last.0);
      }
      SetOrder(r0, init, last);
    }
  }

  /** The induction step of `FromPairsOrder`: setting the last pair keeps the order. */
  lemma SetOrder<K(!new), V>(r0: OrderedMap<K, V>, init: seq<(K, V)>, last: (K, V))
    requires OrderedByFirstOccurrence(r0, init)
    requires forall i :: 0 <= i < |r0| ==>
      FirstIndex(init + [last], r0[i].0) == FirstIndex(init, r0[i].0) < |init|
    requires !HasKey(r0, last.0) ==> FirstIndex(init + [last], last.0) == |init|
    ensures OrderedByFirstOccurrence(Set(r0, last.0, last.1), init + [last])
  {
  }

  /** In `OrderedMap(pairs)` each key holds the value of its last occurrence in `pairs`. */
  lemma {:induction false} FromPairsLastWins<K(!new), V>(ps: seq<(K, V)>, i: nat)
    requires i < |ps|
    requires forall j :: i < j < |ps| ==> ps[j].0 != ps[i].0
    ensures Get(FromPairs(ps), ps[i].0) == Some(ps[i].1)
  {
    var init, last := ps[..|ps| - 1], ps[|ps| - 1];
    if i < |ps| - 1 {
      FromPairsLastWins(init, i);
    }
  }
}
