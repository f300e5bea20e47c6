/**
 * An insertion-ordered map (the `indexmap` crate's `IndexMap`) as a
 * sequence of key/value pairs. `insert` on a present key replaces the
 * value where it stands; on a new key it appends. `extend` inserts the
 * pairs of another map one by one.
 */
module IndexMaps {
  import opened Wrappers

  type IndexMap<K, V> = seq<(K, V)>

  function Keys<K, V>(m: IndexMap<K, V>): (ks: seq<K>)
    ensures |ks| == |m| && forall i :: 0 <= i < |m| ==> ks[i] == m[i].0
  {
    seq(|m|, i requires 0 <= i < |m| => m[i].0)
  }

  predicate UniqueKeys<K(==), V>(m: IndexMap<K, V>) {
    forall i, j :: 0 <= i < j < |m| ==> m[i].0 != m[j].0
  }

  /** The position of `k`, the first one when keys repeat. */
  function IndexOf<K(==), V>(m: IndexMap<K, V>, k: K): (r: Option<nat>)
    ensures r.Some? ==> r.value < |m| && m[r.value].0 == k &&
                        forall j :: 0 <= j < r.value ==> m[j].0 != k
    ensures r.None? <==> forall j :: 0 <= j < |m| ==> m[j].0 != k
    decreases |m|
  {
    if m == [] then None
    else if m[0].0 == k then Some(0)
    else match IndexOf(m[1..], k)
      case None => None
      case Some(i) => Some(i + 1)
  }

  predicate HasKey<K(==), V>(m: IndexMap<K, V>, k: K) {
    IndexOf(m, k).Some?
  }

  /** The value of the first pair with key `k`, if any. */
  function Get<K(==), V>(m: IndexMap<K, V>, k: K): (r: Option<V>)
    ensures r.Some? <==> HasKey(m, k)
    ensures r.Some? ==> r.value == m[IndexOf(m, k).value].1
  {
    match IndexOf(m, k)
    case None => None
    case Some(i) => Some(m[i].1)
  }

  /** `IndexMap::insert`: replace in place, or append a new pair. */
  function Insert<K(==), V>(m: IndexMap<K, V>, k: K, v: V): (r: IndexMap<K, V>)
    ensures HasKey(m, k) ==> |r| == |m|
    ensures !HasKey(m, k) ==> |r| == |m| + 1
  {
    match IndexOf(m, k)
    case None => m + [(k, v)]
    case Some(i) => m[i := (k, v)]
  }

  /** `Extend::extend`: insert every pair of `other`, in its order. */
  function Extend<K(==), V>(m: IndexMap<K, V>, other: IndexMap<K, V>): IndexMap<K, V>
    decreases |other|
  {
    if other == [] then m else Extend(Insert(m, other[0].0, other[0].1), other[1..])
  }

  /** On a map with unique keys, the pair at any position is found by its key. */
  lemma GetAt<K, V>(m: IndexMap<K, V>, i: nat)
    requires UniqueKeys(m) && i < |m|
    ensures IndexOf(m, m[i].0) == Some(i)
    ensures Get(m, m[i].0) == Some(m[i].1)
  {
  }

  /** Inserting keeps keys unique. */
  lemma InsertUnique<K, V>(m: IndexMap<K, V>, k: K, v: V)
    requires UniqueKeys(m)
    ensures UniqueKeys(Insert(m, k, v))
  {
  }

  /** Reading after `insert`: the inserted key has the new value, every other key is untouched. */
  lemma GetInsert<K, V>(m: IndexMap<K, V>, k: K, v: V, k2: K)
    requires UniqueKeys(m)
    ensures Get(Insert(m, k, v), k2) == if k2 == k then Some(v) else Get(m, k2)
  {
    InsertUnique(m, k, v);
    var r := Insert(m, k, v);
    match IndexOf(m, k2)
    case None =>
      if k2 == k {
        GetAt(r, |m|);
      } else {
        assert IndexOf(r, k2).None?;
      }
    case Some(i) =>
      GetAt(r, i);
  }

  /** The key order after `insert`: unchanged for a present key, the new key last otherwise. */
  lemma KeysInsert<K, V>(m: IndexMap<K, V>, k: K, v: V)
    ensures Keys(Insert(m, k, v)) == if HasKey(m, k) then Keys(m) else Keys(m) + [k]
  {
  }

  /** Extending keeps keys unique. */
  lemma {:induction false} ExtendUnique<K, V>(m: IndexMap<K, V>, other: IndexMap<K, V>)
    requires UniqueKeys(m)
    ensures UniqueKeys(Extend(m, other))
    decreases |other|
  {
    if other != [] {
      InsertUnique(m, other[0].0, other[0].1);
      ExtendUnique(Insert(m, other[0].0, other[0].1), other[1..]);
    }
  }

  /**
   * Reading after `extend` from a map with unique keys: a key of `other`
   * has its value there, any other key keeps the value it had.
   */
  lemma {:induction false} GetExtend<K, V>(m: IndexMap<K, V>, other: IndexMap<K, V>, k: K)
    requires UniqueKeys(m) && UniqueKeys(other)
    ensures Get(Extend(m, other), k) == if HasKey(other, k) then Get(other, k) else Get(m, k)
    decreases |other|
  {
    if other != [] {
      var m1 := Insert(m, other[0].0, other[0].1);
      InsertUnique(m, other[0].0, other[0].1);
      GetCons(other, k);
      GetExtend(m1, other[1..], k);
      GetInsert(m, other[0].0, other[0].1, k);
    }
  }

  /** Reading from a map with unique keys: its first pair, or the rest, which lacks the first key. */
  lemma GetCons<K, V>(m: IndexMap<K, V>, k: K)
    requires UniqueKeys(m) && m != []
    ensures UniqueKeys(m[1..])
    ensures k == m[0].0 ==> Get(m, k) == Some(m[0].1) && !HasKey(m[1..], k)
    ensures k != m[0].0 ==> Get(m, k) == Get(m[1..], k) && (HasKey(m, k) <==> HasKey(m[1..], k))
  {
    assert forall i, j :: 0 <= i < j < |m| - 1 ==> m[1..][i].0 == m[i + 1].0 && m[1..][j].0 == m[j + 1].0;
  }

  /** After `extend`, the old keys keep their order and the new keys of `other` follow in theirs. */
  lemma {:induction false} KeysExtendPrefix<K, V>(m: IndexMap<K, V>, other: IndexMap<K, V>)
    ensures |Extend(m, other)| >= |m|
    ensures Keys(Extend(m, other))[..|m|] == Keys(m)
    decreases |other|
  {
    if other != [] {
      var m1 := Insert(m, other[0].0, other[0].1);
      KeysInsert(m, other[0].0, other[0].1);
      KeysExtendPrefix(m1, other[1..]);
      assert Keys(m1)[..|m|] == Keys(m);
    }
  }

  /** Every value of `m` satisfies `p`. */
  predicate AllValues<K, V>(m: IndexMap<K, V>, p: V -> bool) {
    forall i :: 0 <= i < |m| ==> p(m[i].1)
  }

  /** Inserting a value that satisfies `p` into a map whose values all do keeps that so. */
  lemma InsertAllValues<K, V>(m: IndexMap<K, V>, k: K, v: V, p: V -> bool)
    requires AllValues(m, p) && p(v)
    ensures AllValues(Insert(m, k, v), p)
  {
  }

  /** Extending keeps a property that every value of both maps has. */
  lemma {:induction false} ExtendAllValues<K, V>(m: IndexMap<K, V>, other: IndexMap<K, V>, p: V -> bool)
    requires AllValues(m, p) && AllValues(other, p)
    ensures AllValues(Extend(m, other), p)
    decreases |other|
  {
    if other != [] {
      InsertAllValues(m, other[0].0, other[0].1, p);
      ExtendAllValues(Insert(m, other[0].0, other[0].1), other[1..], p);
    }
  }
}
