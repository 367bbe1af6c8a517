/** Insertion-ordered dictionaries.
    A Python `dict` keeps its keys in the order they were first inserted, and the
    ranking's tie-breaking depends on that order, so every table of the extractor
    is an association sequence whose keys are pairwise distinct. */
module Tables {

  datatype Option<T> = None | Some(value: T)

  type Table<K, V> = seq<(K, V)>

  /** The keys of `t`, in insertion order. */
  function Keys<K, V>(t: Table<K, V>): (ks: seq<K>)
    ensures |ks| == |t|
    ensures forall i | 0 <= i < |t| :: ks[i] == t[i].0
  {
    seq(|t|, i requires 0 <= i < |t| => t[i].0)
  }

  ghost predicate DistinctKeys<K, V>(t: Table<K, V>)
  {
    forall i, j | 0 <= i < j < |t| :: t[i].0 != t[j].0
  }

  /** Position of key `k` in `t` (the dictionary slot that holds it). */
  function IndexOf<K(==), V>(t: Table<K, V>, k: K): (i: nat)
    requires k in Keys(t)
    ensures i < |t| && t[i].0 == k
    ensures forall j | 0 <= j < i :: t[j].0 != k
  {
    if t[0].0 == k then 0 else IndexOf(t[1..], k) + 1
  }

  /** `t[k]` for a key that is present. */
  function Lookup<K(==), V>(t: Table<K, V>, k: K): V
    requires k in Keys(t)
  {
    t[IndexOf(t, k)].1
  }

  lemma LookupAt<K, V>(t: Table<K, V>, i: nat)
    requires DistinctKeys(t) && i < |t|
    ensures t[i].0 in Keys(t) && Lookup(t, t[i].0) == t[i].1
  {
    assert Keys(t)[i] == t[i].0;
  }

  /** `t[k] = v`: an existing key keeps its slot and gets the new value,
      a new key is appended at the end. */
  function Put<K(==), V>(t: Table<K, V>, k: K, v: V): (r: Table<K, V>)
    requires DistinctKeys(t)
    ensures DistinctKeys(r)
    ensures k in Keys(r)
    ensures k in Keys(t) ==> |r| == |t|
    ensures k !in Keys(t) ==> |r| == |t| + 1 && r[|t|] == (k, v)
    ensures forall i | 0 <= i < |t| :: r[i] == if t[i].0 == k then (k, v) else t[i]
  {
    if k in Keys(t) then
      var r := t[IndexOf(t, k) := (k, v)];
      assert Keys(r)[IndexOf(t, k)] == k;
      r
    else
      var r := t + [(k, v)];
      assert Keys(r)[|t|] == k;
      r
  }

  /** Reading a table after `t[k] = v`. */
  lemma PutLookup<K, V>(t: Table<K, V>, k: K, v: V, x: K)
    requires DistinctKeys(t)
    ensures x in Keys(Put(t, k, v)) <==> x == k || x in Keys(t)
    ensures Lookup(Put(t, k, v), k) == v
    ensures x != k && x in Keys(t) ==> Lookup(Put(t, k, v), x) == Lookup(t, x)
  {
    var r := Put(t, k, v);
    if x in Keys(t) {
      var j := IndexOf(t, x);
      assert Keys(r)[j] == r[j].0;
      if x != k {
        LookupAt(r, j);
        LookupAt(t, j);
      }
    }
    if x in Keys(r) && x != k {
      var j := IndexOf(r, x);
      if j < |t| { assert Keys(t)[j] == x; }
    }
    var n := IndexOf(r, k);
    LookupAt(r, n);
  }
}
