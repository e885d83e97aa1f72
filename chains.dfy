/**
 * One bucket's chain as a sequence of entries (ht_bucket_t without its
 * `next` link), and what the chain walks of hashtable.c do to it.
 */
module Chains {
  import opened Wrappers

  /** A chain node: the caller's key and value. */
  datatype Entry<K, V> = Entry(key: K, value: V)

  /** A finite map read as a lookup: Some(value) for a present key. */
  function MapGet<K, V>(m: map<K, V>, k: K): Option<V> {
    if k in m then Some(m[k]) else None
  }

  /** The position of the first entry whose key is k, or |c| when there is none. */
  ghost function KeyPos<K, V>(c: seq<Entry<K, V>>, k: K): (j: nat)
    ensures j <= |c|
    ensures forall m :: 0 <= m < j ==> c[m].key != k
    ensures j < |c| ==> c[j].key == k
  {
    if c == [] then 0
    else if c[0].key == k then 0
    else 1 + KeyPos(c[1..], k)
  }

  /** No two entries of the chain have equal keys. */
  ghost predicate DistinctKeys<K, V>(c: seq<Entry<K, V>>) {
    forall i, j :: 0 <= i < j < |c| ==> c[i].key != c[j].key
  }

  /** What the walk of ht_get finds in the chain for k. */
  ghost function Lookup<K, V>(c: seq<Entry<K, V>>, k: K): (r: Option<V>)
    ensures r.Some? ==> Entry(k, r.value) in c
    ensures r.None? ==> forall e :: e in c ==> e.key != k
  {
    var j := KeyPos(c, k);
    if j < |c| then Some(c[j].value) else None
  }

  /**
   * The chain after _ht_insert_bucket: the first entry with e's key takes
   * e's value (and keeps its own key), otherwise e is linked at the tail.
   */
  ghost function ChainInsert<K, V>(c: seq<Entry<K, V>>, e: Entry<K, V>): (r: seq<Entry<K, V>>)
    ensures e in r
    ensures |r| == |c| || r == c + [e]
  {
    var j := KeyPos(c, e.key);
    if j < |c| then
      var r := c[j := Entry(c[j].key, e.value)];
      assert r[j] == e;
      r
    else
      c + [e]
  }

  /** The chain after ht_delete unlinks the first entry whose key is k, if any. */
  ghost function ChainRemove<K, V>(c: seq<Entry<K, V>>, k: K): (r: seq<Entry<K, V>>)
    ensures forall x :: x in r ==> x in c
    ensures r == c || |r| + 1 == |c|
  {
    var j := KeyPos(c, k);
    if j < |c| then c[..j] + c[j + 1..] else c
  }

  /** KeyPos is the only position that is the first match (or the end). */
  lemma KeyPosUnique<K, V>(c: seq<Entry<K, V>>, k: K, j: nat)
    requires j <= |c|
    requires forall m :: 0 <= m < j ==> c[m].key != k
    requires j < |c| ==> c[j].key == k
    ensures KeyPos(c, k) == j
  {
  }

  /** In a chain with distinct keys, Lookup finds exactly the stored pairs. */
  lemma LookupIffIn<K, V>(c: seq<Entry<K, V>>, k: K, v: V)
    requires DistinctKeys(c)
    ensures Lookup(c, k) == Some(v) <==> Entry(k, v) in c
  {
    var p := KeyPos(c, k);
    if Entry(k, v) in c {
      var j :| 0 <= j < |c| && c[j] == Entry(k, v);
      assert p == j;
    }
    if p < |c| {
      assert c[p] == Entry(k, c[p].value);
    }
  }

  /**
   * Insert into a chain: afterwards k maps to e's value when it is e's key
   * and to what it mapped to before otherwise. An existing key is
   * overwritten in place (same length, same keys in the same order); a new
   * key is appended at the tail. Distinct keys stay distinct.
   */
  lemma LookupInsert<K, V>(c: seq<Entry<K, V>>, e: Entry<K, V>, k: K)
    ensures Lookup(ChainInsert(c, e), k) == if k == e.key then Some(e.value) else Lookup(c, k)
    ensures Lookup(c, e.key).Some? ==>
      |ChainInsert(c, e)| == |c| &&
      forall m :: 0 <= m < |c| ==> ChainInsert(c, e)[m].key == c[m].key
    ensures Lookup(c, e.key).None? ==> ChainInsert(c, e) == c + [e]
    ensures DistinctKeys(c) ==> DistinctKeys(ChainInsert(c, e))
  {
    var c' := ChainInsert(c, e);
    var j := KeyPos(c, e.key);
    var p := KeyPos(c, k);
    if j < |c| {
      assert forall m :: 0 <= m < |c| ==> c'[m].key == c[m].key;
      KeyPosUnique(c', k, p);
    } else if k == e.key {
      KeyPosUnique(c', k, |c|);
    } else {
      KeyPosUnique(c', k, if p < |c| then p else |c| + 1);
    }
  }

  /**
   * The shape of a removal: when k0 is present its entry is cut out and
   * every later entry moves down one place; otherwise nothing changes.
   */
  lemma RemoveShifts<K, V>(c: seq<Entry<K, V>>, k0: K)
    ensures var j := KeyPos(c, k0);
      j < |c| ==> forall m :: 0 <= m < |ChainRemove(c, k0)| ==>
        ChainRemove(c, k0)[m] == c[if m < j then m else m + 1]
  {
  }

  /** A removal drops exactly one entry of c when k0 is present, and none otherwise. */
  lemma RemoveCount<K, V>(c: seq<Entry<K, V>>, k0: K)
    ensures |ChainRemove(c, k0)| == if Lookup(c, k0).Some? then |c| - 1 else |c|
    ensures multiset(ChainRemove(c, k0)) <= multiset(c)
  {
    var j := KeyPos(c, k0);
    if j < |c| {
      assert c == c[..j] + [c[j]] + c[j + 1..];
      assert multiset(c) == multiset(c[..j]) + multiset{c[j]} + multiset(c[j + 1..]);
    }
  }

  /** Cutting one entry out of a chain with distinct keys leaves the keys distinct. */
  lemma RemoveDistinct<K, V>(c: seq<Entry<K, V>>, k0: K)
    requires DistinctKeys(c)
    ensures DistinctKeys(ChainRemove(c, k0))
  {
    var j := KeyPos(c, k0);
    var c' := ChainRemove(c, k0);
    if j < |c| {
      RemoveShifts(c, k0);
      forall a, b | 0 <= a < b < |c'|
        ensures c'[a].key != c'[b].key
      {
        assert c'[a] == c[if a < j then a else a + 1];
        assert c'[b] == c[if b < j then b else b + 1];
      }
    }
  }

  /**
   * Remove from a chain with distinct keys: afterwards k0 is absent and
   * every other key maps to what it mapped to before; the entries left are
   * those of c in their order, with one fewer exactly when k0 was present.
   */
  lemma LookupRemove<K, V>(c: seq<Entry<K, V>>, k0: K, k: K)
    requires DistinctKeys(c)
    ensures Lookup(ChainRemove(c, k0), k) == if k == k0 then None else Lookup(c, k)
    ensures |ChainRemove(c, k0)| == if Lookup(c, k0).Some? then |c| - 1 else |c|
    ensures multiset(ChainRemove(c, k0)) <= multiset(c)
    ensures DistinctKeys(ChainRemove(c, k0))
  {
    RemoveShifts(c, k0);
    RemoveCount(c, k0);
    RemoveDistinct(c, k0);
    var j := KeyPos(c, k0);
    var c' := ChainRemove(c, k0);
    if j < |c| {
      var p := KeyPos(c, k);
      if k == k0 {
        KeyPosUnique(c', k, |c'|);
      } else if p < j {
        KeyPosUnique(c', k, p);
      } else if p < |c| {
        KeyPosUnique(c', k, p - 1);
      } else {
        KeyPosUnique(c', k, |c'|);
      }
    }
  }
}
