/**
 * The enumerator of hashtable.c (ht_enum_t, ht_create_enum, ht_enum_next):
 * a cursor that walks the buckets in index order and each chain from its
 * head, handing out one entry per call.
 */
module Enumeration {
  import opened Wrappers
  import opened Chains
  import opened Buckets
  import opened HashTable

  /**
   * The bucket ht_enum_next moves to when the current chain is used up, or
   * None when the walk is over. The next index is always a real bucket, and
   * the walk only stops after the last bucket.
   */
  function NextBucket(index: nat, size: nat): (r: Option<nat>)
    ensures r.Some? ==> r.value == index + 1 && r.value < size
    ensures r.None? ==> index + 1 >= size
  {
    if index + 1 >= size then None else Some(index + 1)
  }

  /**
   * The same step with the guard hashtable.c writes, `index >= size`:
   * it stops only once index has already run past the last bucket.
   */
  function NextBucketAsWritten(index: nat, size: nat): (r: Option<nat>)
    ensures r.Some? <==> index < size
    ensures r.Some? ==> r.value == index + 1
  {
    if index >= size then None else Some(index + 1)
  }

  /**
   * On the last bucket the guard as written lets the walk go on to index
   * size, one past the end of the bucket array, and reads that slot.
   */
  lemma AsWrittenReadsPastEnd(size: nat)
    requires size > 0
    ensures NextBucketAsWritten(size - 1, size) == Some(size)
    ensures NextBucket(size - 1, size) == None
  {
  }

  /** Leaving a used-up chain for the head of the next one skips no entry. */
  lemma SkipBucket<K, V>(bs: seq<seq<Entry<K, V>>>, i: nat)
    requires i + 1 < |bs|
    ensures bs[i][|bs[i]|..] + Flatten(bs[i + 1..]) == bs[i + 1][0..] + Flatten(bs[i + 2..])
  {
    var later := bs[i + 1..];
    assert later[0] == bs[i + 1] && later[1..] == bs[i + 2..];
    assert bs[i][|bs[i]|..] == [] && bs[i + 1][0..] == bs[i + 1];
  }

  /** Handing out the entry at pos moves it from the front of what is left to the end of what was handed out. */
  lemma TakeEntry<T>(done: seq<T>, chain: seq<T>, pos: nat, tail: seq<T>)
    requires pos < |chain|
    ensures chain[pos..] + tail != []
    ensures (chain[pos..] + tail)[0] == chain[pos]
    ensures (chain[pos..] + tail)[1..] == chain[pos + 1..] + tail
    ensures done + (chain[pos..] + tail) == (done + [chain[pos]]) + (chain[pos + 1..] + tail)
  {
    assert chain[pos..] == [chain[pos]] + chain[pos + 1..];
  }

  /**
   * ht_enum_t: the table, the index of the current bucket and the current
   * node, which is the entry at position pos of that bucket's chain (pos
   * equal to the chain's length stands for a NULL curr).
   */
  class Cursor<K(==,!new), V> {
    const table: Table<K, V>
    /** The buckets as they were when the cursor was created. */
    ghost const snapshot: seq<seq<Entry<K, V>>>
    var index: nat
    var pos: nat
    /** The entries handed out so far, in order. */
    ghost var emitted: seq<Entry<K, V>>

    /** The entries still to come: the rest of the current chain, then the later buckets. */
    ghost function Rest(): seq<Entry<K, V>>
      reads this
      requires index < |snapshot| && pos <= |snapshot[index]|
    {
      snapshot[index][pos..] + Flatten(snapshot[index + 1..])
    }

    /**
     * The buckets are unchanged since the cursor was created, and what was
     * handed out followed by what is left is every entry exactly once.
     */
    ghost predicate Valid()
      reads this, table, table.buckets
    {
      table.size == table.buckets.Length && table.buckets[..] == snapshot &&
      index < |snapshot| && pos <= |snapshot[index]| &&
      emitted + Rest() == Flatten(snapshot)
    }

    /** ht_create_enum: start at the head of bucket 0. */
    constructor(t: Table<K, V>)
      requires t.Valid()
      ensures Valid() && table == t && snapshot == t.buckets[..]
      ensures index == 0 && pos == 0 && emitted == []
      ensures Rest() == Flatten(t.buckets[..])
    {
      table := t;
      snapshot := t.buckets[..];
      index := 0;
      pos := 0;
      emitted := [];
      new;
      assert snapshot[0][0..] == snapshot[0];
    }

    /**
     * ht_enum_next: skip empty chains bucket by bucket, then hand out the
     * current entry and step to its successor. When nothing is left the
     * answer is None, and it stays None on every later call.
     */
    method Next() returns (r: Option<Entry<K, V>>)
      requires Valid()
      modifies this
      ensures Valid()
      ensures old(Rest()) == [] ==> r.None? && emitted == old(emitted) && Rest() == []
      ensures old(Rest()) != [] ==>
        r == Some(old(Rest())[0]) && emitted == old(emitted) + [r.value] && Rest() == old(Rest())[1..]
    {
      while pos == |table.buckets[index]|
        invariant Valid() && emitted == old(emitted) && Rest() == old(Rest())
        decreases |snapshot| - index
      {
        var next := NextBucket(index, table.size);
        if next.None? {
          assert snapshot[index + 1..] == [];
          return None;
        }
        ghost var before := Rest();
        SkipBucket(snapshot, index);
        index := next.value;
        pos := 0;
        assert Rest() == before;
      }
      ghost var before := Rest();
      TakeEntry(emitted, snapshot[index], pos, Flatten(snapshot[index + 1..]));
      r := Some(table.buckets[index][pos]);
      emitted := emitted + [r.value];
      pos := pos + 1;
      assert Rest() == before[1..];
    }

    /**
     * Once the walk is over the cursor has handed out exactly the pairs of
     * the table's map, each once, and no more entries than count says.
     */
    lemma Complete()
      requires Valid() && table.Valid() && Rest() == []
      ensures DistinctKeys(emitted)
      ensures forall k, v :: Entry(k, v) in emitted <==> k in table.contents && table.contents[k] == v
      ensures |emitted| <= table.count
    {
      assert emitted == Flatten(snapshot);
      table.EnumerationMatchesContents();
    }
  }
}
