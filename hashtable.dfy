/**
 * The table of hashtable.c: hash_table_t as a class whose buckets array,
 * size and count the operations update in place, with the key-to-value map
 * it stands for kept as a ghost field.
 */
module HashTable {
  import opened Wrappers
  import opened Bits
  import opened Policy
  import opened Chains
  import opened Buckets

  /**
   * What _ht_resize does to a table of size oldSize and count oldCount
   * holding the chains prev, giving size, count and the chains now: when
   * the policy says no, nothing changes; otherwise the size is the new one,
   * the entries are the same (as a multiset) and count is their number.
   */
  ghost predicate Resized<K, V>(oldSize: nat, oldCount: nat, prev: seq<seq<Entry<K, V>>>,
                                size: nat, count: nat, now: seq<seq<Entry<K, V>>>)
  {
    if NextSize(oldSize, oldCount).None? then
      size == oldSize && count == oldCount && now == prev
    else
      size == NextSize(oldSize, oldCount).value && count == |Flatten(now)| &&
      multiset(Flatten(now)) == multiset(Flatten(prev))
  }

  /**
   * hash_table_t. The key equality predicate is equality on K; the hash
   * function and the seed are fixed at creation. Each element of `buckets`
   * is one chain, read from its head along the `next` links.
   */
  class Table<K(==,!new), V> {
    const hash: Hash<K>
    const seed: Int32
    var buckets: array<seq<Entry<K, V>>>
    var size: nat
    var count: nat
    /** The map the table stands for. */
    ghost var contents: map<K, V>

    /** size is the number of buckets, a power of two in [8, 2^31]; every entry sits in its own bucket. */
    ghost predicate Layout()
      reads this, buckets
    {
      buckets.Length == size && ValidSize(size) && Placed(buckets[..], hash, seed)
    }

    /** The layout holds, the chains stand for `contents`, and count bounds the number of entries. */
    ghost predicate WellFormed()
      reads this, buckets
    {
      Layout() && Represents(buckets[..], hash, seed, contents) && |Flatten(buckets[..])| <= count
    }

    /** The class invariant: well-formed, and below the maximum size count stays under the grow threshold. */
    ghost predicate Valid()
      reads this, buckets
    {
      WellFormed() && (size < MAX_SIZE ==> count < GrowAt(size))
    }

    /** ht_create: eight empty buckets, count zero. */
    constructor(hash: Hash<K>, seed: Int32)
      ensures Valid() && fresh(buckets)
      ensures this.hash == hash && this.seed == seed
      ensures size == DEFAULT_SIZE && count == 0 && contents == map[]
      ensures forall i :: 0 <= i < buckets.Length ==> buckets[i] == []
    {
      this.hash := hash;
      this.seed := seed;
      size := DEFAULT_SIZE;
      count := 0;
      contents := map[];
      var a := new seq<Entry<K, V>>[DEFAULT_SIZE](_ => []);
      buckets := a;
      new;
      assert IsPow2(DEFAULT_SIZE);
      EmptyPlaced(a[..], hash, seed);
    }

    /**
     * _ht_index: the hash masked with size - 1 after conversion to
     * unsigned. For a power-of-two size that is the hash modulo size, so the
     * index is in range even for a negative hash.
     */
    function Index(key: K): (r: nat)
      reads this
      requires IsPow2(size) && size <= UINT_RANGE
      ensures r < size && r == Home(hash, seed, key, size)
    {
      var h := hash(key, seed);
      MaskIsMod(ToUnsigned(h), size);
      UnsignedModPow2(h, size);
      BitAnd(ToUnsigned(h), size - 1)
    }

    /**
     * _ht_insert_bucket: walk e's chain; an entry with e's key takes e's
     * value, otherwise e is linked at the tail. count goes up by one either way.
     */
    method InsertEntry(e: Entry<K, V>)
      requires Layout()
      modifies this`count, buckets
      ensures Layout() && buckets == old(buckets)
      ensures buckets[..] == InsertAt(old(buckets[..]), hash, seed, e)
      ensures count == old(count) + 1
    {
      var index := Index(e.key);
      var chain := buckets[index];
      if chain == [] {
        buckets[index] := [e];
      } else {
        var j := 0;
        while j < |chain| && chain[j].key != e.key
          invariant j <= |chain|
          invariant forall m :: 0 <= m < j ==> chain[m].key != e.key
        {
          j := j + 1;
        }
        KeyPosUnique(chain, e.key, j);
        if j < |chain| {
          buckets[index] := chain[j := Entry(chain[j].key, e.value)];
        } else {
          buckets[index] := chain + [e];
        }
      }
      assert buckets[index] == ChainInsert(chain, e);
      assert buckets[..] == old(buckets[..])[index := ChainInsert(chain, e)];
      count := count + 1;
      InsertPlaced(old(buckets[..]), hash, seed, e);
    }

    /**
     * _ht_resize: if the policy says so, switch to a fresh array of the new
     * size and relink every entry of the old array into it, chain by chain,
     * through _ht_insert_bucket, with count restarting from zero.
     */
    method Resize()
      requires WellFormed() && (size < MAX_SIZE ==> count <= GrowAt(size))
      modifies this
      ensures Valid() && contents == old(contents)
      ensures Resized(old(size), old(count), old(buckets[..]), size, count, buckets[..])
      ensures if NextSize(old(size), old(count)).None? then buckets == old(buckets) else fresh(buckets)
    {
      ghost var entries := |Flatten(buckets[..])|;
      LoadBoundKept(size, count, entries);
      var newSize: nat;
      if count >= GrowAt(size) {
        if size >= INT_MAX {
          return;
        }
        newSize := size * 2;
      } else if count <= ShrinkAt(size) {
        var half := size / 2;
        if half < DEFAULT_SIZE {
          return;
        }
        newSize := half;
      } else {
        return;
      }
      NextSizeValid(size, count);
      ghost var prev := buckets[..];
      Rehash(newSize);
      assert |multiset(Flatten(buckets[..]))| == |multiset(Flatten(prev))|;
    }

    /**
     * The rehash of _ht_resize once the new size is chosen: a fresh array of
     * empty chains replaces the old one, count restarts from zero, and every
     * old chain is relinked in index order. Afterwards the table holds the
     * same entries and stands for the same map, and count is their number.
     */
    method Rehash(newSize: nat)
      requires WellFormed() && ValidSize(newSize)
      modifies this
      ensures Layout() && Represents(buckets[..], hash, seed, contents) && contents == old(contents)
      ensures size == newSize && fresh(buckets)
      ensures count == |Flatten(buckets[..])|
      ensures multiset(Flatten(buckets[..])) == multiset(Flatten(old(buckets[..])))
    {
      var oldSize := size;
      var oldBuckets := buckets;
      ghost var prev := buckets[..];
      var nb := new seq<Entry<K, V>>[newSize](_ => []);
      buckets := nb;
      size := newSize;
      count := 0;
      EmptyPlaced(nb[..], hash, seed);
      for i := 0 to oldSize
        invariant buckets == nb && size == newSize && oldBuckets[..] == prev && contents == old(contents)
        invariant Layout()
        invariant multiset(Flatten(nb[..])) == multiset(Flatten(prev[..i]))
        invariant count == |Flatten(prev[..i])|
      {
        RelinkChain(oldBuckets[i], prev, i);
      }
      assert prev[..oldSize] == prev;
      SameEntriesRepresent(prev, nb[..], hash, seed, contents);
    }

    /**
     * The inner loop of _ht_resize: the entries of old chain i, detached one
     * by one in chain order, each go through _ht_insert_bucket into the new
     * array. Each has a key the new array does not hold yet, so each adds
     * one entry.
     */
    method RelinkChain(chain: seq<Entry<K, V>>, ghost prev: seq<seq<Entry<K, V>>>, ghost i: nat)
      requires Layout() && Placed(prev, hash, seed) && i < |prev| && chain == prev[i]
      requires multiset(Flatten(buckets[..])) == multiset(Flatten(prev[..i]))
      requires count == |Flatten(prev[..i])|
      modifies this`count, buckets
      ensures Layout() && buckets == old(buckets)
      ensures multiset(Flatten(buckets[..])) == multiset(Flatten(prev[..i + 1]))
      ensures count == |Flatten(prev[..i + 1])|
    {
      var j := 0;
      while j < |chain|
        invariant j <= |chain| && buckets == old(buckets)
        invariant Layout()
        invariant multiset(Flatten(buckets[..])) == multiset(Flatten(prev[..i]) + chain[..j])
        invariant count == |Flatten(prev[..i])| + j
      {
        RelinkStep(prev, buckets[..], hash, seed, i, j);
        InsertEntry(chain[j]);
        j := j + 1;
      }
      assert chain[..j] == prev[i];
      FlattenPrefix(prev, i);
    }

    /**
     * ht_insert: insert the entry, then run the resize policy on the
     * incremented count. Afterwards key maps to value and every other key is
     * unchanged.
     */
    method Insert(key: K, value: V)
      requires Valid()
      modifies this, buckets
      ensures Valid() && contents == old(contents)[key := value]
      ensures Resized(old(size), old(count) + 1, InsertAt(old(buckets[..]), hash, seed, Entry(key, value)),
                      size, count, buckets[..])
      ensures if NextSize(old(size), old(count) + 1).None? then buckets == old(buckets) else fresh(buckets)
    {
      AddKey(key, value);
      assert size == old(size) && count == old(count) + 1 && buckets == old(buckets);
      assert buckets[..] == InsertAt(old(buckets[..]), hash, seed, Entry(key, value));
      Resize();
    }

    /** ht_insert up to its resize call: the bucket insert, after which key maps to value. */
    method AddKey(key: K, value: V)
      requires Valid()
      modifies this`count, this`contents, buckets
      ensures WellFormed() && contents == old(contents)[key := value]
      ensures buckets == old(buckets) && buckets[..] == InsertAt(old(buckets[..]), hash, seed, Entry(key, value))
      ensures count == old(count) + 1
      ensures size < MAX_SIZE ==> count <= GrowAt(size)
    {
      ghost var bs := buckets[..];
      InsertRepresents(bs, hash, seed, contents, Entry(key, value));
      InsertEntry(Entry(key, value));
      contents := contents[key := value];
    }

    /**
     * ht_get: walk the key's chain to the first entry with that key.
     * The answer is the value the map holds for key, or None.
     */
    method Get(key: K) returns (r: Option<V>)
      requires Valid()
      ensures r == MapGet(contents, key)
    {
      var chain := buckets[Index(key)];
      var j := 0;
      while j < |chain| && chain[j].key != key
        invariant j <= |chain|
        invariant forall m :: 0 <= m < j ==> chain[m].key != key
      {
        j := j + 1;
      }
      KeyPosUnique(chain, key, j);
      if j == |chain| {
        r := None;
      } else {
        r := Some(chain[j].value);
      }
      assert Agrees(buckets[..], hash, seed, contents, key);
    }

    /**
     * ht_delete: unlink the first entry of key's chain with that key, at the
     * head, in the middle or at the tail. An empty chain returns at once; a
     * non-empty chain runs the resize policy whether or not the key was found,
     * on a count lowered by one exactly when an entry was unlinked.
     */
    method Delete(key: K)
      requires Valid()
      modifies this, buckets
      ensures Valid() && contents == old(contents) - {key}
      ensures key in old(contents) ==> old(count) >= 1
      ensures old(buckets[Home(hash, seed, key, size)]) == [] ==>
        size == old(size) && count == old(count) && buckets == old(buckets) && buckets[..] == old(buckets[..])
      ensures old(buckets[Home(hash, seed, key, size)]) != [] ==>
        var c := old(count) - (if key in old(contents) then 1 else 0);
        Resized(old(size), c, RemoveAt(old(buckets[..]), hash, seed, key), size, count, buckets[..]) &&
        if NextSize(old(size), c).None? then buckets == old(buckets) else fresh(buckets)
    {
      var index := Index(key);
      if buckets[index] == [] {
        assert Agrees(buckets[..], hash, seed, contents, key);
        assert contents - {key} == contents;
        return;
      }
      RemoveAndResize(index, key);
    }

    /** ht_delete on a non-empty chain: the surgery, then the resize check. */
    method RemoveAndResize(index: nat, key: K)
      requires Valid() && index == Home(hash, seed, key, size) && buckets[index] != []
      modifies this, buckets
      ensures Valid() && contents == old(contents) - {key}
      ensures key in old(contents) ==> old(count) >= 1
      ensures var c := old(count) - (if key in old(contents) then 1 else 0);
        Resized(old(size), c, RemoveAt(old(buckets[..]), hash, seed, key), size, count, buckets[..]) &&
        if NextSize(old(size), c).None? then buckets == old(buckets) else fresh(buckets)
    {
      ghost var c := count - (if key in contents then 1 else 0);
      RemoveKey(index, key);
      assert count == c && size == old(size) && buckets == old(buckets);
      assert buckets[..] == RemoveAt(old(buckets[..]), hash, seed, key);
      Resize();
    }

    /**
     * ht_delete up to its resize call on a non-empty chain: the chain
     * surgery, after which the map no longer holds key.
     */
    method RemoveKey(index: nat, key: K)
      requires Valid() && index == Home(hash, seed, key, size) && buckets[index] != []
      modifies this`count, this`contents, buckets
      ensures WellFormed() && contents == old(contents) - {key}
      ensures buckets == old(buckets) && buckets[..] == RemoveAt(old(buckets[..]), hash, seed, key)
      ensures key in old(contents) ==> old(count) >= 1
      ensures count == old(count) - (if key in old(contents) then 1 else 0)
      ensures size < MAX_SIZE ==> count <= GrowAt(size)
    {
      ghost var bs := buckets[..];
      RemoveRepresents(bs, hash, seed, contents, key);
      assert Agrees(bs, hash, seed, contents, key);
      Unlink(index, key);
      contents := contents - {key};
    }

    /**
     * The chain surgery of ht_delete on a non-empty chain: a match at the
     * head moves the head to the next entry; otherwise the walk stops at the
     * first match or at the last entry, and a match there or in the middle
     * is unlinked from its predecessor. count drops by one exactly when an
     * entry was unlinked.
     */
    method Unlink(index: nat, key: K)
      requires index < buckets.Length && buckets[index] != []
      requires Lookup(buckets[index], key).Some? ==> count >= 1
      modifies this`count, buckets
      ensures buckets == old(buckets)
      ensures buckets[..] == old(buckets[..])[index := ChainRemove(old(buckets[index]), key)]
      ensures count == old(count) - (if Lookup(old(buckets[index]), key).Some? then 1 else 0)
    {
      var chain := buckets[index];
      if chain[0].key == key {
        KeyPosUnique(chain, key, 0);
        assert chain[..0] + chain[1..] == chain[1..];
        buckets[index] := chain[1..];
        count := count - 1;
        return;
      }
      var j := 0;
      var matched := false;
      while j + 1 < |chain| && !matched
        invariant j < |chain|
        invariant matched <==> chain[j].key == key
        invariant forall m :: 0 <= m < j ==> chain[m].key != key
      {
        j := j + 1;
        matched := chain[j].key == key;
      }
      if j + 1 == |chain| {
        if matched {
          KeyPosUnique(chain, key, j);
          assert chain[..j] + chain[j + 1..] == chain[..j];
          buckets[index] := chain[..j];
          count := count - 1;
        } else {
          KeyPosUnique(chain, key, |chain|);
        }
        return;
      }
      KeyPosUnique(chain, key, j);
      buckets[index] := chain[..j] + chain[j + 1..];
      count := count - 1;
    }

    /**
     * The entries an enumeration yields, in bucket order then chain order,
     * have distinct keys and are exactly the pairs of the map; there are
     * at most count of them.
     */
    lemma EnumerationMatchesContents()
      requires Valid()
      ensures DistinctKeys(Flatten(buckets[..]))
      ensures forall k, v :: Entry(k, v) in Flatten(buckets[..]) <==> k in contents && contents[k] == v
      ensures |Flatten(buckets[..])| <= count
    {
      FlattenDistinct(buckets[..], hash, seed, size, 0);
      forall k, v
        ensures Entry(k, v) in Flatten(buckets[..]) <==> k in contents && contents[k] == v
      {
        assert Agrees(buckets[..], hash, seed, contents, k);
        FindIffInFlatten(buckets[..], hash, seed, k, v);
      }
    }
  }
}
