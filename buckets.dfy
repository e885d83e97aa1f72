/**
 * The bucket array as a sequence of chains: where a key belongs, the
 * placement invariant of the table, the lookup it supports, and the
 * entries in enumeration order (bucket index, then chain order).
 */
module Buckets {
  import opened Wrappers
  import opened Bits
  import opened Chains

  /** The injected hash function: (key, seed) to a C `int`. */
  type Hash<-K> = (K, Int32) -> Int32

  /** The bucket key k belongs to among n buckets. */
  function Home<K>(hash: Hash<K>, seed: Int32, k: K, n: nat): (r: nat)
    requires n > 0
    ensures r < n
  {
    hash(k, seed) % n
  }

  /** Every key of chain c belongs to bucket s among n. */
  ghost predicate ChainAt<K, V>(c: seq<Entry<K, V>>, hash: Hash<K>, seed: Int32, n: nat, s: nat)
    requires n > 0
  {
    forall j :: 0 <= j < |c| ==> Home(hash, seed, c[j].key, n) == s
  }

  /** Chain i of bs holds only keys of bucket off + i among n, each at most once. */
  ghost predicate Slot<K, V>(bs: seq<seq<Entry<K, V>>>, hash: Hash<K>, seed: Int32, n: nat, off: nat, i: nat)
    requires n > 0
  {
    i < |bs| && ChainAt(bs[i], hash, seed, n, off + i) && DistinctKeys(bs[i])
  }

  /** Every chain of bs is a proper slot: chain i for bucket off + i among n. */
  ghost predicate Tagged<K, V>(bs: seq<seq<Entry<K, V>>>, hash: Hash<K>, seed: Int32, n: nat, off: nat)
    requires n > 0
  {
    forall i: nat :: i < |bs| ==> Slot(bs, hash, seed, n, off, i)
  }

  /** The placement invariant: every entry sits in its own bucket, keys unique per chain. */
  ghost predicate Placed<K, V>(bs: seq<seq<Entry<K, V>>>, hash: Hash<K>, seed: Int32) {
    |bs| > 0 && Tagged(bs, hash, seed, |bs|, 0)
  }

  /** What the table answers for k: the walk of k's own chain. */
  ghost function Find<K, V>(bs: seq<seq<Entry<K, V>>>, hash: Hash<K>, seed: Int32, k: K): Option<V>
    requires |bs| > 0
  {
    Lookup(bs[Home(hash, seed, k, |bs|)], k)
  }

  /** The bucket array answers for k what the map m holds for k. */
  ghost predicate Agrees<K, V>(bs: seq<seq<Entry<K, V>>>, hash: Hash<K>, seed: Int32, m: map<K, V>, k: K) {
    |bs| > 0 && Find(bs, hash, seed, k) == MapGet(m, k)
  }

  /** The bucket array stands for the map m. */
  ghost predicate Represents<K(!new), V>(bs: seq<seq<Entry<K, V>>>, hash: Hash<K>, seed: Int32, m: map<K, V>) {
    |bs| > 0 && forall k :: Agrees(bs, hash, seed, m, k)
  }

  /** All entries, bucket by bucket in index order, each chain in its order. */
  ghost function Flatten<K, V>(bs: seq<seq<Entry<K, V>>>): seq<Entry<K, V>> {
    if bs == [] then [] else bs[0] + Flatten(bs[1..])
  }

  lemma {:induction false} FlattenConcat<K, V>(a: seq<seq<Entry<K, V>>>, b: seq<seq<Entry<K, V>>>)
    ensures Flatten(a + b) == Flatten(a) + Flatten(b)
  {
    if a == [] {
      assert a + b == b;
    } else {
      var ab := a + b;
      assert ab[0] == a[0] && ab[1..] == a[1..] + b;
      FlattenConcat(a[1..], b);
      assert Flatten(ab) == a[0] + Flatten(a[1..] + b);
    }
  }

  lemma {:induction false} FlattenEmpty<K, V>(bs: seq<seq<Entry<K, V>>>)
    requires forall i :: 0 <= i < |bs| ==> bs[i] == []
    ensures Flatten(bs) == []
  {
    if bs != [] {
      FlattenEmpty(bs[1..]);
    }
  }

  /** The entries of the first i + 1 chains: those of the first i, then chain i. */
  lemma FlattenPrefix<K, V>(bs: seq<seq<Entry<K, V>>>, i: nat)
    requires i < |bs|
    ensures Flatten(bs[..i + 1]) == Flatten(bs[..i]) + bs[i]
  {
    assert bs[..i + 1] == bs[..i] + [bs[i]];
    FlattenConcat(bs[..i], [bs[i]]);
    assert Flatten([bs[i]]) == bs[i] + Flatten<K, V>([]);
  }

  /**
   * Replacing chain s by c replaces, in the entries of the table, the
   * entries of the old chain by those of c (as multisets).
   */
  lemma {:induction false} FlattenUpdate<K, V>(bs: seq<seq<Entry<K, V>>>, s: nat, c: seq<Entry<K, V>>)
    requires s < |bs|
    ensures multiset(Flatten(bs[s := c])) + multiset(bs[s]) == multiset(Flatten(bs)) + multiset(c)
    ensures |Flatten(bs[s := c])| + |bs[s]| == |Flatten(bs)| + |c|
  {
    var bs' := bs[s := c];
    assert Flatten(bs) == bs[0] + Flatten(bs[1..]);
    assert multiset(Flatten(bs)) == multiset(bs[0]) + multiset(Flatten(bs[1..]));
    if s == 0 {
      assert bs'[1..] == bs[1..];
      assert Flatten(bs') == c + Flatten(bs[1..]);
      assert multiset(Flatten(bs')) == multiset(c) + multiset(Flatten(bs[1..]));
      assert multiset(Flatten(bs')) + multiset(bs[s]) == multiset(Flatten(bs)) + multiset(c);
    } else {
      assert bs'[1..] == bs[1..][s - 1 := c];
      assert bs[1..][s - 1] == bs[s];
      FlattenUpdate(bs[1..], s - 1, c);
      assert Flatten(bs') == bs[0] + Flatten(bs'[1..]);
      assert multiset(Flatten(bs')) == multiset(bs[0]) + multiset(Flatten(bs'[1..]));
      assert multiset(Flatten(bs')) + multiset(bs[s])
          == multiset(bs[0]) + (multiset(Flatten(bs'[1..])) + multiset(bs[1..][s - 1]));
      assert multiset(Flatten(bs')) + multiset(bs[s]) == multiset(Flatten(bs)) + multiset(c);
    }
    assert |multiset(Flatten(bs'))| == |Flatten(bs')|;
    assert |multiset(Flatten(bs))| == |Flatten(bs)|;
  }

  lemma {:induction false} InFlatten<K, V>(bs: seq<seq<Entry<K, V>>>, i: nat, e: Entry<K, V>)
    requires i < |bs| && e in bs[i]
    ensures e in Flatten(bs)
  {
    if i > 0 {
      InFlatten(bs[1..], i - 1, e);
    }
  }

  lemma {:induction false} FlattenMember<K, V>(bs: seq<seq<Entry<K, V>>>, e: Entry<K, V>) returns (i: nat)
    requires e in Flatten(bs)
    ensures i < |bs| && e in bs[i]
  {
    if e in bs[0] {
      i := 0;
    } else {
      var i' := FlattenMember(bs[1..], e);
      i := i' + 1;
    }
  }

  /**
   * Under the placement invariant, k is found with value v exactly when the
   * pair (k, v) is one of the table's entries.
   */
  lemma FindIffInFlatten<K, V>(bs: seq<seq<Entry<K, V>>>, hash: Hash<K>, seed: Int32, k: K, v: V)
    requires Placed(bs, hash, seed)
    ensures Find(bs, hash, seed, k) == Some(v) <==> Entry(k, v) in Flatten(bs)
  {
    var s := Home(hash, seed, k, |bs|);
    assert Slot(bs, hash, seed, |bs|, 0, s);
    LookupIffIn(bs[s], k, v);
    if Entry(k, v) in bs[s] {
      InFlatten(bs, s, Entry(k, v));
    }
    if Entry(k, v) in Flatten(bs) {
      var i := FlattenMember(bs, Entry(k, v));
      var j :| 0 <= j < |bs[i]| && bs[i][j] == Entry(k, v);
      assert Slot(bs, hash, seed, |bs|, 0, i);
      assert Home(hash, seed, bs[i][j].key, |bs|) == i;
    }
  }

  /**
   * The entries of the table, read in enumeration order, have distinct
   * keys, and each lies in a bucket from off to off + |bs| - 1.
   */
  lemma {:induction false} FlattenDistinct<K, V>(bs: seq<seq<Entry<K, V>>>, hash: Hash<K>, seed: Int32, n: nat, off: nat)
    requires n > 0 && Tagged(bs, hash, seed, n, off)
    ensures DistinctKeys(Flatten(bs))
    ensures forall x :: x in Flatten(bs) ==> off <= Home(hash, seed, x.key, n) < off + |bs|
  {
    if bs != [] {
      var rest := bs[1..];
      var off' := off + 1;
      assert Tagged(rest, hash, seed, n, off') by {
        forall i: nat | i < |rest|
          ensures Slot(rest, hash, seed, n, off', i)
        {
          assert Slot(bs, hash, seed, n, off, i + 1);
          assert rest[i] == bs[i + 1];
        }
      }
      FlattenDistinct(rest, hash, seed, n, off + 1);
      var head, tail := bs[0], Flatten(rest);
      var f := Flatten(bs);
      assert f == head + tail;
      assert Slot(bs, hash, seed, n, off, 0);
      forall x | x in f
        ensures off <= Home(hash, seed, x.key, n) < off + |bs|
      {
        if x in head {
          var j :| 0 <= j < |head| && head[j] == x;
        }
      }
      forall p, q | 0 <= p < q < |f|
        ensures f[p].key != f[q].key
      {
        if q < |head| {
        } else if p < |head| {
          assert f[q] == tail[q - |head|];
          assert f[q] in tail;
        } else {
          assert f[p] == tail[p - |head|] && f[q] == tail[q - |head|];
        }
      }
    }
  }

  /** An array of empty chains is placed and holds no entries. */
  lemma EmptyPlaced<K(!new), V>(bs: seq<seq<Entry<K, V>>>, hash: Hash<K>, seed: Int32)
    requires |bs| > 0 && forall i :: 0 <= i < |bs| ==> bs[i] == []
    ensures Placed(bs, hash, seed) && Represents(bs, hash, seed, map[])
    ensures Flatten(bs) == []
  {
    FlattenEmpty(bs);
  }

  /** Replacing one chain by a chain of the same bucket keeps the placement invariant. */
  lemma PlacedUpdate<K, V>(bs: seq<seq<Entry<K, V>>>, hash: Hash<K>, seed: Int32, s: nat, c: seq<Entry<K, V>>)
    requires Placed(bs, hash, seed) && s < |bs|
    requires ChainAt(c, hash, seed, |bs|, s) && DistinctKeys(c)
    ensures Placed(bs[s := c], hash, seed)
  {
    var bs' := bs[s := c];
    forall i: nat | i < |bs'|
      ensures Slot(bs', hash, seed, |bs'|, 0, i)
    {
      if i != s {
        assert Slot(bs, hash, seed, |bs|, 0, i);
        assert bs'[i] == bs[i];
      }
    }
  }

  /** The bucket array after e is inserted into its own chain. */
  ghost function InsertAt<K, V>(bs: seq<seq<Entry<K, V>>>, hash: Hash<K>, seed: Int32, e: Entry<K, V>): seq<seq<Entry<K, V>>>
    requires |bs| > 0
  {
    var s := Home(hash, seed, e.key, |bs|);
    bs[s := ChainInsert(bs[s], e)]
  }

  /** The bucket array after k is unlinked from its own chain. */
  ghost function RemoveAt<K, V>(bs: seq<seq<Entry<K, V>>>, hash: Hash<K>, seed: Int32, k: K): seq<seq<Entry<K, V>>>
    requires |bs| > 0
  {
    var s := Home(hash, seed, k, |bs|);
    bs[s := ChainRemove(bs[s], k)]
  }

  /**
   * Inserting e into its own chain keeps the placement invariant, makes
   * e's key map to e's value and leaves every other key alone.
   */
  lemma InsertPlaced<K, V>(bs: seq<seq<Entry<K, V>>>, hash: Hash<K>, seed: Int32, e: Entry<K, V>)
    requires Placed(bs, hash, seed)
    ensures Placed(InsertAt(bs, hash, seed, e), hash, seed)
    ensures forall k ::
      Find(InsertAt(bs, hash, seed, e), hash, seed, k) == if k == e.key then Some(e.value) else Find(bs, hash, seed, k)
  {
    var s := Home(hash, seed, e.key, |bs|);
    var c := bs[s];
    var c' := ChainInsert(c, e);
    var bs' := bs[s := c'];
    LookupInsert(c, e, e.key);
    assert Slot(bs, hash, seed, |bs|, 0, s);
    assert ChainAt(c', hash, seed, |bs|, s) by {
      forall j | 0 <= j < |c'|
        ensures Home(hash, seed, c'[j].key, |bs|) == s
      {
        if j < |c| {
          assert c'[j].key == c[j].key;
        }
      }
    }
    PlacedUpdate(bs, hash, seed, s, c');
    forall k
      ensures Find(bs', hash, seed, k) == if k == e.key then Some(e.value) else Find(bs, hash, seed, k)
    {
      if Home(hash, seed, k, |bs|) == s {
        LookupInsert(c, e, k);
      }
    }
  }

  /**
   * Inserting e adds an entry exactly when its key was absent: then the
   * entries grow by e alone; an overwrite keeps their number.
   */
  lemma InsertCount<K, V>(bs: seq<seq<Entry<K, V>>>, hash: Hash<K>, seed: Int32, e: Entry<K, V>)
    requires |bs| > 0
    ensures |Flatten(InsertAt(bs, hash, seed, e))| == |Flatten(bs)| + (if Find(bs, hash, seed, e.key).Some? then 0 else 1)
    ensures Find(bs, hash, seed, e.key).None? ==>
      multiset(Flatten(InsertAt(bs, hash, seed, e))) == multiset(Flatten(bs)) + multiset{e}
  {
    var s := Home(hash, seed, e.key, |bs|);
    var c := bs[s];
    var c' := ChainInsert(c, e);
    LookupInsert(c, e, e.key);
    FlattenUpdate(bs, s, c');
    if Lookup(c, e.key).None? {
      var f, f' := multiset(Flatten(bs)), multiset(Flatten(InsertAt(bs, hash, seed, e)));
      assert multiset(c') == multiset(c) + multiset{e};
      assert f' + multiset(c) == (f + multiset{e}) + multiset(c);
      MultisetCancel(f', f + multiset{e}, multiset(c));
    }
  }

  /** Equal unions with a common part have equal remainders. */
  lemma MultisetCancel<T>(a: multiset<T>, b: multiset<T>, c: multiset<T>)
    requires a + c == b + c
    ensures a == b
  {
    forall x
      ensures a[x] == b[x]
    {
      assert (a + c)[x] == (b + c)[x];
    }
  }

  /**
   * Unlinking k0 from its own chain keeps the placement invariant, makes
   * k0 absent and leaves every other key alone. It removes an entry
   * exactly when the key was present.
   */
  lemma RemovePlaced<K, V>(bs: seq<seq<Entry<K, V>>>, hash: Hash<K>, seed: Int32, k0: K)
    requires Placed(bs, hash, seed)
    ensures Placed(RemoveAt(bs, hash, seed, k0), hash, seed)
    ensures forall k ::
      Find(RemoveAt(bs, hash, seed, k0), hash, seed, k) == if k == k0 then None else Find(bs, hash, seed, k)
    ensures |Flatten(RemoveAt(bs, hash, seed, k0))| ==
      |Flatten(bs)| - (if Find(bs, hash, seed, k0).Some? then 1 else 0)
  {
    var s := Home(hash, seed, k0, |bs|);
    var c := bs[s];
    var c' := ChainRemove(c, k0);
    var bs' := bs[s := c'];
    assert Slot(bs, hash, seed, |bs|, 0, s);
    LookupRemove(c, k0, k0);
    forall j | 0 <= j < |c'|
      ensures Home(hash, seed, c'[j].key, |bs|) == s
    {
      assert c'[j] in multiset(c);
      var m :| 0 <= m < |c| && c[m] == c'[j];
    }
    PlacedUpdate(bs, hash, seed, s, c');
    forall k
      ensures Find(bs', hash, seed, k) == if k == k0 then None else Find(bs, hash, seed, k)
    {
      if Home(hash, seed, k, |bs|) == s {
        LookupRemove(c, k0, k);
      }
    }
    FlattenUpdate(bs, s, c');
  }

  /** Unlinking a key the table does not hold leaves every chain as it was. */
  lemma RemoveAbsentKeepsAll<K, V>(bs: seq<seq<Entry<K, V>>>, hash: Hash<K>, seed: Int32, k: K)
    requires |bs| > 0 && Find(bs, hash, seed, k).None?
    ensures RemoveAt(bs, hash, seed, k) == bs
  {
  }

  /**
   * Inserting e into a placed array that stands for m gives a placed array
   * that stands for m with e's key mapped to e's value; the number of
   * entries grows by one exactly when the key was absent from m.
   */
  lemma InsertRepresents<K(!new), V>(bs: seq<seq<Entry<K, V>>>, hash: Hash<K>, seed: Int32, m: map<K, V>, e: Entry<K, V>)
    requires Placed(bs, hash, seed) && Represents(bs, hash, seed, m)
    ensures Placed(InsertAt(bs, hash, seed, e), hash, seed)
    ensures Represents(InsertAt(bs, hash, seed, e), hash, seed, m[e.key := e.value])
    ensures |Flatten(InsertAt(bs, hash, seed, e))| == |Flatten(bs)| + (if e.key in m then 0 else 1)
  {
    InsertPlaced(bs, hash, seed, e);
    InsertCount(bs, hash, seed, e);
    assert Agrees(bs, hash, seed, m, e.key);
    var bs', m' := InsertAt(bs, hash, seed, e), m[e.key := e.value];
    forall k
      ensures Agrees(bs', hash, seed, m', k)
    {
      assert Agrees(bs, hash, seed, m, k);
    }
  }

  /**
   * Unlinking k from a placed array that stands for m gives a placed array
   * that stands for m without k; the number of entries drops by one exactly
   * when k was in m.
   */
  lemma RemoveRepresents<K(!new), V>(bs: seq<seq<Entry<K, V>>>, hash: Hash<K>, seed: Int32, m: map<K, V>, k: K)
    requires Placed(bs, hash, seed) && Represents(bs, hash, seed, m)
    ensures Placed(RemoveAt(bs, hash, seed, k), hash, seed)
    ensures Represents(RemoveAt(bs, hash, seed, k), hash, seed, m - {k})
    ensures |Flatten(RemoveAt(bs, hash, seed, k))| == |Flatten(bs)| - (if k in m then 1 else 0)
  {
    RemovePlaced(bs, hash, seed, k);
    assert Agrees(bs, hash, seed, m, k);
    var bs', m' := RemoveAt(bs, hash, seed, k), m - {k};
    forall k'
      ensures Agrees(bs', hash, seed, m', k')
    {
      assert Agrees(bs, hash, seed, m, k');
    }
  }

  /**
   * Two placed bucket arrays with the same entries (as multisets), of any
   * sizes, answer every lookup alike: a rehash loses and invents nothing.
   */
  lemma SameEntriesSameFind<K, V>(a: seq<seq<Entry<K, V>>>, b: seq<seq<Entry<K, V>>>, hash: Hash<K>, seed: Int32)
    requires Placed(a, hash, seed) && Placed(b, hash, seed)
    requires multiset(Flatten(a)) == multiset(Flatten(b))
    ensures forall k :: Find(a, hash, seed, k) == Find(b, hash, seed, k)
  {
    forall k
      ensures Find(a, hash, seed, k) == Find(b, hash, seed, k)
    {
      if Find(a, hash, seed, k).Some? {
        var v := Find(a, hash, seed, k).value;
        FindIffInFlatten(a, hash, seed, k, v);
        assert Entry(k, v) in multiset(Flatten(a));
        FindIffInFlatten(b, hash, seed, k, v);
      } else if Find(b, hash, seed, k).Some? {
        var v := Find(b, hash, seed, k).value;
        FindIffInFlatten(b, hash, seed, k, v);
        assert Entry(k, v) in multiset(Flatten(b));
        FindIffInFlatten(a, hash, seed, k, v);
      }
    }
  }

  /** A placed array with the same entries as one that stands for m stands for m too. */
  lemma SameEntriesRepresent<K(!new), V>(a: seq<seq<Entry<K, V>>>, b: seq<seq<Entry<K, V>>>, hash: Hash<K>, seed: Int32, m: map<K, V>)
    requires Placed(a, hash, seed) && Placed(b, hash, seed) && Represents(a, hash, seed, m)
    requires multiset(Flatten(a)) == multiset(Flatten(b))
    ensures Represents(b, hash, seed, m)
  {
    SameEntriesSameFind(a, b, hash, seed);
    forall k
      ensures Agrees(b, hash, seed, m, k)
    {
      assert Agrees(a, hash, seed, m, k);
    }
  }

  /**
   * The entries of the old chains before i, and of chain i before j, all
   * have keys other than that of entry j of chain i.
   */
  lemma RelinkedKeysDiffer<K, V>(prev: seq<seq<Entry<K, V>>>, hash: Hash<K>, seed: Int32, i: nat, j: nat)
    requires Placed(prev, hash, seed)
    requires i < |prev| && j < |prev[i]|
    ensures forall x :: x in Flatten(prev[..i]) + prev[i][..j] ==> x.key != prev[i][j].key
  {
    var k := prev[i][j].key;
    assert Slot(prev, hash, seed, |prev|, 0, i);
    assert Home(hash, seed, k, |prev|) == i;
    forall x | x in Flatten(prev[..i]) + prev[i][..j]
      ensures x.key != k
    {
      if x in Flatten(prev[..i]) {
        var i' := FlattenMember(prev[..i], x);
        assert prev[..i][i'] == prev[i'];
        assert Slot(prev, hash, seed, |prev|, 0, i');
        var m :| 0 <= m < |prev[i']| && prev[i'][m] == x;
        assert Home(hash, seed, x.key, |prev|) == i';
      } else {
        var m :| 0 <= m < j && prev[i][..j][m] == x;
        assert prev[i][m] == x;
      }
    }
  }

  /**
   * During the rehash loop, the entry about to be relinked (chain i,
   * position j of the old array) has a key the new array does not hold yet:
   * the new array holds exactly the entries of the old chains before i and
   * of chain i before j.
   */
  lemma FreshKeyDuringRehash<K, V>(prev: seq<seq<Entry<K, V>>>, nb: seq<seq<Entry<K, V>>>, hash: Hash<K>, seed: Int32, i: nat, j: nat)
    requires Placed(prev, hash, seed) && Placed(nb, hash, seed)
    requires i < |prev| && j < |prev[i]|
    requires multiset(Flatten(nb)) == multiset(Flatten(prev[..i]) + prev[i][..j])
    ensures Find(nb, hash, seed, prev[i][j].key) == None
  {
    var k := prev[i][j].key;
    var done := Flatten(prev[..i]) + prev[i][..j];
    RelinkedKeysDiffer(prev, hash, seed, i, j);
    forall v
      ensures Find(nb, hash, seed, k) != Some(v)
    {
      FindIffInFlatten(nb, hash, seed, k, v);
      assert Entry(k, v) !in done;
      assert Entry(k, v) !in multiset(Flatten(nb));
    }
  }

  /**
   * One step of the rehash: relinking the next old entry into the new
   * table adds exactly that entry to the new table's contents.
   */
  lemma RelinkStep<K, V>(prev: seq<seq<Entry<K, V>>>, nb: seq<seq<Entry<K, V>>>, hash: Hash<K>, seed: Int32, i: nat, j: nat)
    requires Placed(prev, hash, seed) && Placed(nb, hash, seed)
    requires i < |prev| && j < |prev[i]|
    requires multiset(Flatten(nb)) == multiset(Flatten(prev[..i]) + prev[i][..j])
    ensures Placed(InsertAt(nb, hash, seed, prev[i][j]), hash, seed)
    ensures multiset(Flatten(InsertAt(nb, hash, seed, prev[i][j]))) == multiset(Flatten(prev[..i]) + prev[i][..j + 1])
  {
    var e := prev[i][j];
    FreshKeyDuringRehash(prev, nb, hash, seed, i, j);
    InsertCount(nb, hash, seed, e);
    InsertPlaced(nb, hash, seed, e);
    assert prev[i][..j + 1] == prev[i][..j] + [e];
  }
}
