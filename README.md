# GenericHashtable in Dafny

A model of the separate-chaining hash table in `hashtable.c` / `hashtable.h`.
The table maps opaque keys to opaque values. It is an array of singly linked
chains (`ht_bucket_t`). The bucket of a key is `hash(key, seed) & (size - 1)`.
The table grows or shrinks after inserts and deletes, and a cursor
(`ht_enum_t`) walks every entry.

Modules:

- `Wrappers`: the `Option` type.
- `Bits`:
  - the C `int` (`Int32`) and its conversion to `unsigned int`;
  - powers of two and a bitwise AND on naturals;
  - the proof that `_ht_index`'s mask is the Euclidean remainder, negative hashes included.
- `Policy`:
  - the constants `HT_DEFAULT_SIZE` (8), `HT_RESIZE_THRESHOLD` (0.8), `INT_MAX` and the largest reachable size, 2^31;
  - the grow threshold `size*4/5` and the shrink threshold `size/5`;
  - the resize decision of `_ht_resize` (`NextSize`);
  - the load bound the table keeps.
- `Chains`: one chain as a `seq<Entry>` in place of the `next` links. It covers the first-match walk, the insert (overwrite in place or append at the tail) and the unlink of `ht_delete`.
- `Buckets`:
  - the bucket array as a sequence of chains;
  - where each key belongs (`Home`) and the placement invariant (`Placed`);
  - the lookup (`Find`) and when an array stands for a map (`Represents`);
  - the entries in enumeration order (`Flatten`);
  - the lemmas that insert, unlink and rehash keep all of these.
- `HashTable`: `hash_table_t` as the class `Table`.
  - Its fields are the hash function, the seed, the `buckets` array, `size` and `count`, plus a ghost `contents: map<K, V>`.
  - `ht_create`, `_ht_index`, `_ht_insert_bucket`, `_ht_resize`, `ht_insert`, `ht_get` and `ht_delete` are its constructor, function and methods. Each is proved against the abstract map and the resize decision.
- `Enumeration`: `ht_enum_t` as the class `Cursor`, with `ht_create_enum` and `ht_enum_next`. A chain position stands for the node pointer `curr`.

The class invariant `Table.Valid()` holds after every operation. It says:

- `size == buckets.Length`;
- `size` is a power of two in [8, 2^31];
- every entry sits in the bucket of its key, and keys are unique within a chain, and hence in the table;
- the chains stand for `contents`;
- `count` is at least the number of entries;
- below the largest size, `count` stays under the grow threshold.

Two behaviours of the code are reproduced as written:

- `_ht_insert_bucket` increments `count` even when it overwrites an existing key (hashtable.c:80). So `count` is only an upper bound on the number of entries. A rehash resets it to the exact number (hashtable.c:107, 116), and the `Resized` predicate states this.
- `ht_delete` on an empty bucket returns without the resize check (hashtable.c:157-158). On a non-empty bucket it runs the check whether or not the key was found (hashtable.c:185). A caller might expect deleting an absent key to change nothing; the code may still rehash, and the model follows the code.

## Model

| member | source | states |
|---|---|---|
| Bits.ToUnsigned | hashtable.c:52 | The conversion of the signed hash to `unsigned int` lands in [0, 2^32). It keeps non-negative values and adds 2^32 to negative ones. |
| Bits.BitAnd | hashtable.c:52 | The C `&` on naturals, bit by bit from the least significant; the result is at most either operand. |
| Bits.MaskIsMod | hashtable.c:51-52 | For a power-of-two m, masking with m - 1 gives x mod m. |
| Bits.UnsignedModPow2 | hashtable.c:50-52 | For a power-of-two m ≤ 2^32, the unsigned conversion reduced mod m equals the signed hash's Euclidean remainder mod m, so negative hashes land in [0, m) too. |
| Bits.Pow2Gap | hashtable.c:87-93 | No power of two lies strictly between p and 2p. |
| Policy.NextSize | hashtable.c:86-99 | The size `_ht_resize` switches to, or None when it returns early: the only new sizes are 2·size and size/2, and a count strictly between the two thresholds changes nothing. |
| Policy.ThresholdsFromConstant | hashtable.c:86-91 | Both integer thresholds are the floors of size × 0.8 and of size × (1.0 − 0.8), with the one constant HT_RESIZE_THRESHOLD. |
| Policy.SizeGuards | hashtable.c:86-96 | For a valid size, `size >= INT_MAX` holds exactly at 2^31 and `size / 2 < 8` exactly at 8. Doubling below 2^31 and halving above 8 give valid sizes again. |
| Policy.NextSizeValid | hashtable.c:86-99 | The decision: grow to 2·size when count ≥ ⌊0.8·size⌋ unless at 2^31; else halve when count ≤ ⌊0.2·size⌋ unless at 8; else keep. A new size is always a power of two in [8, 2^31]. |
| Policy.LoadBoundKept | hashtable.c:83-123 | If count is at most the grow threshold, the policy leaves count under the threshold of the final size. This holds whether it keeps the size or rehashes (count becomes the number of entries). |
| Chains.Lookup | hashtable.c:205-214 | The value of the first entry with the key; a found value is paired with the key in the chain, and None means no entry has the key. |
| Chains.ChainInsert | hashtable.c:61-77 | The chain after `_ht_insert_bucket`: the entry is in the result, which is either the same length (overwrite of the first match) or the chain with the entry appended. |
| Chains.ChainRemove | hashtable.c:160-192 | The chain after the unlink of the first entry with the key: it holds only entries of the old chain, and is either unchanged or one entry shorter. |
| Chains.KeyPos | hashtable.c:65-77 | The first position whose key matches, or the chain's length: no earlier entry matches. |
| Chains.LookupIffIn | hashtable.c:205-214 | In a chain with distinct keys, the walk of `ht_get` finds v for k exactly when (k, v) is in the chain. |
| Chains.LookupInsert | hashtable.c:61-77 | After the bucket insert, the key maps to the new value and every other key to what it did before. An existing key is overwritten in place (same length, same keys in the same order). A new key is appended at the tail. Distinct keys stay distinct. |
| Chains.RemoveShifts | hashtable.c:160-192 | Unlinking cuts out the first matching entry and moves every later entry down one place, keeping their order. |
| Chains.RemoveCount | hashtable.c:160-192 | The unlink removes exactly one entry when the key is present and none otherwise, and adds nothing. |
| Chains.RemoveDistinct | hashtable.c:160-192 | The unlink keeps the keys of a chain distinct. |
| Chains.LookupRemove | hashtable.c:160-192 | After the unlink the key is absent and every other key maps to what it did before. |
| Buckets.Home | hashtable.c:49-55 | The bucket of a key among n: the hash's Euclidean remainder mod n, always below n. |
| Buckets.FindIffInFlatten | hashtable.c:198-216 | Under the placement invariant, looking up k in k's own bucket finds v exactly when (k, v) is one of the table's entries. |
| Buckets.FlattenDistinct | hashtable.c:57-81 | Under the placement invariant, no two entries of the whole table share a key. |
| Buckets.EmptyPlaced | hashtable.c:20 | An array of empty chains satisfies the placement invariant, stands for the empty map and has no entries. |
| Buckets.PlacedUpdate | hashtable.c:62 | Replacing one chain by a chain of keys of that bucket keeps the placement invariant. |
| Buckets.InsertPlaced | hashtable.c:57-78 | Inserting into the key's own bucket keeps every entry in its bucket. Afterwards the key maps to the new value and other keys are unchanged. |
| Buckets.InsertCount | hashtable.c:61-77 | The insert adds exactly one entry when the key is new and none when it overwrites. A new key adds just that entry to the multiset of entries. |
| Buckets.RemovePlaced | hashtable.c:153-192 | Unlinking from the key's own bucket keeps the placement invariant and makes the key absent, leaving the other keys alone. The number of entries drops by one exactly when the key was present. |
| Buckets.RemoveAbsentKeepsAll | hashtable.c:170-187 | Deleting a key the table does not hold leaves every chain unchanged. |
| Buckets.InsertRepresents | hashtable.c:134-147 | An array that stands for m stands for m[k := v] after the insert. The number of entries grows by one exactly when k was not in m. |
| Buckets.RemoveRepresents | hashtable.c:149-196 | An array that stands for m stands for m − {k} after the unlink. The number of entries drops by one exactly when k was in m. |
| Buckets.SameEntriesSameFind | hashtable.c:101-122 | Two placed arrays of any sizes with the same entries (as multisets) answer every lookup alike. |
| Buckets.SameEntriesRepresent | hashtable.c:101-122 | After the rehash, the new array stands for the same map as the old one. |
| Buckets.RelinkedKeysDiffer | hashtable.c:109-119 | The entries relinked before entry j of old chain i all have other keys than that entry. |
| Buckets.FreshKeyDuringRehash | hashtable.c:110-116 | When an old entry is relinked, the new array does not yet hold its key, so `_ht_insert_bucket` appends rather than overwrites. |
| Buckets.RelinkStep | hashtable.c:112-118 | Relinking one old entry keeps the new array placed and adds exactly that entry to its entries. |
| HashTable.Table.constructor | hashtable.c:11-23 | A new table has size 8, count 0, all buckets empty and the empty map, and satisfies the invariant. |
| HashTable.Table.Index | hashtable.c:49-55 | The masked hash is in [0, size) and is the key's bucket: the hash's Euclidean remainder mod size. |
| HashTable.Table.InsertEntry | hashtable.c:57-81 | The array becomes the bucket insert of the entry, the layout invariant is kept, and count goes up by one even on an overwrite. |
| HashTable.Table.Resize | hashtable.c:83-123 | It follows the decision. On "keep" nothing changes. Otherwise the size is the new one in a fresh array, the entries are the same multiset, count is their exact number and the map is unchanged. The full invariant holds afterwards. |
| HashTable.Table.Rehash | hashtable.c:101-122 | Relinking every old chain into a fresh array of the new size gives the same entries (as multisets) and the same map, with count equal to the number of entries. |
| HashTable.Table.RelinkChain | hashtable.c:109-120 | Relinking old chain i in chain order adds exactly its entries to the new array, one per step, and raises count by its length. |
| HashTable.Table.Insert | hashtable.c:134-147 | Afterwards the key maps to the value and other keys are unchanged. The arrays are the insert followed by the resize on count + 1, and the invariant holds. |
| HashTable.Table.AddKey | hashtable.c:138-142 | Before the resize, the insert makes the key map to the value, with count one higher and the load bound within the grow threshold. |
| HashTable.Table.Get | hashtable.c:198-216 | The answer is Some(the value the map holds for the key) or None when the key is absent. |
| HashTable.Table.Delete | hashtable.c:149-196 | Afterwards the key is absent and other keys are unchanged. An empty bucket changes nothing. A non-empty bucket gets the unlink, then the resize on a count lowered by one exactly when the key was present. |
| HashTable.Table.RemoveAndResize | hashtable.c:160-195 | On a non-empty bucket: the unlink, then the resize on the adjusted count, in every one of the four exits. |
| HashTable.Table.RemoveKey | hashtable.c:160-192 | The unlink removes the key from the map, keeps well-formedness, and lowers count by one exactly when the key was present. |
| HashTable.Table.Unlink | hashtable.c:160-192 | The head, tail and middle cases and the no-match case together replace the chain by its first-match removal. count drops by one exactly when a node was unlinked. |
| HashTable.Table.EnumerationMatchesContents | hashtable.c:218-250 | The entries in bucket-then-chain order have distinct keys and are exactly the pairs of the map; there are at most count of them. |
| Enumeration.NextBucket | hashtable.c:235-240 | The corrected step of the bucket skip: the next index is index + 1 and always a real bucket, and the walk stops only after the last bucket. |
| Enumeration.NextBucketAsWritten | hashtable.c:235-240 | The step with the guard as written: it advances to index + 1 exactly when index < size. |
| Enumeration.AsWrittenReadsPastEnd | hashtable.c:235-240 | On the last bucket the guard as written moves to index size, one past the array, where the corrected step stops. |
| Enumeration.Cursor.constructor | hashtable.c:218-228 | A new cursor stands at the head of bucket 0, has handed out nothing, and has every entry of the table still to come. |
| Enumeration.Cursor.Next | hashtable.c:230-250 | If entries are left, it hands out the first of them and drops it from what is left. Otherwise it answers None and keeps answering None. Handed-out plus left is always every entry exactly once. |
| Enumeration.Cursor.Complete | hashtable.c:218-250 | After the walk is over, the cursor has handed out exactly the pairs of the table's map, each once, and no more than count of them. |

## Left out

- main.c is not part of this model. It is a demo driver with MurmurHash3 (a header not shown), `srand(time(NULL))` and printf. The hash is a function-typed field of `(key, seed)`.
- `ht_print_table`: debug output only.
- Memory management: malloc/calloc/free, `_destory_buckets`, `ht_destory`, `ht_enum_destroy`, the allocation-failure return of `ht_insert`, and the node `ht_insert` allocates and leaks when it overwrites. None of these is observable in the map.
- Node identity: chains are sequences of (key, value) pairs. "Relink existing nodes rather than allocate new ones" shows up only as "the rehash creates, duplicates and loses no entry".
- The NULL-handle checks and their status returns (return 1): Dafny references are never null. The status codes of successful calls are not modelled either.
- `keq`: key equality is `==` on K, which is assumed consistent with the hash.
- HashTable.Table.Get: returns `Option<V>`. The C code writes NULL for an absent key, which cannot be told apart from a stored NULL value.
- HashTable.Table.InsertEntry: count is an unbounded nat; the 32-bit unsigned wrap-around of `count++` is not modelled.
- Policy.ThresholdsFromConstant: exact reals stand in for the C doubles. For power-of-two sizes up to 2^31, the double product `size * 0.8` and `size * (1.0 - 0.8)` differ from the exact ones by less than 10^-6. The exact fractional parts are multiples of 0.2 that are never 0, so the truncations agree.
- Enumeration.Cursor.Next: mutating the table while a cursor is live is undefined in the source. The cursor's invariant instead requires the buckets to be unchanged since it was created.
- Enumeration.Cursor.Next: returns `Option<Entry>` in place of the boolean result and the key/value out-parameters.
- Keys are required to be values that are not heap objects (`K(!new)`), so that the map over all keys is well defined.

## Findings

| source | as written | input that shows it | evidently intended | confidence | as-written member | corrected member |
|---|---|---|---|---|---|---|
| hashtable.c:235-240 | `ht_enum_next` tests `index >= size` before `index++` and then reads `buckets[index]` | any table once the last bucket's chain is used up, e.g. size 8 with index 7 and `curr == NULL`: index becomes 8 and `buckets[8]` is read past the end | stop when index + 1 == size, so only buckets 0 … size − 1 are read | high; not executed | Enumeration.NextBucketAsWritten, Enumeration.AsWrittenReadsPastEnd | Enumeration.NextBucket (used by Enumeration.Cursor.Next) |
