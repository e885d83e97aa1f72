/**
 * The grow/shrink policy of the table (hashtable.h and _ht_resize in
 * hashtable.c): the constants, the two load thresholds, and the decision
 * taken after each insert and each delete that reaches it.
 */
module Policy {
  import opened Wrappers
  import opened Bits

  /** HT_DEFAULT_SIZE: the initial number of buckets and the shrink floor. */
  const DEFAULT_SIZE: nat := 8

  /** HT_RESIZE_THRESHOLD: grow above this load, shrink below one minus it. */
  const RESIZE_THRESHOLD: real := 0.8

  /** INT_MAX of a 32-bit C `int`: the table does not grow once size reaches it. */
  const INT_MAX: nat := 0x7FFF_FFFF

  /** The largest size a table reaches: the only power of two in [INT_MAX, 2 * INT_MAX]. */
  const MAX_SIZE: nat := 0x8000_0000

  /** The sizes a table can have: powers of two from 8 to 2^31. */
  predicate ValidSize(size: nat) {
    IsPow2(size) && DEFAULT_SIZE <= size <= MAX_SIZE
  }

  /** `(unsigned int)(size * HT_RESIZE_THRESHOLD)`: count at or above this grows. */
  function GrowAt(size: nat): nat {
    size * 4 / 5
  }

  /** `(unsigned int)(size * (1.0 - HT_RESIZE_THRESHOLD))`: count at or below this shrinks. */
  function ShrinkAt(size: nat): nat {
    size / 5
  }

  /**
   * Both integer thresholds are the floors of size times the one real
   * constant and of size times its complement.
   */
  lemma ThresholdsFromConstant(size: nat)
    ensures GrowAt(size) == (size as real * RESIZE_THRESHOLD).Floor
    ensures ShrinkAt(size) == (size as real * (1.0 - RESIZE_THRESHOLD)).Floor
  {
  }

  /**
   * The size _ht_resize switches to for a table of the given size and
   * count, or None when it returns without rehashing.
   */
  function NextSize(size: nat, count: nat): (r: Option<nat>)
    ensures r.Some? ==> r.value == 2 * size || r.value == size / 2
    ensures ShrinkAt(size) < count < GrowAt(size) ==> r.None?
  {
    if count >= GrowAt(size) then
      if size >= INT_MAX then None else Some(size * 2)
    else if count <= ShrinkAt(size) then
      if size / 2 < DEFAULT_SIZE then None else Some(size / 2)
    else
      None
  }

  /** 2^31 and 2^30 are powers of two. */
  lemma MaxSizeIsPow2()
    ensures IsPow2(MAX_SIZE) && IsPow2(MAX_SIZE / 2)
  {
    UintRangeIsPow2();
  }

  /**
   * For a valid size the two guards of _ht_resize mean "at the maximum"
   * and "at the floor", and doubling below the maximum or halving above
   * the floor gives a valid size again.
   */
  lemma SizeGuards(size: nat)
    requires ValidSize(size)
    ensures size >= INT_MAX <==> size == MAX_SIZE
    ensures size / 2 < DEFAULT_SIZE <==> size == DEFAULT_SIZE
    ensures size < MAX_SIZE ==> ValidSize(2 * size)
    ensures size > DEFAULT_SIZE ==> ValidSize(size / 2)
  {
    MaxSizeIsPow2();
    if size < MAX_SIZE {
      Pow2Gap(size, MAX_SIZE / 2);
      assert (2 * size) / 2 == size && (2 * size) % 2 == 0;
      assert IsPow2(2 * size);
    }
    if size < 2 * DEFAULT_SIZE {
      assert IsPow2(DEFAULT_SIZE);
      Pow2Gap(size, DEFAULT_SIZE);
    }
    assert size >= 2 && IsPow2(size / 2);
  }

  /**
   * The decision of _ht_resize in normal form: grow by doubling at the
   * grow threshold unless at the maximum, shrink by halving at the shrink
   * threshold unless at the floor, else keep; the new size is valid again.
   */
  lemma NextSizeValid(size: nat, count: nat)
    requires ValidSize(size)
    ensures NextSize(size, count) ==
      if count >= GrowAt(size) then
        (if size < MAX_SIZE then Some(2 * size) else None)
      else if count <= ShrinkAt(size) && size > DEFAULT_SIZE then Some(size / 2)
      else None
    ensures NextSize(size, count).Some? ==> ValidSize(NextSize(size, count).value)
  {
    SizeGuards(size);
  }

  /**
   * The load bound the table keeps: below the maximum size, count stays
   * under the grow threshold. If it held before an operation changed count
   * by at most one step, it holds after the policy has run, whether the
   * policy rehashed (count becomes the number of entries) or not.
   */
  lemma LoadBoundKept(size: nat, count: nat, entries: nat)
    requires ValidSize(size) && entries <= count
    requires size < MAX_SIZE ==> count <= GrowAt(size)
    ensures NextSize(size, count).None? ==> (size < MAX_SIZE ==> count < GrowAt(size))
    ensures NextSize(size, count).Some? ==>
      var n := NextSize(size, count).value;
      n < MAX_SIZE ==> entries < GrowAt(n)
  {
    NextSizeValid(size, count);
  }
}
