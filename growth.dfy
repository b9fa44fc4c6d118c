// The growth policy of the resizeable hashtable: the table of preferred
// sizes, the choice of the next size, and the load-factor trigger, as pure
// functions with the properties the table relies on.

module GrowthPolicy {

  datatype Option<T> = None | Some(value: T)

  /** By how much the entry count is multiplied to get the requested size. */
  const ResizeFactor := 2

  /** Preferred sizes: odd primes that roughly double, with the primes
    * between 4801 and 76831 and between 76831 and 307261 thinned out. */
  const LargeTableSizes: seq<int> :=
    [107, 1009, 2017, 4049, 5051, 10103, 20201,
     40423, 76831, 307261, 614563, 1228891, 2457733,
     4915219, 9830479, 19660831, 39321619, 78643219]

  /** Index where the search starts when large table sizes are requested. */
  const LargeStart := 8

  /** Largest entry count for which `ResizeFactor * entries` fits a signed
    * 32-bit integer. */
  const MaxEntries := 0x3fffffff

  function Min(a: int, b: int): int { if a <= b then a else b }

  ghost predicate Ascending(sizes: seq<int>)
  {
    forall i, j :: 0 <= i < j < |sizes| ==> sizes[i] < sizes[j]
  }

  function StartAt(useLargeTableSizes: bool): nat
  {
    if useLargeTableSizes then LargeStart else 0
  }

  /** Index of the first of `sizes[i..]` that is at least `requested`, or
    * `|sizes|` when none is. */
  function FirstFitIndex(sizes: seq<int>, i: nat, requested: int): (f: nat)
    requires i <= |sizes|
    ensures i <= f <= |sizes|
    ensures forall j :: i <= j < f ==> sizes[j] < requested
    ensures f < |sizes| ==> sizes[f] >= requested
    decreases |sizes| - i
  {
    if i == |sizes| || sizes[i] >= requested then i
    else FirstFitIndex(sizes, i + 1, requested)
  }

  /** The first of `sizes[i..]` that is at least `requested`, or `requested`
    * itself when none is. */
  function FirstFit(sizes: seq<int>, i: nat, requested: int): int
    requires i <= |sizes|
  {
    var f := FirstFitIndex(sizes, i, requested);
    if f < |sizes| then sizes[f] else requested
  }

  /** The size `calculate_resize` picks for a table with `entries` entries. */
  function NextSize(entries: nat, useLargeTableSizes: bool): int
  {
    FirstFit(LargeTableSizes, StartAt(useLargeTableSizes), ResizeFactor * entries)
  }

  /** The new table size `maybe_grow` resizes to, if any. */
  function GrowthTarget(entries: nat, size: nat, maxSize: nat, loadFactor: int,
                        useLargeTableSizes: bool): (r: Option<nat>)
    requires size < maxSize ==> size > 0
    ensures r.Some? ==> 0 < r.value <= maxSize
  {
    if size >= maxSize then None
    else if entries / size > loadFactor then
      NextSizePositive(entries, useLargeTableSizes);
      Some(Min(NextSize(entries, useLargeTableSizes), maxSize) as nat)
    else None
  }

  lemma LargeTableSizesAscending()
    ensures |LargeTableSizes| == 18
    ensures Ascending(LargeTableSizes)
  {
  }

  /** Over an ascending table, `FirstFit` is the smallest entry at or after
    * `i` that is at least `requested`. */
  lemma FirstFitIsSmallest(sizes: seq<int>, i: nat, requested: int, k: nat)
    requires Ascending(sizes)
    requires i <= k < |sizes| && sizes[k] >= requested
    ensures FirstFit(sizes, i, requested) >= requested
    ensures FirstFit(sizes, i, requested) <= sizes[k]
    ensures FirstFit(sizes, i, requested) in sizes[i..]
  {
    var f := FirstFitIndex(sizes, i, requested);
    assert f <= k;
    assert sizes[i..][f - i] == sizes[f];
  }

  /** Over an ascending table: the result is at least `requested`; it is
    * `requested` itself when every entry from `i` on is smaller; otherwise it
    * is the smallest entry from `i` on that is at least `requested`. */
  lemma FirstFitSpec(sizes: seq<int>, i: nat, requested: int)
    requires Ascending(sizes) && i <= |sizes|
    ensures FirstFit(sizes, i, requested) >= requested
    ensures (forall k :: i <= k < |sizes| ==> sizes[k] < requested) <==>
      FirstFit(sizes, i, requested) == requested && requested !in sizes[i..]
    ensures forall k :: i <= k < |sizes| && sizes[k] >= requested ==>
      FirstFit(sizes, i, requested) in sizes[i..] && FirstFit(sizes, i, requested) <= sizes[k]
  {
    forall k | i <= k < |sizes| && sizes[k] >= requested
      ensures FirstFit(sizes, i, requested) in sizes[i..] && FirstFit(sizes, i, requested) <= sizes[k]
    {
      FirstFitIsSmallest(sizes, i, requested, k);
    }
  }

  /** `calculate_resize`: the first preferred size from the start index on
    * that is at least twice the entry count, or twice the entry count when
    * the table has none that large. */
  lemma NextSizeSpec(entries: nat, useLargeTableSizes: bool)
    ensures NextSize(entries, useLargeTableSizes) >= 2 * entries
    ensures 2 * entries > 78643219 ==> NextSize(entries, useLargeTableSizes) == 2 * entries
    ensures forall k :: StartAt(useLargeTableSizes) <= k < 18 && LargeTableSizes[k] >= 2 * entries ==>
      NextSize(entries, useLargeTableSizes) in LargeTableSizes[StartAt(useLargeTableSizes)..] &&
      NextSize(entries, useLargeTableSizes) <= LargeTableSizes[k]
  {
    LargeTableSizesAscending();
    FirstFitSpec(LargeTableSizes, StartAt(useLargeTableSizes), 2 * entries);
    if 2 * entries > 78643219 {
      assert forall k :: 0 <= k < 18 ==> LargeTableSizes[k] <= LargeTableSizes[17];
    }
  }

  /** The chosen size is never zero, so it is a legal bucket count. */
  lemma NextSizePositive(entries: nat, useLargeTableSizes: bool)
    ensures NextSize(entries, useLargeTableSizes) > 0
  {
    if 2 * entries <= 78643219 {
      NextSizeSpec(entries, useLargeTableSizes);
      assert LargeTableSizes[17] >= 2 * entries;
    }
  }

  /** With large sizes a request of 50000 skips the small sizes and picks
    * 76831. */
  lemma NextSizeLargeExample()
    ensures NextSize(25000, true) == 76831
  {
    var s := LargeTableSizes;
    assert |s| == 18 && s[8] == 76831;
    assert FirstFitIndex(s, 8, 50000) == 8;
  }

  /** 963 entries request 1926 buckets; 1009 is below that request, so the
    * choice is 2017. An empty table maps to the smallest size. */
  lemma NextSizeSmallExamples()
    ensures NextSize(963, false) == 2017
    ensures NextSize(0, false) == 107
  {
    var s := LargeTableSizes;
    assert |s| == 18 && s[0] == 107 && s[1] == 1009 && s[2] == 2017;
    assert FirstFitIndex(s, 2, 1926) == 2;
    assert FirstFitIndex(s, 1, 1926) == 2;
    assert FirstFitIndex(s, 0, 1926) == 2;
    assert FirstFitIndex(s, 0, 0) == 0;
  }

  /** A request beyond the largest preferred size is returned unchanged. */
  lemma NextSizeFallbackExample()
    ensures NextSize(40000000, false) == 80000000
  {
    NextSizeSpec(40000000, false);
  }

  /** `maybe_grow` grows exactly when the table is below its cap and the
    * integer load factor is exceeded; it then picks the smaller of the next size
    * and `maxSize`, which is larger than the old size when `loadFactor >= 0`. */
  lemma GrowthTargetSpec(entries: nat, size: nat, maxSize: nat, loadFactor: int,
                         useLargeTableSizes: bool)
    requires size < maxSize ==> size > 0
    ensures GrowthTarget(entries, size, maxSize, loadFactor, useLargeTableSizes).Some? <==>
      size < maxSize && entries / size > loadFactor
    ensures GrowthTarget(entries, size, maxSize, loadFactor, useLargeTableSizes).Some? ==>
      var n := GrowthTarget(entries, size, maxSize, loadFactor, useLargeTableSizes).value;
      n <= maxSize && n > 0 &&
      (n == maxSize || n == NextSize(entries, useLargeTableSizes)) &&
      n <= NextSize(entries, useLargeTableSizes) &&
      (loadFactor >= 0 ==> n > size)
  {
    if size < maxSize && entries / size > loadFactor {
      NextSizePositive(entries, useLargeTableSizes);
      if loadFactor >= 0 {
        assert entries >= size;
      }
    }
  }

  /** Once the table has reached its cap it never grows again. */
  lemma NoGrowthAtCap(entries: nat, size: nat, maxSize: nat, loadFactor: int,
                      useLargeTableSizes: bool)
    requires size >= maxSize
    ensures GrowthTarget(entries, size, maxSize, loadFactor, useLargeTableSizes) == None
  {
  }

  /** The integer division in the trigger: 107 buckets need 963 entries to
    * grow under load factor 8 (857 / 107 is 8, which does not exceed 8). */
  lemma GrowthExamples()
    ensures GrowthTarget(857, 107, 10000, 8, false) == None
    ensures GrowthTarget(962, 107, 10000, 8, false) == None
    ensures GrowthTarget(963, 107, 10000, 8, false) == Some(2017)
    ensures GrowthTarget(963, 107, 1500, 8, false) == Some(1500)
  {
    NextSizeSmallExamples();
  }

  /** One call of `maybe_grow`, with the entry count at the time of the call. */
  datatype GrowCall = GrowCall(entries: nat, loadFactor: int, useLargeTableSizes: bool)

  /** The table size after a series of `maybe_grow` calls. */
  function SizeAfter(size: nat, maxSize: nat, calls: seq<GrowCall>): nat
    requires size < maxSize ==> size > 0
    decreases |calls|
  {
    if calls == [] then size
    else
      var c := calls[0];
      match GrowthTarget(c.entries, size, maxSize, c.loadFactor, c.useLargeTableSizes)
      case None => SizeAfter(size, maxSize, calls[1..])
      case Some(n) => SizeAfter(n, maxSize, calls[1..])
  }

  /** A table that starts at or below its cap stays at or below it, whatever
    * series of `maybe_grow` calls is made. */
  lemma {:induction false} SizeAfterCapped(size: nat, maxSize: nat, calls: seq<GrowCall>)
    requires size <= maxSize && (size < maxSize ==> size > 0)
    ensures SizeAfter(size, maxSize, calls) <= maxSize
    decreases |calls|
  {
    if calls != [] {
      var c := calls[0];
      GrowthTargetSpec(c.entries, size, maxSize, c.loadFactor, c.useLargeTableSizes);
      match GrowthTarget(c.entries, size, maxSize, c.loadFactor, c.useLargeTableSizes)
      case None => SizeAfterCapped(size, maxSize, calls[1..]);
      case Some(n) => SizeAfterCapped(n, maxSize, calls[1..]);
    }
  }
}
