// The resizeable hashtable: the bucket array and its size (the storage base),
// the cap on the size, and the operations that grow and rehash the table.

module ResizeableHash {
  import opened Storage
  import opened Rehashing
  import opened GrowthPolicy

  /** Bound the constructor asserts on both sizes, so that doubling a size
    * cannot overflow. */
  const MaxConstructedSize := 0x3fffffff

  /** Sizes are unsigned 32-bit integers. */
  const UnsignedLimit := 0x1_0000_0000

  class ResizeableResourceHashtable<K, V> {
    var tableSize: nat
    var table: array<Chain<K, V>>
    const maxSize: nat
    const allocType: AllocType
    /** Bucket arrays released explicitly (C-heap regime only), oldest first. */
    ghost var freed: seq<array<Chain<K, V>>>

    ghost predicate Valid()
      reads this
    {
      table.Length == tableSize && tableSize < UnsignedLimit &&
      maxSize <= MaxConstructedSize
    }

    /** `number_of_entries()` of the base table: the nodes of all chains. */
    function NumberOfEntries(): nat
      reads this, table
    {
      TotalLength(table[..])
    }

    constructor (size: nat, maxSize: nat, allocType: AllocType)
      requires size <= MaxConstructedSize && maxSize <= MaxConstructedSize
      ensures Valid() && fresh(table)
      ensures tableSize == size && this.maxSize == maxSize && this.allocType == allocType
      ensures table[..] == EmptyBuckets(size) && freed == []
    {
      var t := AllocTable<K, V>(size);
      tableSize := size;
      table := t;
      this.maxSize := maxSize;
      this.allocType := allocType;
      freed := [];
    }

    /** `calculate_resize`: scans the preferred sizes from the start index for
      * the first one that holds twice the current entries. */
    method CalculateResize(useLargeTableSizes: bool) returns (newSize: int)
      requires NumberOfEntries() <= MaxEntries
      ensures newSize == NextSize(NumberOfEntries(), useLargeTableSizes)
    {
      var requested := ResizeFactor * NumberOfEntries();
      var startAt := if useLargeTableSizes then LargeStart else 0;
      var i := startAt;
      while i < |LargeTableSizes|
        invariant startAt <= i <= |LargeTableSizes|
        invariant FirstFitIndex(LargeTableSizes, startAt, requested) ==
                  FirstFitIndex(LargeTableSizes, i, requested)
      {
        newSize := LargeTableSizes[i];
        if newSize >= requested {
          return;
        }
        i := i + 1;
      }
      newSize := requested;
    }

    /** Grows the table when the load factor is exceeded and the cap not yet
      * reached; reports whether it did. */
    method MaybeGrow(loadFactor: int := 8, useLargeTableSizes: bool := false) returns (grew: bool)
      requires Valid()
      requires tableSize < maxSize ==> tableSize > 0
      requires NumberOfEntries() <= MaxEntries
      modifies this
      ensures Valid()
      ensures GrowthTarget(old(NumberOfEntries()), old(tableSize), maxSize, loadFactor,
                           useLargeTableSizes) == if grew then Some(tableSize) else None
      ensures grew ==> fresh(table) && table[..] == Rehash(old(table[..]), tableSize)
      ensures grew ==> freed == old(freed) + (if allocType == CHeap then [old(table)] else [])
      ensures !grew ==> table == old(table) && tableSize == old(tableSize) && freed == old(freed)
      ensures old(tableSize) <= maxSize ==> tableSize <= maxSize
      ensures NumberOfEntries() == old(NumberOfEntries())
    {
      var oldSize := tableSize;
      if oldSize >= maxSize {
        return false;
      }
      if NumberOfEntries() / oldSize > loadFactor {
        var next := CalculateResize(useLargeTableSizes);
        NextSizePositive(old(NumberOfEntries()), useLargeTableSizes);
        var newSize := Min(next, maxSize);
        Resize(newSize);
        grew := true;
      } else {
        grew := false;
      }
    }

    /** Moves every node, bucket by bucket and head to tail, to the head of
      * bucket `hash % newSize` of a fresh array, releases the old array in
      * the C-heap regime, and installs the new array and size. */
    method Resize(newSize: nat)
      requires Valid()
      requires 0 < newSize < UnsignedLimit
      modifies this
      ensures Valid() && fresh(table)
      ensures tableSize == newSize
      ensures table[..] == Rehash(old(table[..]), newSize)
      ensures freed == old(freed) + (if allocType == CHeap then [old(table)] else [])
      ensures Placed(table[..]) && Bag(table[..]) == Bag(old(table[..]))
      ensures NumberOfEntries() == old(NumberOfEntries())
    {
      var oldTable := table;
      var newTable := AllocTable<K, V>(newSize);
      ghost var empty := EmptyBuckets<K, V>(newSize);
      assert newTable[..] == empty;
      var bucket := 0;
      while bucket < tableSize
        invariant 0 <= bucket <= tableSize
        invariant newTable[..] == RelinkAll(empty, oldTable[..bucket])
        modifies newTable
      {
        var chain := oldTable[bucket];
        var pos := 0;
        while pos < |chain|
          invariant 0 <= pos <= |chain|
          invariant newTable[..] == Relink(RelinkAll(empty, oldTable[..bucket]), chain[..pos])
          modifies newTable
        {
          var node := chain[pos];
          var index := node.hash % newSize;
          newTable[index] := [node] + newTable[index];
          pos := pos + 1;
          assert chain[..pos][..pos - 1] == chain[..pos - 1];
        }
        assert chain[..pos] == chain;
        bucket := bucket + 1;
        assert oldTable[..bucket][..bucket - 1] == oldTable[..bucket - 1];
      }
      assert oldTable[..bucket] == oldTable[..];
      if allocType == CHeap {
        freed := freed + [oldTable];
      }
      table := newTable;
      tableSize := newSize;
      RehashPlaced(old(table[..]), newSize);
      RehashPreservesNodes(old(table[..]), newSize);
    }

    /** Debug check: the length of the longest chain. */
    method Verify() returns (maxBucketSize: int)
      requires Valid()
      ensures maxBucketSize >= 0
      ensures forall i :: 0 <= i < tableSize ==> |table[i]| <= maxBucketSize
      ensures maxBucketSize == 0 || exists i :: 0 <= i < tableSize && |table[i]| == maxBucketSize
      ensures maxBucketSize == 0 <==> NumberOfEntries() == 0
    {
      maxBucketSize := 0;
      var index := 0;
      while index < tableSize
        invariant 0 <= index <= tableSize
        invariant maxBucketSize >= 0
        invariant forall i :: 0 <= i < index ==> |table[i]| <= maxBucketSize
        invariant maxBucketSize == 0 || exists i :: 0 <= i < index && |table[i]| == maxBucketSize
      {
        var count := 0;
        var rest := table[index];
        while rest != []
          invariant count + |rest| == |table[index]|
        {
          count := count + 1;
          rest := rest[1..];
        }
        maxBucketSize := if count > maxBucketSize then count else maxBucketSize;
        index := index + 1;
      }
      NoEntriesIffAllEmpty(table[..]);
    }
  }

  /** A client: two nodes with cached hashes 3 and 8 share bucket 3 of a
    * five-bucket table; after resizing to three buckets they sit in buckets 0
    * and 2. A table built at its cap never grows. */
  method ResizeScenario()
  {
    var t := new ResizeableResourceHashtable<string, int>(5, 10, ResourceArea);
    var a, b := Node("a", 1, 3), Node("b", 2, 8);
    t.table[3] := [b, a];  // as the base table's insertions would leave it
    assert t.table[..] == [[], [], [], [b, a], []];
    t.Resize(3);
    RehashFiveToThree(a, b);
    assert t.table[0] == [a] && t.table[1] == [] && t.table[2] == [b];

    var capped := new ResizeableResourceHashtable<string, int>(107, 107, CHeap);
    NoEntriesIffAllEmpty(capped.table[..]);
    var grew := capped.MaybeGrow();
    assert !grew && capped.tableSize == 107;
  }
}
