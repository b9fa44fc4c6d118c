// Bucket-array storage of the resizeable hashtable: nodes, chains, the
// zero-filled bucket array, and the abstract views (entry count, multiset of
// nodes, placement of nodes by cached hash) that the rest of the model uses.

module Storage {

  /** A node of a bucket chain. The link to the next node is not a field:
    * a chain is the sequence of its nodes, head first. `hash` is the hash
    * value cached when the node was inserted. */
  datatype Node<K, V> = Node(key: K, value: V, hash: nat)

  type Chain<K, V> = seq<Node<K, V>>

  /** The two lifetime regimes of the bucket array: explicitly freed C heap,
    * or a resource area reclaimed when its scope ends. */
  datatype AllocType = CHeap | ResourceArea

  /** `n` empty bucket heads. */
  function EmptyBuckets<K, V>(n: nat): (r: seq<Chain<K, V>>)
    ensures |r| == n
    ensures forall i :: 0 <= i < n ==> r[i] == []
  {
    seq(n, _ => [])
  }

  /** Allocates a fresh array of `n` bucket heads and clears every slot. */
  method AllocTable<K, V>(n: nat) returns (table: array<Chain<K, V>>)
    ensures fresh(table)
    ensures table.Length == n
    ensures forall i :: 0 <= i < n ==> table[i] == []
  {
    table := new Chain<K, V>[n];
    forall i | 0 <= i < n {
      table[i] := [];
    }
  }

  /** Number of nodes held by all buckets together. */
  function TotalLength<K, V>(buckets: seq<Chain<K, V>>): nat
  {
    if buckets == [] then 0
    else TotalLength(buckets[..|buckets| - 1]) + |buckets[|buckets| - 1]|
  }

  /** The multiset of nodes held by all buckets together. */
  ghost function Bag<K, V>(buckets: seq<Chain<K, V>>): multiset<Node<K, V>>
  {
    if buckets == [] then multiset{}
    else Bag(buckets[..|buckets| - 1]) + multiset(buckets[|buckets| - 1])
  }

  /** Every node lies in the bucket its cached hash selects. */
  ghost predicate Placed<K, V>(buckets: seq<Chain<K, V>>)
  {
    forall i, j :: 0 <= i < |buckets| && 0 <= j < |buckets[i]| ==>
      buckets[i][j].hash % |buckets| == i
  }

  /** The node count is the size of the multiset of nodes. */
  lemma {:induction false} BagSize<K, V>(buckets: seq<Chain<K, V>>)
    ensures |Bag(buckets)| == TotalLength(buckets)
  {
    if buckets != [] {
      BagSize(buckets[..|buckets| - 1]);
    }
  }

  /** A table holds no node exactly when every bucket is empty. */
  lemma {:induction false} NoEntriesIffAllEmpty<K, V>(buckets: seq<Chain<K, V>>)
    ensures TotalLength(buckets) == 0 <==> forall i :: 0 <= i < |buckets| ==> buckets[i] == []
  {
    if buckets != [] {
      var front := buckets[..|buckets| - 1];
      NoEntriesIffAllEmpty(front);
      assert forall i :: 0 <= i < |front| ==> front[i] == buckets[i];
    }
  }

  /** Linking a node in at the head of one bucket adds exactly that node. */
  lemma {:induction false} BagPrepend<K, V>(buckets: seq<Chain<K, V>>, i: nat, node: Node<K, V>)
    requires i < |buckets|
    ensures Bag(buckets[i := [node] + buckets[i]]) == Bag(buckets) + multiset{node}
  {
    var last := |buckets| - 1;
    var updated := buckets[i := [node] + buckets[i]];
    if i == last {
      assert updated[..last] == buckets[..last];
      assert multiset(updated[last]) == multiset{node} + multiset(buckets[last]);
    } else {
      assert updated[..last] == buckets[..last][i := [node] + buckets[..last][i]];
      assert updated[last] == buckets[last];
      BagPrepend(buckets[..last], i, node);
    }
  }

  /** An empty bucket array holds no node, and trivially places them all. */
  lemma EmptyBucketsFacts<K, V>(n: nat)
    ensures Bag(EmptyBuckets<K, V>(n)) == multiset{}
    ensures Placed(EmptyBuckets<K, V>(n))
  {
    EmptyBag(EmptyBuckets<K, V>(n));
  }

  lemma {:induction false} EmptyBag<K, V>(buckets: seq<Chain<K, V>>)
    requires forall i :: 0 <= i < |buckets| ==> buckets[i] == []
    ensures Bag(buckets) == multiset{}
  {
    if buckets != [] {
      EmptyBag(buckets[..|buckets| - 1]);
    }
  }
}
