// The rehash that `resize` performs, as a function on bucket contents: every
// node of the old buckets, bucket by bucket and head to tail, is pushed onto
// the head of the new bucket its cached hash selects. The lemmas state that
// no node is lost or duplicated and that every node lands in its bucket.

module Rehashing {
  import opened Storage

  /** Links `node` in at the head of bucket `node.hash % |buckets|`. */
  function Push<K, V>(buckets: seq<Chain<K, V>>, node: Node<K, V>): (r: seq<Chain<K, V>>)
    requires |buckets| > 0
    ensures |r| == |buckets|
  {
    var index := node.hash % |buckets|;
    buckets[index := [node] + buckets[index]]
  }

  /** Relinks the nodes of `chain`, head to tail, into `buckets`. */
  function Relink<K, V>(buckets: seq<Chain<K, V>>, chain: Chain<K, V>): (r: seq<Chain<K, V>>)
    requires |buckets| > 0
    ensures |r| == |buckets|
    decreases |chain|
  {
    if chain == [] then buckets
    else Push(Relink(buckets, chain[..|chain| - 1]), chain[|chain| - 1])
  }

  /** Relinks every chain of `olds`, first bucket first, into `buckets`. */
  function RelinkAll<K, V>(buckets: seq<Chain<K, V>>, olds: seq<Chain<K, V>>): (r: seq<Chain<K, V>>)
    requires |buckets| > 0
    ensures |r| == |buckets|
    decreases |olds|
  {
    if olds == [] then buckets
    else Relink(RelinkAll(buckets, olds[..|olds| - 1]), olds[|olds| - 1])
  }

  /** The bucket contents after rehashing `olds` into `n` fresh buckets. */
  function Rehash<K, V>(olds: seq<Chain<K, V>>, n: nat): (r: seq<Chain<K, V>>)
    requires n > 0
    ensures |r| == n
  {
    RelinkAll(EmptyBuckets(n), olds)
  }

  lemma PushBag<K, V>(buckets: seq<Chain<K, V>>, node: Node<K, V>)
    requires |buckets| > 0
    ensures Bag(Push(buckets, node)) == Bag(buckets) + multiset{node}
  {
    BagPrepend(buckets, node.hash % |buckets|, node);
  }

  lemma PushPlaced<K, V>(buckets: seq<Chain<K, V>>, node: Node<K, V>)
    requires |buckets| > 0 && Placed(buckets)
    ensures Placed(Push(buckets, node))
  {
  }

  /** Relinking a chain adds exactly its nodes. */
  lemma {:induction false} RelinkBag<K, V>(buckets: seq<Chain<K, V>>, chain: Chain<K, V>)
    requires |buckets| > 0
    ensures Bag(Relink(buckets, chain)) == Bag(buckets) + multiset(chain)
    decreases |chain|
  {
    if chain != [] {
      var front, last := chain[..|chain| - 1], chain[|chain| - 1];
      RelinkBag(buckets, front);
      PushBag(Relink(buckets, front), last);
      assert chain == front + [last];
    }
  }

  /** Relinking a chain keeps every node in the bucket its hash selects. */
  lemma {:induction false} RelinkPlaced<K, V>(buckets: seq<Chain<K, V>>, chain: Chain<K, V>)
    requires |buckets| > 0 && Placed(buckets)
    ensures Placed(Relink(buckets, chain))
    decreases |chain|
  {
    if chain != [] {
      RelinkPlaced(buckets, chain[..|chain| - 1]);
      PushPlaced(Relink(buckets, chain[..|chain| - 1]), chain[|chain| - 1]);
    }
  }

  /** Relinking a whole bucket array adds exactly its nodes. */
  lemma {:induction false} RelinkAllBag<K, V>(buckets: seq<Chain<K, V>>, olds: seq<Chain<K, V>>)
    requires |buckets| > 0
    ensures Bag(RelinkAll(buckets, olds)) == Bag(buckets) + Bag(olds)
    decreases |olds|
  {
    if olds != [] {
      var front := olds[..|olds| - 1];
      RelinkAllBag(buckets, front);
      RelinkBag(RelinkAll(buckets, front), olds[|olds| - 1]);
    }
  }

  lemma {:induction false} RelinkAllPlaced<K, V>(buckets: seq<Chain<K, V>>, olds: seq<Chain<K, V>>)
    requires |buckets| > 0 && Placed(buckets)
    ensures Placed(RelinkAll(buckets, olds))
    decreases |olds|
  {
    if olds != [] {
      var front := olds[..|olds| - 1];
      RelinkAllPlaced(buckets, front);
      RelinkPlaced(RelinkAll(buckets, front), olds[|olds| - 1]);
    }
  }

  /** A rehash neither loses nor duplicates nor invents a node, so the
    * number of entries is unchanged. */
  lemma RehashPreservesNodes<K, V>(olds: seq<Chain<K, V>>, n: nat)
    requires n > 0
    ensures Bag(Rehash(olds, n)) == Bag(olds)
    ensures TotalLength(Rehash(olds, n)) == TotalLength(olds)
  {
    EmptyBucketsFacts<K, V>(n);
    RelinkAllBag(EmptyBuckets(n), olds);
    BagSize(olds);
    BagSize(Rehash(olds, n));
  }

  /** After a rehash into `n` buckets every node lies in bucket `hash % n`. */
  lemma RehashPlaced<K, V>(olds: seq<Chain<K, V>>, n: nat)
    requires n > 0
    ensures Placed(Rehash(olds, n))
    ensures forall i, j :: 0 <= i < n && 0 <= j < |Rehash(olds, n)[i]| ==>
      Rehash(olds, n)[i][j].hash % n == i
  {
    EmptyBucketsFacts<K, V>(n);
    RelinkAllPlaced(EmptyBuckets(n), olds);
  }

  /** A node is in the rehashed table exactly when it was in the old one, and
    * then in the bucket its hash selects. */
  lemma RehashMembership<K, V>(olds: seq<Chain<K, V>>, n: nat, node: Node<K, V>)
    requires n > 0
    ensures node in Bag(Rehash(olds, n)) <==> node in Bag(olds)
    ensures node in Bag(olds) ==> node in Rehash(olds, n)[node.hash % n]
  {
    RehashPreservesNodes(olds, n);
    if node in Bag(olds) {
      var k := InSomeBucket(Rehash(olds, n), node);
      RehashPlaced(olds, n);
      var j :| 0 <= j < |Rehash(olds, n)[k]| && Rehash(olds, n)[k][j] == node;
      assert node.hash % n == k;
    }
  }

  /** A node of the multiset sits in some bucket. */
  lemma {:induction false} InSomeBucket<K, V>(buckets: seq<Chain<K, V>>, node: Node<K, V>) returns (k: nat)
    requires node in Bag(buckets)
    ensures k < |buckets| && node in buckets[k]
    decreases |buckets|
  {
    var last := |buckets| - 1;
    if node in buckets[last] {
      k := last;
    } else {
      k := InSomeBucket(buckets[..last], node);
    }
  }

  /** Moving from five buckets to three, nodes with cached hashes 3 and 8
    * (both in old bucket 3) go to buckets 0 and 2. */
  lemma RehashFiveToThree<K, V>(a: Node<K, V>, b: Node<K, V>)
    requires a.hash == 3 && b.hash == 8
    ensures Rehash([[], [], [], [b, a], []], 3) == [[a], [], [b]]
  {
    var olds: seq<Chain<K, V>> := [[], [], [], [b, a], []];
    var e: seq<Chain<K, V>> := [[], [], []];
    assert EmptyBuckets<K, V>(3) == e;
    var none: seq<Chain<K, V>> := [];
    assert RelinkAll(e, none) == e;
    assert RelinkAll(e, olds[..1]) == e by { assert olds[..1][..0] == none; }
    assert RelinkAll(e, olds[..2]) == e by { assert olds[..2][..1] == olds[..1]; }
    assert RelinkAll(e, olds[..3]) == e by { assert olds[..3][..2] == olds[..2]; }
    assert [b] + e[2] == [b] && [a] + [] == [a];
    assert Push(e, b) == [[], [], [b]];
    assert Push([[], [], [b]], a) == [[a], [], [b]];
    assert Relink(e, [b]) == [[], [], [b]] by { assert [b][..0] == []; assert Relink(e, []) == e; }
    assert Relink(e, [b, a]) == [[a], [], [b]] by { assert [b, a][..1] == [b]; }
    assert RelinkAll(e, olds[..4]) == [[a], [], [b]] by { assert olds[..4][..3] == olds[..3]; }
    assert olds[..5][..4] == olds[..4] && olds[..5] == olds;
  }
}
