/**
 The hash index as the objects of src/index.c: nodes linked through `next`, an array of
 chain heads, and the operations that relink them. `M` is the finite map it stands for.
 */
module ChainedIndex {
  import opened Bytes
  import opened HashIndex

  datatype IndexStatus =
    | IndexOk
    | IndexNotFound
    | IndexIoError
    | IndexCorrupt
    | IndexIncompatible
    | IndexAllocError
    | IndexInvalidOffset
    | IndexKeyMismatch
    | IndexDuplicateKey
    | IndexPersistError
    | IndexDuplicatePrimaryKey

  const INITIAL_BUCKETS: nat := 16
  const SIZE_MAX: nat := U64_MAX
  const BUCKET_BYTES: nat := 8

  function LoadLimit(bucketCount: nat): nat {
    (bucketCount / 4) * 3
  }

  /**
   `bucket_count_for_entries`: the first power of two, from 16 up, whose load limit admits
   the entries; it gives up only when the last one a size_t can hold does not.
   */
  method BucketCountForEntries(expected: nat) returns (r: Option<nat>)
    ensures r.Some? ==>
              && INITIAL_BUCKETS <= r.value <= SIZE_MAX && IsPow2(r.value) && expected <= LoadLimit(r.value)
              && (r.value == INITIAL_BUCKETS || LoadLimit(r.value / 2) < expected)
    ensures r.None? ==> LoadLimit(0x8000_0000_0000_0000) < expected
    ensures r.Some? ==> 4 * expected <= 3 * r.value && (r.value == 16 || 8 * expected > 3 * r.value)
    ensures r.None? ==> expected > 0x6000_0000_0000_0000
  {
    var buckets: nat := INITIAL_BUCKETS;
    while true
      invariant INITIAL_BUCKETS <= buckets <= SIZE_MAX && IsPow2(buckets)
      invariant buckets == INITIAL_BUCKETS || LoadLimit(buckets / 2) < expected
      decreases SIZE_MAX - buckets
    {
      if expected <= LoadLimit(buckets) {
        ThreeQuarters(buckets);
        if buckets > INITIAL_BUCKETS { ThreeQuarters(buckets / 2); }
        return Some(buckets);
      }
      if buckets > SIZE_MAX / 2 {
        LastPow2(buckets);
        return None;
      }
      assert (buckets * 2) / 2 == buckets;
      buckets := buckets * 2;
    }
  }

  /** The limit is three entries to four buckets. */
  lemma ThreeQuarters(n: nat)
    requires IsPow2(n) && n >= 4
    ensures 4 * LoadLimit(n) == 3 * n
  {
    assert IsPow2(n / 2) && n / 2 > 1;
  }

  lemma BucketsArePow2(chains: seq<seq<IndexNode>>, nodes: set<IndexNode>)
    requires Placed(chains, nodes)
    ensures IsPow2(|chains|) && IsPow2(2 * |chains|)
  {
  }

  /** A power of two between 2^63 and 2^64 is 2^63. */
  lemma LastPow2(n: nat)
    requires IsPow2(n) && SIZE_MAX / 2 < n <= SIZE_MAX
    ensures n == 0x8000_0000_0000_0000
  {
    WordPower();
    assert Pow2(40) == 256 * Pow2(32) && Pow2(48) == 256 * Pow2(40);
    assert Pow2(56) == 256 * Pow2(48) && Pow2(63) == 128 * Pow2(56);
    Pow2Range(n, 63);
  }

  lemma {:induction false} Pow2Range(n: nat, k: nat)
    requires IsPow2(n) && Pow2(k) <= n < 2 * Pow2(k)
    ensures n == Pow2(k)
  {
    if k > 0 { Pow2Range(n / 2, k - 1); }
  }

  /** There is room for another entry, or for twice the buckets. */
  predicate CanAdd(entryCount: nat, bucketCount: nat) {
    entryCount < LoadLimit(bucketCount) || 2 * bucketCount * BUCKET_BYTES <= SIZE_MAX
  }

  class IndexNode {
    const key: int32
    var offset: int64
    var next: IndexNode?

    constructor (key: int32, offset: int64, next: IndexNode?)
      ensures this.key == key && this.offset == offset && this.next == next
    {
      this.key, this.offset, this.next := key, offset, next;
    }
  }

  /** The node at position i of a chain, null past its end. */
  ghost function NodeAt(chain: seq<IndexNode>, i: nat): IndexNode? {
    if i < |chain| then chain[i] else null
  }

  ghost predicate LinkAt(chain: seq<IndexNode>, i: nat)
    requires i < |chain|
    reads chain[i..i + 1]`next
  {
    chain[i].next == NodeAt(chain, i + 1)
  }

  /** The chain starts at `head` and each node leads to the one after it, the last to null. */
  ghost predicate Linked(head: IndexNode?, chain: seq<IndexNode>)
    reads chain`next
  {
    head == NodeAt(chain, 0) && forall i :: 0 <= i < |chain| ==> LinkAt(chain, i)
  }

  ghost predicate InBucket(chain: seq<IndexNode>, nodes: set<IndexNode>, b: nat, n: nat)
    requires IsPow2(n)
  {
    && (forall i :: 0 <= i < |chain| ==> chain[i] in nodes && Bucket(chain[i].key, n) == b)
    && forall i, j :: 0 <= i < j < |chain| ==> chain[i].key != chain[j].key
  }

  /** Every node is in exactly the chain its hash selects, and no key occurs twice. */
  ghost predicate Placed(chains: seq<seq<IndexNode>>, nodes: set<IndexNode>) {
    && IsPow2(|chains|)
    && (forall b :: 0 <= b < |chains| ==> InBucket(chains[b], nodes, b, |chains|))
    && forall node :: node in nodes ==> node in chains[Bucket(node.key, |chains|)]
  }

  ghost predicate HasKey(nodes: set<IndexNode>, key: int32) {
    exists node :: node in nodes && node.key == key
  }

  /** The nodes hold exactly the entries of the map. */
  ghost predicate Stands(nodes: set<IndexNode>, m: map<int32, int64>)
    reads nodes`offset
  {
    && (forall key :: key in m <==> HasKey(nodes, key))
    && forall node :: node in nodes ==> node.key in m && m[node.key] == node.offset
  }

  ghost predicate Counted(nodes: set<IndexNode>, m: map<int32, int64>, count: nat) {
    count == |m| == |nodes|
  }

  /** Some of the nodes, linked into a table of their own. */
  ghost predicate Partial(heads: array<IndexNode?>, chains: seq<seq<IndexNode>>, nodes: set<IndexNode>)
    reads heads, nodes`next
  {
    && heads.Length == |chains|
    && Placed(chains, nodes)
    && forall b :: 0 <= b < |chains| ==> Linked(heads[b], chains[b])
  }

  /** Put a node with a new key at the front of the chain its hash selects. */
  method Relink(node: IndexNode, heads: array<IndexNode?>, ghost chains: seq<seq<IndexNode>>,
                ghost nodes: set<IndexNode>)
    returns (ghost chains': seq<seq<IndexNode>>)
    requires Partial(heads, chains, nodes)
    requires !HasKey(nodes, node.key)
    modifies heads, node`next
    ensures |chains'| == |chains| && Partial(heads, chains', nodes + {node})
    ensures forall m :: old(Stands(nodes + {node}, m)) ==> Stands(nodes + {node}, m)
  {
    hide Bucket;
    var b := Bucket(node.key, heads.Length);
    assert InBucket(chains[b], nodes, b, |chains|);
    node.next := heads[b];
    heads[b] := node;
    chains' := chains[b := [node] + chains[b]];
    forall c | 0 <= c < |chains| ensures InBucket(chains'[c], nodes + {node}, c, |chains|) {
      assert InBucket(chains[c], nodes, c, |chains|);
    }
    forall c | 0 <= c < |chains| ensures Linked(heads[c], chains'[c]) {
      assert InBucket(chains[c], nodes, c, |chains|);
      assert old(Linked(heads[c], chains[c]));
      forall i | 0 <= i < |chains'[c]| ensures LinkAt(chains'[c], i) {
        if c != b {
          assert old(LinkAt(chains[c], i));
        } else if i > 0 {
          assert old(LinkAt(chains[c], i - 1));
        }
      }
    }
    forall n | n in nodes + {node} ensures n in chains'[Bucket(n.key, |chains|)] {
      if n != node { assert n in chains[Bucket(n.key, |chains|)]; }
    }
  }

  lemma OneNodePerKey(chains: seq<seq<IndexNode>>, nodes: set<IndexNode>)
    requires Placed(chains, nodes)
    ensures forall a, b :: a in nodes && b in nodes && a.key == b.key ==> a == b
  {
    forall a, b | a in nodes && b in nodes && a.key == b.key ensures a == b {
      var k := Bucket(a.key, |chains|);
      assert InBucket(chains[k], nodes, k, |chains|);
      assert a in chains[k] && b in chains[k];
    }
  }

  lemma StandsWith(nodes: set<IndexNode>, m: map<int32, int64>, added: IndexNode)
    requires Stands(nodes, m) && added.key !in m
    ensures added !in nodes && Stands(nodes + {added}, m[added.key := added.offset])
  {
    forall key ensures HasKey(nodes + {added}, key) <==> key == added.key || HasKey(nodes, key) {
      assert added in nodes + {added};
      if HasKey(nodes, key) {
        var node :| node in nodes && node.key == key;
        assert node in nodes + {added};
      }
    }
  }

  lemma CountedWith(nodes: set<IndexNode>, m: map<int32, int64>, count: nat, added: IndexNode)
    requires Counted(nodes, m, count) && added !in nodes && added.key !in m
    ensures Counted(nodes + {added}, m[added.key := added.offset], count + 1)
  {
  }

  lemma CountedReplaced(nodes: set<IndexNode>, m: map<int32, int64>, count: nat, key: int32, offset: int64)
    requires Counted(nodes, m, count) && key in m
    ensures Counted(nodes, m[key := offset], count)
  {
    assert m[key := offset].Keys == m.Keys;
  }

  /** A key that is not in the chain its hash selects is nowhere. */
  lemma KeyAbsent(chains: seq<seq<IndexNode>>, nodes: set<IndexNode>, key: int32)
    requires Placed(chains, nodes)
    requires forall node :: node in chains[Bucket(key, |chains|)] ==> node.key != key
    ensures !HasKey(nodes, key)
  {
    forall node | node in nodes ensures node.key != key {
      assert node in chains[Bucket(node.key, |chains|)];
    }
  }

  ghost function Elements(chain: seq<IndexNode>): set<IndexNode> {
    set node | node in chain
  }

  /** The nodes of the first i chains. */
  ghost function Below(nodes: set<IndexNode>, n: nat, i: nat): set<IndexNode>
    requires IsPow2(n)
  {
    set node | node in nodes && Bucket(node.key, n) < i
  }

  lemma BelowEnds(chains: seq<seq<IndexNode>>, nodes: set<IndexNode>)
    requires Placed(chains, nodes)
    ensures Below(nodes, |chains|, 0) == {} && Below(nodes, |chains|, |chains|) == nodes
  {
  }

  lemma EmptyPlaced(chains: seq<seq<IndexNode>>)
    requires IsPow2(|chains|) && forall b :: 0 <= b < |chains| ==> chains[b] == []
    ensures Placed(chains, {})
  {
  }

  lemma BelowNext(chains: seq<seq<IndexNode>>, nodes: set<IndexNode>, i: nat)
    requires Placed(chains, nodes) && i < |chains|
    ensures Below(nodes, |chains|, i + 1) == Below(nodes, |chains|, i) + Elements(chains[i])
    ensures Elements(chains[i]) <= nodes && NewKeys(chains[i], Below(nodes, |chains|, i))
  {
    assert InBucket(chains[i], nodes, i, |chains|);
  }

  lemma ChainsApart(chains: seq<seq<IndexNode>>, nodes: set<IndexNode>, a: nat, b: nat)
    requires Placed(chains, nodes) && a < |chains| && b < |chains| && a != b
    ensures forall j :: 0 <= j < |chains[b]| ==> chains[b][j] !in chains[a]
  {
    assert InBucket(chains[a], nodes, a, |chains|) && InBucket(chains[b], nodes, b, |chains|);
  }

  /** The chain's keys differ from one another and from those of the nodes. */
  ghost predicate NewKeys(chain: seq<IndexNode>, nodes: set<IndexNode>) {
    && (forall i :: 0 <= i < |chain| ==> !HasKey(nodes, chain[i].key))
    && forall i, j :: 0 <= i < j < |chain| ==> chain[i].key != chain[j].key
  }

  /** The inner loop of `index_resize`: one chain is taken apart, node by node. */
  method MoveChain(head: IndexNode?, ghost chain: seq<IndexNode>,
                   heads: array<IndexNode?>, ghost chains: seq<seq<IndexNode>>, ghost nodes: set<IndexNode>)
    returns (ghost chains': seq<seq<IndexNode>>)
    requires Linked(head, chain) && NewKeys(chain, nodes) && Partial(heads, chains, nodes)
    modifies heads, chain`next
    ensures |chains'| == |chains| && Partial(heads, chains', nodes + Elements(chain))
  {
    hide Placed, HasKey;
    chains' := chains;
    var node := head;
    ghost var pos := 0;
    ghost var moved := nodes;
    while node != null
      invariant 0 <= pos <= |chain| && node == NodeAt(chain, pos) && |chains'| == |chains|
      invariant moved == nodes + Elements(chain[..pos]) && Partial(heads, chains', moved)
      invariant forall j :: pos <= j < |chain| ==> LinkAt(chain, j)
      decreases |chain| - pos
    {
      assert LinkAt(chain, pos);
      var next := node.next;
      StillNew(chain, nodes, pos);
      label L:
      chains' := Relink(node, heads, chains', moved);
      forall j | pos < j < |chain| ensures LinkAt(chain, j) {
        assert old@L(LinkAt(chain, j));
      }
      moved := moved + {node};
      assert chain[..pos + 1] == chain[..pos] + [node];
      node := next;
      pos := pos + 1;
    }
    assert chain[..pos] == chain;
  }

  lemma StillNew(chain: seq<IndexNode>, nodes: set<IndexNode>, pos: nat)
    requires NewKeys(chain, nodes) && pos < |chain|
    ensures !HasKey(nodes + Elements(chain[..pos]), chain[pos].key)
  {
  }

  class Index {
    /** Memory does not run out for this index, and its file can be read. */
    const ample: bool
    var buckets: array<IndexNode?>
    var entryCount: nat
    ghost var chains: seq<seq<IndexNode>>
    ghost var nodes: set<IndexNode>
    ghost var M: map<int32, int64>

    ghost predicate Valid()
      reads this, buckets, nodes
    {
      && buckets.Length == |chains| && INITIAL_BUCKETS <= buckets.Length <= SIZE_MAX
      && Placed(chains, nodes)
      && (forall b :: 0 <= b < |chains| ==> Linked(buckets[b], chains[b]))
      && Stands(nodes, M)
      && Counted(nodes, M, entryCount) && entryCount <= LoadLimit(buckets.Length)
    }

    /** `index_create_sized`, once the buckets are allocated. */
    constructor (bucketCount: nat, ample: bool)
      requires INITIAL_BUCKETS <= bucketCount <= SIZE_MAX && IsPow2(bucketCount)
      ensures Valid() && M == map[] && fresh(buckets) && nodes == {} && buckets.Length == bucketCount
      ensures this.ample == ample
    {
      this.ample := ample;
      buckets := new IndexNode?[bucketCount](_ => null);
      entryCount := 0;
      chains := seq(bucketCount, _ => []);
      nodes := {};
      M := map[];
    }

    /** The walk along one chain that insert and lookup share. */
    method FindNode(key: int32) returns (node: IndexNode?)
      requires Valid()
      ensures node == null ==> key !in M && !HasKey(nodes, key)
      ensures node != null ==> node in nodes && node.key == key && key in M && M[key] == node.offset
    {
      hide Bucket, Counted;
      var b := Bucket(key, buckets.Length);
      ghost var chain := chains[b];
      assert InBucket(chain, nodes, b, |chains|) && Linked(buckets[b], chain);
      node := buckets[b];
      ghost var i := 0;
      while node != null
        invariant 0 <= i <= |chain|
        invariant node == NodeAt(chain, i)
        invariant forall j :: 0 <= j < i ==> chain[j].key != key
        invariant Linked(buckets[b], chain)
        decreases |chain| - i
      {
        if node.key == key { return; }
        assert LinkAt(chain, i);
        node := node.next;
        i := i + 1;
      }
      KeyAbsent(chains, nodes, key);
    }

    /** `index_lookup`. */
    method Lookup(key: int32) returns (status: IndexStatus, offset: int64)
      requires Valid()
      ensures status == (if key in M then IndexOk else IndexNotFound)
      ensures key in M ==> offset == M[key]
    {
      var node := FindNode(key);
      if node == null { return IndexNotFound, 0; }
      return IndexOk, node.offset;
    }

    /**
     `index_resize`: every node is relinked into the chain its hash selects among the new
     buckets. No node is allocated, dropped or changed in anything but its `next`.
     */
    method Resize(newCount: nat) returns (status: IndexStatus)
      requires Valid()
      modifies this`buckets, this`chains, nodes
      ensures Valid() && nodes == old(nodes) && M == old(M)
      ensures forall node :: node in nodes ==> node.offset == old(node.offset)
      ensures status == IndexOk || status == IndexAllocError
      ensures status == IndexOk ==> buckets.Length == newCount && fresh(buckets)
      ensures status != IndexOk ==> buckets == old(buckets) && chains == old(chains)
      ensures ample && newCount > old(buckets.Length) && IsPow2(newCount) && newCount * BUCKET_BYTES <= SIZE_MAX ==>
                status == IndexOk
    {
      hide Bucket, Counted, Placed, Stands;
      var granted := *;
      if newCount <= buckets.Length || !IsPow2(newCount) || newCount * BUCKET_BYTES > SIZE_MAX || !(granted || ample) {
        return IndexAllocError;
      }
      var newBuckets := new IndexNode?[newCount](_ => null);
      ghost var moved := MoveAll(newBuckets);
      buckets, chains := newBuckets, moved;
      return IndexOk;
    }

    /** One chain, and then the later ones are still linked. */
    method MoveNext(i: nat, newBuckets: array<IndexNode?>, ghost moved: seq<seq<IndexNode>>)
      returns (ghost moved': seq<seq<IndexNode>>)
      requires buckets.Length == |chains| && Placed(chains, nodes) && i < |chains| && newBuckets != buckets
      requires forall b :: i <= b < |chains| ==> Linked(buckets[b], chains[b])
      requires Partial(newBuckets, moved, Below(nodes, |chains|, i))
      modifies nodes`next, newBuckets
      ensures |moved'| == |moved| && Partial(newBuckets, moved', Below(nodes, |chains|, i + 1))
      ensures forall b :: i < b < |chains| ==> Linked(buckets[b], chains[b])
    {
      assert IsPow2(|chains|);
      hide Bucket, Placed, Below;
      BelowNext(chains, nodes, i);
      moved' := MoveChain(buckets[i], chains[i], newBuckets, moved, Below(nodes, |chains|, i));
      forall b | i < b < |chains| ensures Linked(buckets[b], chains[b]) {
        assert old(Linked(buckets[b], chains[b]));
        ChainsApart(chains, nodes, i, b);
        forall j | 0 <= j < |chains[b]| ensures LinkAt(chains[b], j) {
          assert old(LinkAt(chains[b], j));
        }
      }
    }

    /** The loops of `index_resize`. */
    method MoveAll(newBuckets: array<IndexNode?>) returns (ghost moved: seq<seq<IndexNode>>)
      requires Valid() && newBuckets != buckets && IsPow2(newBuckets.Length)
      requires forall b :: 0 <= b < newBuckets.Length ==> newBuckets[b] == null
      modifies nodes`next, newBuckets
      ensures Partial(newBuckets, moved, nodes)
    {
      var n := buckets.Length;
      hide Bucket, Counted, Placed, Below, Stands;
      moved := seq(newBuckets.Length, _ => []);
      BelowEnds(chains, nodes);
      EmptyPlaced(moved);
      for i := 0 to n
        invariant |moved| == newBuckets.Length && Partial(newBuckets, moved, Below(nodes, n, i))
        invariant forall b :: i <= b < n ==> Linked(buckets[b], chains[b])
      {
        moved := MoveNext(i, newBuckets, moved);
      }
    }

    /** Doubling the buckets when the load limit is reached. */
    method MakeRoom() returns (status: IndexStatus)
      requires Valid()
      modifies this`buckets, this`chains, nodes
      ensures Valid() && nodes == old(nodes) && M == old(M)
      ensures status == IndexOk || status == IndexAllocError
      ensures entryCount == old(entryCount) && (status == IndexOk ==> entryCount < LoadLimit(buckets.Length))
      ensures buckets == old(buckets) || (fresh(buckets) && buckets.Length == 2 * old(buckets.Length))
      ensures old(entryCount) < LoadLimit(old(buckets.Length)) ==> status == IndexOk && buckets == old(buckets)
      ensures status == IndexOk ==>
                (buckets == old(buckets) <==> 4 * old(entryCount) < 3 * old(buckets.Length))
      ensures ample && 2 * old(buckets.Length) * BUCKET_BYTES <= SIZE_MAX ==> status == IndexOk
    {
      hide Bucket, Counted, IsPow2, Linked, LoadLimit;
      BucketsArePow2(chains, nodes);
      ThreeQuarters(buckets.Length);
      ThreeQuarters(2 * buckets.Length);
      if entryCount >= LoadLimit(buckets.Length) {
        if buckets.Length > SIZE_MAX / 2 { return IndexAllocError; }
        status := Resize(buckets.Length * 2);
        return if status == IndexOk then IndexOk else IndexAllocError;
      }
      return IndexOk;
    }

    /** A new node for a key that is not there yet. */
    method Add(key: int32, offset: int64)
      requires Valid() && key !in M && !HasKey(nodes, key) && entryCount < LoadLimit(buckets.Length)
      modifies this`chains, this`nodes, this`M, this`entryCount, buckets
      ensures Valid() && fresh(nodes - old(nodes)) && M == old(M)[key := offset] && entryCount == old(entryCount) + 1
    {
      hide Bucket, Placed, HasKey, Counted, Stands, IsPow2, Linked;
      var added := new IndexNode(key, offset, null);
      ghost var all, m := nodes + {added}, M[key := offset];
      StandsWith(nodes, M, added);
      CountedWith(nodes, M, entryCount, added);
      ghost var relinked := Relink(added, buckets, chains, nodes);
      assert Stands(all, m);
      chains, nodes, M, entryCount := relinked, all, m, entryCount + 1;
    }

    /** A new offset for a key that is there. */
    method Replace(node: IndexNode, offset: int64)
      requires Valid() && node in nodes
      modifies node`offset, this`M
      ensures Valid() && M == old(M)[node.key := offset]
    {
      hide Bucket, Placed, Counted;
      node.offset := offset;
      CountedReplaced(nodes, M, entryCount, node.key, offset);
      M := M[node.key := offset];
      OneNodePerKey(chains, nodes);
    }

    /**
     `index_insert`. The map gains the entry, or has it replaced, or is left alone: when
     the key is there and must not be replaced, or when memory runs out.
     */
    method Insert(key: int32, offset: int64, replace: bool) returns (status: IndexStatus)
      requires Valid()
      modifies this, buckets, nodes
      ensures Valid() && fresh(nodes - old(nodes)) && (buckets == old(buckets) || fresh(buckets))
      ensures status in {IndexOk, IndexDuplicateKey, IndexAllocError}
      ensures key in old(M) ==> status == if replace then IndexOk else IndexDuplicateKey
      ensures key !in old(M) ==> status != IndexDuplicateKey
      ensures M == if status == IndexOk then old(M)[key := offset] else old(M)
      ensures entryCount == if status == IndexOk && key !in old(M) then old(entryCount) + 1 else old(entryCount)
      ensures old(entryCount) < LoadLimit(old(buckets.Length)) ==> buckets == old(buckets)
      ensures ample && CanAdd(old(entryCount), old(buckets.Length)) ==> status != IndexAllocError
      ensures buckets.Length == old(buckets.Length) || buckets.Length == 2 * old(buckets.Length)
      ensures status == IndexOk ==>
                (buckets == old(buckets) <==> key in old(M) || 4 * old(entryCount) < 3 * old(buckets.Length))
    {
      hide Bucket, Placed, Counted, Stands, HasKey, IsPow2;
      var node := FindNode(key);
      if node != null {
        if !replace { return IndexDuplicateKey; }
        Replace(node, offset);
        return IndexOk;
      }
      status := MakeRoom();
      if status != IndexOk { return; }
      var granted := *;
      if !(granted || ample) { return IndexAllocError; }
      Add(key, offset);
      return IndexOk;
    }
  }
}
