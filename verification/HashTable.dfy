/**
 The chained hash table of hash.cpp: an array of buckets, each the head of a doubly linked chain
 that grows at its front and is unlinked in place. Keys and values are the four-byte unsigned
 integers of its two uses.
 */
module HashTables {
  import opened MachineInts
  import opened Seqs
  import opened Sessions

  class HashNode {
    const key: uint32
    var value: uint32
    var prev: HashNode?
    var next: HashNode?

    constructor (key: uint32, value: uint32)
      ensures this.key == key && this.value == value && prev == null && next == null
    {
      this.key, this.value, prev, next := key, value, null, null;
    }
  }

  /** `hash_func`. Its result is always a bucket number, so the range check of
      `hash_get_bucket` never fails. */
  function HashFunc(buckets: nat, key: uint32): (id: nat)
    requires buckets > 0
    ensures id < buckets
  {
    key % buckets
  }

  lemma MultipleOutside(d: int, b: int)
    requires b >= 0
    ensures d > 0 ==> d * b >= b
    ensures d < 0 ==> d * b <= -b
  {
  }

  lemma QuotientIs(a: int, b: nat, q: int, r: nat)
    requires a == q * b + r && r < b
    ensures a / b == q && a % b == r
  {
    var d := a / b - q;
    assert d * b == r - a % b;
    MultipleOutside(d, b);
  }

  /** Two keys share a bucket exactly when they are a multiple of the number of buckets apart. */
  lemma SameBucketExactly(buckets: nat, k: uint32, l: uint32)
    requires buckets > 0
    ensures HashFunc(buckets, k) == HashFunc(buckets, l) <==> (k as int - l as int) % buckets == 0
  {
    var k1, l1: int := k as int, l as int;
    if k1 % buckets == l1 % buckets {
      QuotientIs(k1 - l1, buckets, k1 / buckets - l1 / buckets, 0);
    }
    if (k1 - l1) % buckets == 0 {
      var q := (k1 - l1) / buckets;
      assert k1 == (l1 / buckets + q) * buckets + l1 % buckets by {
        assert k1 - l1 == q * buckets;
      }
      QuotientIs(k1, buckets, l1 / buckets + q, l1 % buckets);
    }
  }

  /** The chain behind a bucket: `next` leads forward from the head, `prev` back again. */
  ghost predicate Chained(head: HashNode?, chain: seq<HashNode>)
    reads chain`prev, chain`next
  {
    && head == (if chain == [] then null else chain[0])
    && (forall i {:trigger chain[i].prev} :: 0 <= i < |chain| ==>
          chain[i].prev == if i == 0 then null else chain[i - 1])
    && (forall i {:trigger chain[i].next} :: 0 <= i < |chain| ==>
          chain[i].next == if i == |chain| - 1 then null else chain[i + 1])
  }

  /** The position of a key in a chain, or the length of the chain. */
  ghost function FindIn(chain: seq<HashNode>, key: uint32): (i: nat)
    ensures i <= |chain|
    ensures i < |chain| ==> chain[i].key == key
  {
    if chain == [] then 0
    else if chain[0].key == key then 0
    else 1 + FindIn(chain[1..], key)
  }

  /** Every key of the chain hashes to its bucket and occurs once. */
  ghost predicate Keyed(chain: seq<HashNode>, buckets: nat, b: nat)
    requires buckets > 0
  {
    chain != [] ==>
      && HashFunc(buckets, chain[0].key) == b
      && FindIn(chain[1..], chain[0].key) == |chain| - 1
      && Keyed(chain[1..], buckets, b)
  }

  lemma {:induction false} FindInIs(chain: seq<HashNode>, key: uint32, buckets: nat, b: nat)
    requires buckets > 0 && Keyed(chain, buckets, b)
    ensures forall i :: 0 <= i < |chain| ==> HashFunc(buckets, chain[i].key) == b
    ensures forall i :: 0 <= i < |chain| && chain[i].key == key ==> FindIn(chain, key) == i
  {
    if chain != [] {
      var rest := chain[1..];
      FindInIs(rest, key, buckets, b);
      assert forall i :: 1 <= i < |chain| ==> chain[i] == rest[i - 1];
      if chain[0].key == key {
        assert forall i :: 0 <= i < |rest| && rest[i].key == key ==> FindIn(rest, key) == i;
      }
    }
  }

  lemma KeyedNoDup(chain: seq<HashNode>, buckets: nat, b: nat)
    requires buckets > 0 && Keyed(chain, buckets, b)
    ensures NoDup(chain)
  {
    forall i, j | 0 <= i < j < |chain|
      ensures chain[i] != chain[j]
    {
      FindInIs(chain, chain[i].key, buckets, b);
    }
  }

  lemma FindInFront(node: HashNode, chain: seq<HashNode>, key: uint32)
    ensures FindIn([node] + chain, key) == if node.key == key then 0 else 1 + FindIn(chain, key)
  {
    assert ([node] + chain)[1..] == chain;
  }

  /** Removing one key leaves every other where it can be found. */
  lemma {:induction false} FindInCut(chain: seq<HashNode>, k: nat, key: uint32, buckets: nat, b: nat)
    requires buckets > 0 && Keyed(chain, buckets, b) && k < |chain|
    ensures var after := Without(chain, k);
      if key == chain[k].key || FindIn(chain, key) == |chain| then FindIn(after, key) == |after|
      else FindIn(after, key) < |after| && after[FindIn(after, key)] == chain[FindIn(chain, key)]
  {
    if k == 0 {
      assert Without(chain, k) == chain[1..];
    } else {
      WithoutTail(chain, k);
      FindInIs(chain, chain[k].key, buckets, b);
      FindInFront(chain[0], Without(chain[1..], k - 1), key);
      FindInCut(chain[1..], k - 1, key, buckets, b);
    }
  }

  lemma {:induction false} KeyedCut(chain: seq<HashNode>, k: nat, buckets: nat, b: nat)
    requires buckets > 0 && Keyed(chain, buckets, b) && k < |chain|
    ensures Keyed(Without(chain, k), buckets, b)
  {
    if k == 0 {
      assert Without(chain, k) == chain[1..];
    } else {
      WithoutTail(chain, k);
      FindInCut(chain[1..], k - 1, chain[0].key, buckets, b);
      KeyedCut(chain[1..], k - 1, buckets, b);
    }
  }

  /** What a chain says of a key. */
  ghost function ChainLookup(chain: seq<HashNode>, key: uint32): Option<uint32>
    reads chain`value
  {
    var i := FindIn(chain, key);
    if i < |chain| then Some(chain[i].value) else None
  }

  ghost function MapLookup(m: map<uint32, uint32>, key: uint32): Option<uint32> {
    if key in m then Some(m[key]) else None
  }

  /** What a chain says with a node in front. */
  lemma LookupInFront(node: HashNode, chain: seq<HashNode>, key: uint32)
    ensures ChainLookup([node] + chain, key)
      == if key == node.key then Some(node.value) else ChainLookup(chain, key)
  {
    assert ([node] + chain)[1..] == chain;
  }

  class HashTable {
    const buckets: nat
    const nodes: array<HashNode?>
    ghost var chains: seq<seq<HashNode>>
    ghost var contents: map<uint32, uint32>
    ghost var repr: set<HashNode>

    ghost predicate Shaped()
      reads this`chains, this`repr, nodes, repr`prev, repr`next
    {
      && 0 < buckets == nodes.Length == |chains|
      && (forall b :: 0 <= b < buckets ==> Keyed(chains[b], buckets, b))
      && (forall b :: 0 <= b < buckets ==> forall n :: n in chains[b] ==> n in repr)
      && (forall b :: 0 <= b < buckets ==> Chained(nodes[b], chains[b]))
    }

    /** What the chains say of a key. */
    ghost function Lookup(key: uint32): Option<uint32>
      requires Shaped()
      reads this`chains, this`repr, nodes, repr
    {
      ChainLookup(chains[HashFunc(buckets, key)], key)
    }

    /** The chains hold exactly the entries of `contents`. */
    ghost predicate Holds()
      requires Shaped()
      reads this, nodes, repr
    {
      forall key: uint32 :: MapLookup(contents, key) == Lookup(key)
    }

    ghost predicate Valid()
      reads this, nodes, repr
    {
      Shaped() && Holds()
    }

    /** `hash_alloc`, with `hash_func` as the hash function. */
    constructor (buckets: nat)
      requires buckets > 0
      ensures Valid() && contents == map[] && this.buckets == buckets
      ensures fresh(nodes) && fresh(repr)
    {
      this.buckets := buckets;
      nodes := new HashNode?[buckets](_ => null);
      chains := seq(buckets, _ => []);
      contents, repr := map[], {};
    }

    /** `hash_get_node_by_key`: walk the key's chain. */
    method GetNodeByKey(key: uint32) returns (node: HashNode?, ghost k: nat)
      requires Valid()
      ensures node == null <==> key !in contents
      ensures k == FindIn(chains[HashFunc(buckets, key)], key)
      ensures node != null ==>
        && k < |chains[HashFunc(buckets, key)]| && node == chains[HashFunc(buckets, key)][k]
        && node.key == key && node.value == contents[key]
    {
      var b := HashFunc(buckets, key);
      ghost var chain := chains[b];
      assert MapLookup(contents, key) == Lookup(key);
      node, k := nodes[b], 0;
      while node != null && node.key != key
        invariant k <= |chain| && node == (if k == |chain| then null else chain[k])
        invariant FindIn(chain, key) == k + FindIn(chain[k..], key)
        decreases |chain| - k
      {
        assert chain[k..][1..] == chain[k + 1..];
        node, k := node.next, k + 1;
      }
    }

    /** The node the table keeps for its key. */
    ghost predicate Owns(node: HashNode)
      requires Shaped()
      reads this`chains, this`repr, nodes, repr
    {
      var chain := chains[HashFunc(buckets, node.key)];
      FindIn(chain, node.key) < |chain| && chain[FindIn(chain, node.key)] == node
    }

    /** `hash_lookup_entry`: the node whose value field the caller may read or overwrite. */
    method HashLookupEntry(key: uint32) returns (node: HashNode?)
      requires Valid()
      ensures node == null <==> key !in contents
      ensures node != null ==> Owns(node) && node.key == key && node.value == contents[key]
    {
      ghost var k;
      node, k := GetNodeByKey(key);
    }

    /** An assignment through the value pointer a lookup returned. */
    method Store(node: HashNode, value: uint32)
      requires Valid() && Owns(node)
      modifies this`contents, node`value
      ensures Valid() && contents == old(contents)[node.key := value]
    {
      node.value := value;
      contents := contents[node.key := value];
      forall key: uint32
        ensures MapLookup(contents, key) == Lookup(key)
      {
        assert old(MapLookup(contents, key)) == old(Lookup(key));
      }
    }

    /** The insertion at the head of a bucket. */
    method PushFront(b: nat, node: HashNode, ghost chain: seq<HashNode>)
      requires b < nodes.Length && Chained(nodes[b], chain) && NoDup(chain) && node !in chain
      requires node.prev == null && node.next == null
      modifies nodes, node`next, chain`prev
      ensures Chained(nodes[b], [node] + chain)
      ensures forall c :: 0 <= c < nodes.Length && c != b ==> nodes[c] == old(nodes[c])
    {
      if nodes[b] == null {
        nodes[b] := node;
      } else {
        node.next := nodes[b];
        nodes[b].prev := node;
        nodes[b] := node;
      }
    }

    /** The unlinking of the k-th node of a bucket. */
    method Unlink(b: nat, node: HashNode, ghost chain: seq<HashNode>, ghost k: nat)
      requires b < nodes.Length && Chained(nodes[b], chain) && NoDup(chain) && k < |chain| && chain[k] == node
      modifies nodes, chain`prev, chain`next
      ensures Chained(nodes[b], Without(chain, k))
      ensures forall c :: 0 <= c < nodes.Length && c != b ==> nodes[c] == old(nodes[c])
    {
      if node.prev != null {
        node.prev.next := node.next;
      } else {
        nodes[b] := node.next;
      }
      if node.next != null {
        node.next.prev := node.prev;
      }
    }

    /** Nodes of different buckets are different. */
    twostate lemma BucketsDisjoint(b: nat)
      requires old(Shaped()) && b < buckets && chains == old(chains)
      ensures NoDup(chains[b])
      ensures forall c, n :: 0 <= c < buckets && c != b && n in chains[c] ==> n !in chains[b]
    {
      KeyedNoDup(chains[b], buckets, b);
      forall c, n | 0 <= c < buckets && c != b && n in chains[c]
        ensures n !in chains[b]
      {
        FindInIs(chains[c], n.key, buckets, c);
        FindInIs(chains[b], n.key, buckets, b);
      }
    }

    /** Relinking one chain leaves the other buckets as they were. */
    twostate lemma OtherBucketsKept(b: nat)
      requires old(Shaped()) && b < buckets
      requires chains == old(chains) && repr == old(repr)
      requires forall c :: 0 <= c < buckets && c != b ==> nodes[c] == old(nodes[c])
      requires forall n :: n in repr && n !in chains[b] ==> n.prev == old(n.prev) && n.next == old(n.next)
      ensures forall c :: 0 <= c < buckets && c != b ==> Chained(nodes[c], chains[c])
    {
      BucketsDisjoint(b);
      forall c | 0 <= c < buckets && c != b
        ensures Chained(nodes[c], chains[c])
      {
        var chain := chains[c];
        assert old(Chained(nodes[c], chain));
        assert forall i :: 0 <= i < |chain| ==> chain[i] in chains[c] && chain[i] !in chains[b];
        assert forall i :: 0 <= i < |chain| ==>
          chain[i].prev == old(chain[i].prev) && chain[i].next == old(chain[i].next);
      }
    }

    /** The table is well formed once one chain has been replaced. */
    twostate lemma ShapedAfter(b: nat, new after: seq<HashNode>)
      requires old(Shaped()) && b < buckets && chains == old(chains)[b := after] && repr >= old(repr)
      requires Keyed(after, buckets, b) && Chained(nodes[b], after) && forall n :: n in after ==> n in repr
      requires forall c :: 0 <= c < buckets && c != b ==> Chained(nodes[c], chains[c])
      ensures Shaped()
    {
    }

    /** Replacing one chain changes what is said of its keys only. */
    twostate lemma LookupsAfter(b: nat, new after: seq<HashNode>)
      requires old(Shaped()) && Shaped() && b < buckets && chains == old(chains)[b := after]
      requires forall n :: n in old(repr) ==> n.value == old(n.value)
      ensures forall key: uint32 ::
        Lookup(key) == if HashFunc(buckets, key) == b then ChainLookup(after, key) else old(Lookup(key))
    {
      forall key: uint32 | HashFunc(buckets, key) != b
        ensures Lookup(key) == old(Lookup(key))
      {
        var chain := chains[HashFunc(buckets, key)];
        assert forall i :: 0 <= i < |chain| ==> chain[i] in old(repr);
      }
    }

    /** The bucket of a key, with a node linked in front. */
    method Insert(node: HashNode)
      requires Shaped() && node !in repr && node.prev == null && node.next == null
      requires var chain := chains[HashFunc(buckets, node.key)]; FindIn(chain, node.key) == |chain|
      modifies this`chains, this`repr, nodes, repr`prev, node`next
      ensures Shaped() && repr == old(repr) + {node}
      ensures var b := HashFunc(buckets, node.key); chains == old(chains)[b := [node] + old(chains)[b]]
      ensures forall key: uint32 :: Lookup(key) == if key == node.key then Some(node.value) else old(Lookup(key))
    {
      var b := HashFunc(buckets, node.key);
      ghost var chain := chains[b];
      ghost var after := [node] + chain;
      assert after[1..] == chain;
      KeyedNoDup(chain, buckets, b);
      PushFront(b, node, chain);
      OtherBucketsKept(b);
      repr := repr + {node};
      chains := chains[b := after];
      ShapedAfter(b, after);
      LookupsAfter(b, after);
      forall key: uint32
        ensures Lookup(key) == if key == node.key then Some(node.value) else old(Lookup(key))
      {
        LookupInFront(node, chain, key);
      }
    }

    /** The part of `hash_add_entry` that links the new node in. */
    method AddNode(node: HashNode)
      requires Valid() && node.key !in contents && node !in repr && node.prev == null && node.next == null
      modifies this`chains, this`contents, this`repr, nodes, repr`prev, node`next
      ensures Valid() && repr == old(repr) + {node} && contents == old(contents)[node.key := node.value]
    {
      ghost var before := contents;
      assert Lookup(node.key) == MapLookup(before, node.key);
      Insert(node);
      assert forall other: uint32 ::
        Lookup(other) == if other == node.key then Some(node.value) else MapLookup(before, other);
      contents := before[node.key := node.value];
    }

    /** `hash_add_entry`: a duplicate key changes nothing. */
    method HashAddEntry(key: uint32, value: uint32)
      requires Valid()
      modifies this`chains, this`contents, this`repr, nodes, repr`prev
      ensures Valid() && repr >= old(repr) && fresh(repr - old(repr))
      ensures contents == if key in old(contents) then old(contents) else old(contents)[key := value]
      ensures key in old(contents) ==> chains == old(chains) && nodes[..] == old(nodes[..])
    {
      var found, k := GetNodeByKey(key);
      if found == null {
        var node := new HashNode(key, value);
        AddNode(node);
      }
    }

    /** The bucket of a key, without the node found for it. */
    method Remove(node: HashNode, ghost k: nat)
      requires Shaped()
      requires var chain := chains[HashFunc(buckets, node.key)]; k < |chain| && chain[k] == node
      modifies this`chains, nodes, repr`prev, repr`next
      ensures Shaped()
      ensures var b := HashFunc(buckets, node.key); chains == old(chains)[b := Without(old(chains)[b], k)]
      ensures forall key: uint32 :: Lookup(key) == if key == node.key then None else old(Lookup(key))
    {
      var b := HashFunc(buckets, node.key);
      ghost var chain, after := chains[b], Without(chains[b], k);
      KeyedNoDup(chain, buckets, b);
      Unlink(b, node, chain, k);
      OtherBucketsKept(b);
      KeyedCut(chain, k, buckets, b);
      chains := chains[b := after];
      ShapedAfter(b, after);
      LookupsAfter(b, after);
      forall key: uint32
        ensures Lookup(key) == if key == node.key then None else old(Lookup(key))
      {
        FindInCut(chain, k, key, buckets, b);
      }
    }

    /** `hash_free_entry`: only the given key goes, and a missing key changes nothing. */
    method HashFreeEntry(key: uint32)
      requires Valid()
      modifies this`chains, this`contents, nodes, repr`prev, repr`next
      ensures Valid() && contents == old(contents) - {key}
      ensures key !in old(contents) ==> chains == old(chains) && nodes[..] == old(nodes[..])
    {
      var node, k := GetNodeByKey(key);
      if node == null {
        return;
      }
      Remove(node, k);
      contents := contents - {key};
      forall other: uint32
        ensures MapLookup(contents, other) == Lookup(other)
      {
        assert old(MapLookup(contents, other)) == old(Lookup(other));
      }
    }
  }
}
