/**
  A hash table of chained nodes that live in a FixedLenPool. Buckets and links hold node positions;
  chains are listed here by the blocks that their nodes lie in.
 */
module HashPool {
  import opened FixedLenPool
  import opened Wrappers

  datatype Node<V> = Node(key: nat, value: V, next: nat)

  /** `c` lists the blocks of the nodes that the links starting at `first` run through, each once. */
  ghost predicate Chain<V>(node: map<nat, Node<V>>, first: nat, c: seq<nat>)
    decreases |c|
  {
    if c == [] then first == 0
    else
      && first == c[0] + NODE_OFFSET
      && c[0] in node && c[0] !in c[1..]
      && Chain(node, node[c[0]].next, c[1..])
  }

  /** Chain `b` holds nodes of its own bucket only, each the one that `slot` names for its key. */
  ghost predicate Placed<V>(node: map<nat, Node<V>>, slot: map<nat, nat>, n: nat, b: nat, c: seq<nat>)
    requires 0 < n
  {
    forall x :: x in c ==> x in node && node[x].key % n == b && node[x].key in slot && slot[node[x].key] == x
  }

  /** The table in memory, with the chain of each bucket and the block of each key. */
  datatype Table<V> = Table(
    buckets: seq<nat>, node: map<nat, Node<V>>, used: set<nat>, chains: seq<seq<nat>>, slot: map<nat, nat>)
  {
    /** Chains are acyclic, disjoint and in the right bucket; `slot` maps each key to its block. */
    ghost predicate Valid() {
      && 0 < |buckets| == |chains|
      && (forall b :: 0 <= b < |buckets| ==> Chain(node, buckets[b], chains[b]))
      && (forall b :: 0 <= b < |buckets| ==> Placed(node, slot, |buckets|, b, chains[b]))
      && SlotsOk() && UsedOk()
    }

    ghost predicate SlotsOk()
      requires 0 < |buckets| == |chains|
    {
      forall k :: k in slot ==>
        slot[k] in used && slot[k] in node && node[slot[k]].key == k && slot[k] in chains[k % |buckets|]
    }

    ghost predicate UsedOk() {
      forall x :: x in used ==> x in node && node[x].key in slot && slot[node[x].key] == x
    }

    /** The map that the table stands for. */
    ghost function Values(): map<nat, V> {
      map k | k in slot && slot[k] in node :: node[slot[k]].value
    }
  }

  // ---------- One chain ----------

  /** A write elsewhere leaves a chain as it is. */
  lemma {:induction false} ChainFrame<V>(node: map<nat, Node<V>>, first: nat, c: seq<nat>, x: nat, n: Node<V>)
    requires Chain(node, first, c) && x !in c
    ensures Chain(node[x := n], first, c)
    decreases |c|
  {
    if c != [] { ChainFrame(node, node[c[0]].next, c[1..], x, n); }
  }

  lemma ChainPush<V>(node: map<nat, Node<V>>, first: nat, c: seq<nat>, x: nat, n: Node<V>)
    requires Chain(node, first, c) && x !in c && n.next == first
    ensures Chain(node[x := n], x + NODE_OFFSET, [x] + c)
  {
    ChainFrame(node, first, c, x, n);
    assert ([x] + c)[1..] == c;
  }

  lemma DropSecond<V>(node: map<nat, Node<V>>, first: nat, c: seq<nat>)
    requires Chain(node, first, c) && |c| >= 2
    ensures c[0] in node && c[1] in node && c[0] != c[1]
    ensures Chain(node[c[0] := node[c[0]].(next := node[c[1]].next)], first, [c[0]] + c[2..])
  {
    assert c[1..][0] == c[1] && c[1..][1..] == c[2..];
    ChainFrame(node, node[c[1]].next, c[2..], c[0], node[c[0]].(next := node[c[1]].next));
    assert ([c[0]] + c[2..])[1..] == c[2..];
  }

  /** Unlinking the j-th node: the link before it takes over the link behind it. */
  lemma {:induction false} ChainDrop<V>(node: map<nat, Node<V>>, first: nat, c: seq<nat>, j: nat)
    requires Chain(node, first, c) && j < |c|
    ensures c[j] in node && c[j] !in c[..j] + c[j + 1..]
    ensures j == 0 ==> Chain(node, node[c[0]].next, c[1..])
    ensures j > 0 ==> c[j - 1] in node && c[j - 1] != c[j]
    ensures j > 0 ==> Chain(node[c[j - 1] := node[c[j - 1]].(next := node[c[j]].next)], first, c[..j] + c[j + 1..])
    decreases |c|
  {
    if j == 0 {
      assert c[..0] + c[1..] == c[1..];
    } else {
      var tail, rest := c[1..], c[..j] + c[j + 1..];
      ChainDrop(node, node[c[0]].next, tail, j - 1);
      assert tail[j - 1] == c[j];
      assert rest == [c[0]] + (tail[..j - 1] + tail[j..]);
      if j == 1 {
        DropSecond(node, first, c);
        assert rest == [c[0]] + c[2..];
      } else {
        assert tail[j - 2] == c[j - 1] && c[0] !in tail;
        assert rest[1..] == tail[..j - 1] + tail[j..];
      }
    }
  }

  // ---------- The table ----------

  /** The nodes of two buckets are different nodes, and unused ones are in none. */
  lemma OtherBucket<V>(t: Table<V>, b: nat, x: nat)
    requires t.Valid() && b < |t.buckets| && (x !in t.used || t.node[x].key % |t.buckets| != b)
    ensures x !in t.chains[b]
  {
  }

  lemma PlacedPush<V>(node: map<nat, Node<V>>, slot: map<nat, nat>, n: nat, b: nat, c: seq<nat>, x: nat, nx: Node<V>)
    requires 0 < n && Placed(node, slot, n, b, c) && x !in c && nx.key !in slot
    ensures Placed(node[x := nx], slot[nx.key := x], n, b, c)
    ensures nx.key % n == b ==> Placed(node[x := nx], slot[nx.key := x], n, b, [x] + c)
  {
  }

  lemma WrittenTwice<V>(node: map<nat, Node<V>>, x: nat, a: Node<V>, b: Node<V>)
    ensures node[x := a][x := b] == node[x := b]
  {
  }

  /** A new node at the head of its bucket. */
  ghost function Push<V>(t: Table<V>, k: nat, x: nat, v: V): Table<V>
    requires 0 < |t.buckets| == |t.chains|
  {
    var b := k % |t.buckets|;
    Table(t.buckets[b := x + NODE_OFFSET], t.node[x := Node(k, v, t.buckets[b])], t.used + {x},
          t.chains[b := [x] + t.chains[b]], t.slot[k := x])
  }

  lemma PushKeeps<V>(t: Table<V>, k: nat, x: nat, v: V)
    requires t.Valid() && k !in t.slot && x !in t.used
    ensures Push(t, k, x, v).Valid()
    ensures Push(t, k, x, v).Values() == t.Values()[k := v]
    ensures |Push(t, k, x, v).slot| == |t.slot| + 1
  {
    hide Chain, Placed, Table.SlotsOk, Table.UsedOk, Table.Values;
    PushChains(t, k, x, v);
    PushSlots(t, k, x, v);
    PushValues(t, k, x, v);
  }

  lemma PushSlots<V>(t: Table<V>, k: nat, x: nat, v: V)
    requires t.Valid() && k !in t.slot && x !in t.used
    ensures Push(t, k, x, v).SlotsOk() && Push(t, k, x, v).UsedOk()
  {
    hide Chain, Placed;
    var b := k % |t.buckets|;
    assert forall y :: y in t.chains[b] ==> y in [x] + t.chains[b];
  }

  lemma PushChains<V>(t: Table<V>, k: nat, x: nat, v: V)
    requires t.Valid() && k !in t.slot && x !in t.used
    ensures var t' := Push(t, k, x, v);
            forall b :: 0 <= b < |t.buckets| ==>
              Chain(t'.node, t'.buckets[b], t'.chains[b]) && Placed(t'.node, t'.slot, |t.buckets|, b, t'.chains[b])
  {
    hide Chain, Placed;
    var b := k % |t.buckets|;
    var n := Node(k, v, t.buckets[b]);
    var t' := Push(t, k, x, v);
    forall b' | 0 <= b' < |t.buckets|
      ensures Chain(t'.node, t'.buckets[b'], t'.chains[b'])
      ensures Placed(t'.node, t'.slot, |t.buckets|, b', t'.chains[b'])
    {
      OtherBucket(t, b', x);
      PlacedPush(t.node, t.slot, |t.buckets|, b', t.chains[b'], x, n);
      if b' == b {
        ChainPush(t.node, t.buckets[b], t.chains[b], x, n);
      } else {
        ChainFrame(t.node, t.buckets[b'], t.chains[b'], x, n);
      }
    }
  }

  lemma PushValues<V>(t: Table<V>, k: nat, x: nat, v: V)
    requires t.Valid() && k !in t.slot && x !in t.used
    ensures Push(t, k, x, v).Values() == t.Values()[k := v]
    ensures |Push(t, k, x, v).slot| == |t.slot| + 1
  {
    hide Chain, Placed;
  }

  /** The chain without its j-th node, and the memory after its link was taken over. */
  function Without(c: seq<nat>, j: nat): seq<nat>
    requires j < |c|
  {
    c[..j] + c[j + 1..]
  }

  function Relinked<V>(node: map<nat, Node<V>>, c: seq<nat>, j: nat): map<nat, Node<V>>
    requires j < |c| && c[j] in node && (j > 0 ==> c[j - 1] in node)
  {
    if j > 0 then node[c[j - 1] := node[c[j - 1]].(next := node[c[j]].next)] else node
  }

  lemma PlacedDrop<V>(node: map<nat, Node<V>>, slot: map<nat, nat>, n: nat, b: nat, c: seq<nat>, j: nat)
    requires 0 < n && Placed(node, slot, n, b, c) && j < |c| && c[j] !in Without(c, j)
    ensures c[j] in node && (j > 0 ==> c[j - 1] in node)
    ensures Placed(Relinked(node, c, j), slot - {node[c[j]].key}, n, b, Without(c, j))
  {
  }

  lemma PlacedElsewhere<V>(
    node: map<nat, Node<V>>, node': map<nat, Node<V>>, slot: map<nat, nat>, n: nat, b: nat, c: seq<nat>, k: nat)
    requires 0 < n && Placed(node, slot, n, b, c) && k % n != b
    requires forall x :: x in node ==> x in node' && node'[x].key == node[x].key
    ensures Placed(node', slot - {k}, n, b, c)
  {
  }

  /** Only a link differs. */
  lemma RelinkedSame<V>(node: map<nat, Node<V>>, c: seq<nat>, j: nat)
    requires j < |c| && c[j] in node && (j > 0 ==> c[j - 1] in node)
    ensures Relinked(node, c, j).Keys == node.Keys
    ensures var node' := Relinked(node, c, j);
            forall x :: x in node ==> x in node' && node'[x].key == node[x].key && node'[x].value == node[x].value
  {
  }

  /** The j-th node of the chain is the one that `slot` names for this key. */
  ghost predicate IsNode<V>(t: Table<V>, k: nat, j: nat)
    requires 0 < |t.buckets| == |t.chains|
  {
    var c := t.chains[k % |t.buckets|];
    && k in t.slot && j < |c| && c[j] == t.slot[k] && c[j] in t.node
    && (j > 0 ==> c[j - 1] in t.node && c[j - 1] != c[j])
  }

  /** The table once that node was unlinked and given back. */
  ghost function Cut<V>(t: Table<V>, k: nat, j: nat): Table<V>
    requires 0 < |t.buckets| == |t.chains| && IsNode(t, k, j)
  {
    var b := k % |t.buckets|;
    var c, x := t.chains[b], t.slot[k];
    Table(if j == 0 then t.buckets[b := t.node[x].next] else t.buckets,
          Relinked(t.node, c, j), t.used - {x}, t.chains[b := Without(c, j)], t.slot - {k})
  }

  /** Another bucket does not notice. */
  lemma CutElsewhere<V>(t: Table<V>, k: nat, j: nat, b: nat)
    requires t.Valid() && IsNode(t, k, j) && b < |t.buckets| && k % |t.buckets| != b
    ensures var node' := Relinked(t.node, t.chains[k % |t.buckets|], j);
            Chain(node', t.buckets[b], t.chains[b]) && Placed(node', t.slot - {k}, |t.buckets|, b, t.chains[b])
  {
    hide Chain, Placed;
    var c := t.chains[k % |t.buckets|];
    RelinkedSame(t.node, c, j);
    PlacedElsewhere(t.node, Relinked(t.node, c, j), t.slot, |t.buckets|, b, t.chains[b], k);
    if j > 0 {
      KeyOf(t.node, t.slot, |t.buckets|, k % |t.buckets|, c, j - 1);
      OtherBucket(t, b, c[j - 1]);
      ChainFrame(t.node, t.buckets[b], t.chains[b], c[j - 1], Relinked(t.node, c, j)[c[j - 1]]);
    }
  }

  lemma CutHere<V>(t: Table<V>, k: nat, j: nat)
    requires t.Valid() && IsNode(t, k, j)
    ensures var t' := Cut(t, k, j); var b := k % |t.buckets|;
            Chain(t'.node, t'.buckets[b], t'.chains[b]) && Placed(t'.node, t'.slot, |t.buckets|, b, t'.chains[b])
  {
    hide Chain, Placed;
    var b := k % |t.buckets|;
    var c := t.chains[b];
    ChainDrop(t.node, t.buckets[b], c, j);
    PlacedDrop(t.node, t.slot, |t.buckets|, b, c, j);
    assert j == 0 ==> Without(c, j) == c[1..];
  }

  lemma CutSlots<V>(t: Table<V>, k: nat, j: nat)
    requires t.Valid() && IsNode(t, k, j)
    ensures Cut(t, k, j).SlotsOk() && Cut(t, k, j).UsedOk()
  {
    hide Chain, Placed, Relinked, Without;
    var b := k % |t.buckets|;
    RelinkedSame(t.node, t.chains[b], j);
    forall k' | k' in t.slot && k' != k ensures t.slot[k'] in Cut(t, k, j).chains[k' % |t.buckets|] {
      if k' % |t.buckets| == b { StillThere(t.chains[b], j, t.slot[k']); }
    }
  }

  lemma CutValues<V>(t: Table<V>, k: nat, j: nat)
    requires t.Valid() && IsNode(t, k, j)
    ensures Cut(t, k, j).Values() == t.Values() - {k}
    ensures |Cut(t, k, j).slot| == |t.slot| - 1
  {
    hide Chain, Placed, Relinked, Without;
    RelinkedSame(t.node, t.chains[k % |t.buckets|], j);
    assert (t.slot - {k}).Keys == t.slot.Keys - {k};
  }

  lemma DropKeeps<V>(t: Table<V>, k: nat, j: nat)
    requires t.Valid() && IsNode(t, k, j)
    ensures Cut(t, k, j).Valid()
    ensures Cut(t, k, j).Values() == t.Values() - {k}
    ensures |Cut(t, k, j).slot| == |t.slot| - 1
  {
    hide Chain, Placed, Relinked, Without;
    CutHere(t, k, j);
    CutSlots(t, k, j);
    CutValues(t, k, j);
    var t' := Cut(t, k, j);
    forall b | 0 <= b < |t.buckets|
      ensures Chain(t'.node, t'.buckets[b], t'.chains[b]) && Placed(t'.node, t'.slot, |t.buckets|, b, t'.chains[b])
    {
      if b != k % |t.buckets| { CutElsewhere(t, k, j, b); }
    }
  }

  lemma KeyOf<V>(node: map<nat, Node<V>>, slot: map<nat, nat>, n: nat, b: nat, c: seq<nat>, i: nat)
    requires 0 < n && Placed(node, slot, n, b, c) && i < |c|
    ensures c[i] in node && node[c[i]].key % n == b
  {
  }

  lemma StillThere(c: seq<nat>, j: nat, x: nat)
    requires j < |c| && x in c && x != c[j]
    ensures x in Without(c, j)
  {
  }

  // ---------- The map that the table stands for ----------

  datatype Op<V> = AllocOp(key: nat) | InsertOp(key: nat, value: V) | GetOp(key: nat) | FreeOp(key: nat)

  /** What an operation does to a map that may hold at most `max` keys, and what it answers. */
  function Apply<V>(m: map<nat, V>, max: nat, zero: V, op: Op<V>): (map<nat, V>, Option<V>) {
    match op
    case AllocOp(k) => if k in m || |m| == max then (m, None) else (m[k := zero], Some(zero))
    case InsertOp(k, v) => if k in m || |m| == max then (m, None) else (m[k := v], Some(v))
    case GetOp(k) => (m, if k in m then Some(m[k]) else None)
    case FreeOp(k) => if k in m then (m - {k}, Some(m[k])) else (m, None)
  }

  function ApplyAll<V>(m: map<nat, V>, max: nat, zero: V, ops: seq<Op<V>>): (map<nat, V>, seq<Option<V>>) {
    if ops == [] then (m, [])
    else
      var (m1, rs) := ApplyAll(m, max, zero, ops[..|ops| - 1]);
      var (m2, r) := Apply(m1, max, zero, ops[|ops| - 1]);
      (m2, rs + [r])
  }

  lemma ValuesKeys<V>(t: Table<V>)
    requires t.Valid()
    ensures 0 < |t.buckets| == |t.chains|
    ensures t.Values().Keys == t.slot.Keys && |t.Values()| == |t.slot|
    ensures forall k :: k in t.slot ==>
              t.slot[k] in t.used && t.slot[k] in t.node && t.Values()[k] == t.node[t.slot[k]].value
  {
    hide Chain, Placed;
  }

  /** The walk along one chain; `i` is where the key was found, or the length of the chain. */
  method Walk<V>(node: map<nat, Node<V>>, first: nat, key: nat, ghost c: seq<nat>)
    returns (p: nat, prev: nat, ghost i: nat)
    requires Chain(node, first, c)
    ensures i <= |c| && forall j :: 0 <= j < i ==> c[j] in node && node[c[j]].key != key
    ensures if i < |c| then p == c[i] + NODE_OFFSET && c[i] in node && node[c[i]].key == key else p == 0
    ensures if i == 0 then prev == 0 else prev == c[i - 1] + NODE_OFFSET
  {
    p, prev, i := first, 0, 0;
    while p != 0
      invariant i <= |c| && Chain(node, p, c[i..])
      invariant forall j :: 0 <= j < i ==> c[j] in node && node[c[j]].key != key
      invariant if i == 0 then prev == 0 else prev == c[i - 1] + NODE_OFFSET
      decreases |c| - i
    {
      assert c[i..][0] == c[i] && c[i..][1..] == c[i + 1..];
      var n := node[p - NODE_OFFSET];
      if n.key == key { return; }
      prev, p, i := p, n.next, i + 1;
    }
  }

  /** The walk along the key's bucket finds the node that `slot` names, if any. */
  lemma WalkFinds<V>(t: Table<V>, key: nat, i: nat)
    requires t.Valid()
    requires var c := t.chains[key % |t.buckets|];
             && i <= |c| && (forall j :: 0 <= j < i ==> c[j] in t.node && t.node[c[j]].key != key)
             && (i < |c| ==> c[i] in t.node && t.node[c[i]].key == key)
    ensures i < |t.chains[key % |t.buckets|]| ==> IsNode(t, key, i)
    ensures i == |t.chains[key % |t.buckets|]| ==> key !in t.slot
  {
    var b := key % |t.buckets|;
    if i < |t.chains[b]| { ChainDrop(t.node, t.buckets[b], t.chains[b], i); }
  }

  lemma {:induction false} ChainSameLinks<V>(node: map<nat, Node<V>>, first: nat, c: seq<nat>, x: nat, v: V)
    requires Chain(node, first, c) && x in node
    ensures Chain(node[x := node[x].(value := v)], first, c)
    decreases |c|
  {
    if c != [] { ChainSameLinks(node, node[c[0]].next, c[1..], x, v); }
  }

  /** Writing a value through the pointer that Alloc or Get returned changes that value alone. */
  lemma StoreKeeps<V>(t: Table<V>, k: nat, v: V)
    requires t.Valid() && k in t.slot
    ensures t.slot[k] in t.node
    ensures var t' := t.(node := t.node[t.slot[k] := t.node[t.slot[k]].(value := v)]);
            t'.Valid() && t'.Values() == t.Values()[k := v]
  {
    hide Chain;
    var node' := t.node[t.slot[k] := t.node[t.slot[k]].(value := v)];
    forall b | 0 <= b < |t.buckets|
      ensures Chain(node', t.buckets[b], t.chains[b]) && Placed(node', t.slot, |t.buckets|, b, t.chains[b])
    {
      ChainSameLinks(t.node, t.buckets[b], t.chains[b], t.slot[k], v);
      assert Placed(t.node, t.slot, |t.buckets|, b, t.chains[b]);
    }
  }

  // ---------- The object ----------

  class HashPool<V> {
    const pool: FixedLenPool<Node<V>>
    const buckets: array<nat>
    const maxNode: nat
    const zero: V
    var nodeNum: nat

    ghost var chains: seq<seq<nat>>
    ghost var slot: map<nat, nat>

    ghost function Value(): Table<V>
      reads this, pool, buckets
    {
      Table(buckets[..], pool.node, Used(pool.next), chains, slot)
    }

    ghost predicate Valid()
      reads this, pool, buckets
    {
      && pool.Valid() && pool.header.maxNode == maxNode
      && Value().Valid() && nodeNum == |slot| == |Used(pool.next)|
    }

    /** The table as a map. */
    ghost function Contents(): map<nat, V>
      reads this, pool, buckets
    {
      Value().Values()
    }

    /** Init on fresh memory that is large enough, with at least one bucket. */
    constructor (bucketNum: nat, maxNode: nat, nodeSize: nat, zero: V)
      requires 0 < bucketNum && GetAllocSize(maxNode, nodeSize) < INVALID_REF
      ensures Valid() && Contents() == map[] && this.maxNode == maxNode && this.zero == zero
      ensures buckets.Length == bucketNum && pool.header.nodeSize == nodeSize
      ensures fresh(pool) && fresh(buckets)
    {
      this.maxNode, this.zero, nodeNum := maxNode, zero, 0;
      buckets := new nat[bucketNum](_ => 0);
      pool := new FixedLenPool<Node<V>>(maxNode, nodeSize);
      chains, slot := seq(bucketNum, _ => []), map[];
    }

    /** Init with check_header, on memory that a table already uses: its shape and the memory's size must agree. */
    method Attach(memSize: nat, bucketNum: nat, maxNode: nat, nodeSize: nat) returns (ok: bool)
      requires Valid()
      ensures ok <==> && GetMaxSize(bucketNum, maxNode, nodeSize) <= memSize && bucketNum == buckets.Length
                      && maxNode == this.maxNode && nodeSize == pool.header.nodeSize
    {
      hide ListOk, Carved, HeaderOk, Used;
      CarvedCount(pool.header, pool.next);
      UsedCount(pool.next, pool.freeList, pool.free);
      CarveIff(pool.header);
      if memSize < GetMaxSize(bucketNum, maxNode, nodeSize) { return false; }
      if buckets.Length != bucketNum || this.maxNode != maxNode
         || nodeNum > maxNode || pool.header.nodeSize != nodeSize {
        return false;
      }
      ok := pool.Attach(maxNode, nodeSize);
    }

    /** Walks the key's bucket: where its node is, where the one before it is, and the index in the chain. */
    method Find(key: nat) returns (p: nat, prev: nat, ghost i: nat)
      requires Valid()
      ensures 0 < buckets.Length == |chains|
      ensures key !in slot ==> p == 0
      ensures key in slot ==>
                && IsNode(Value(), key, i) && p == slot[key] + NODE_OFFSET
                && prev == if i == 0 then 0 else chains[key % buckets.Length][i - 1] + NODE_OFFSET
    {
      hide HeaderOk, Carved, ListOk, Used, Chain, Placed;
      ValuesKeys(Value());
      p, prev, i := Walk(pool.node, buckets[key % buckets.Length], key, chains[key % buckets.Length]);
      WalkFinds(Value(), key, i);
    }

    method GetNode(key: nat) returns (r: Option<nat>)
      requires Valid()
      ensures r.Some? <==> key in slot
      ensures r.Some? ==> NODE_OFFSET <= r.value && r.value - NODE_OFFSET == slot[key]
    {
      hide Valid;
      var p, _, _ := Find(key);
      r := if p == 0 then None else Some(p);
    }

    /** Alloc: a cleared node for a new key; refused exactly for a known key or a full table. */
    method Alloc(key: nat) returns (r: Option<nat>)
      requires Valid()
      modifies this, pool, buckets
      ensures Valid()
      ensures r.None? <==> key in old(Contents()) || |old(Contents())| == maxNode
      ensures r.None? ==> Contents() == old(Contents())
      ensures r.Some? ==> Contents() == old(Contents())[key := zero]
      ensures r.Some? ==> key in slot && NODE_OFFSET <= r.value && r.value - NODE_OFFSET == slot[key]
    {
      hide FixedLenPool.Valid, Table.Valid, Used, Table.Values, IsNode;
      ValuesKeys(Value());
      r := GetNode(key);
      if r.Some? { return None; }
      r := Add(key);
    }

    /** Alloc for a key that is not there. */
    method Add(key: nat) returns (r: Option<nat>)
      requires Valid() && key !in slot
      modifies this, pool, buckets
      ensures Valid() && (r.None? <==> |old(slot)| == maxNode)
      ensures r.None? ==> Contents() == old(Contents())
      ensures r.Some? ==> Contents() == old(Contents())[key := zero]
      ensures r.Some? ==> key in slot && NODE_OFFSET <= r.value && r.value - NODE_OFFSET == slot[key]
    {
      hide FixedLenPool.Valid, Table.Valid, Used, Table.Values;
      ghost var t := Value();
      r := NewNode();
      if r.None? { return; }
      assert buckets[..] == t.buckets;
      Enter(key, r.value - NODE_OFFSET, t);
    }

    /** A cleared node of the pool, not yet in the table. */
    method NewNode() returns (r: Option<nat>)
      requires pool.Valid() && pool.header.maxNode == maxNode
      modifies pool
      ensures pool.Valid() && pool.header.maxNode == maxNode
      ensures r.None? <==> |Used(old(pool.next))| == maxNode
      ensures r.None? ==> pool.next == old(pool.next) && pool.node == old(pool.node)
      ensures r.Some? ==>
                var x := r.value - NODE_OFFSET;
                && 0 <= x && x !in Used(old(pool.next)) && Used(pool.next) == Used(old(pool.next)) + {x}
                && pool.node == old(pool.node)[x := Node(0, zero, 0)]
    {
      hide FixedLenPool.Valid, Used;
      r := pool.Alloc(true, Node(0, zero, 0), Node(0, zero, 0));
    }

    /** The new node enters the table. */
    method Enter(key: nat, x: nat, ghost t: Table<V>)
      requires pool.Valid() && pool.header.maxNode == maxNode
      requires t.Valid() && t.buckets == buckets[..] && t.chains == chains && t.slot == slot
      requires nodeNum == |slot| == |t.used|
      requires key !in slot && x !in t.used
      requires Used(pool.next) == t.used + {x} && pool.node == t.node[x := Node(0, zero, 0)]
      modifies this, pool`node, buckets
      ensures Valid() && Contents() == t.Values()[key := zero] && key in slot && slot[key] == x
    {
      hide FixedLenPool.Valid, Table.Valid, Used, Table.Values;
      ValuesKeys(t);
      PushKeeps(t, key, x, zero);
      WrittenTwice(t.node, x, Node(0, zero, 0), Node(key, zero, t.buckets[key % |t.buckets|]));
      LinkFirst(key, x);
      assert pool.node == Push(t, key, x, zero).node;
      chains := chains[key % |t.buckets| := [x] + chains[key % |t.buckets|]];
      slot := slot[key := x];
      nodeNum := nodeNum + 1;
      assert Value() == Push(t, key, x, zero);
    }

    /** The end of Alloc: the node gets its key and becomes the first of its bucket. */
    method LinkFirst(key: nat, x: nat)
      requires pool.Valid() && 0 < buckets.Length && x in pool.node
      modifies pool`node, buckets
      ensures pool.Valid()
      ensures var index := key % buckets.Length;
              && buckets[..] == old(buckets[..])[index := x + NODE_OFFSET]
              && pool.node == old(pool.node)[x := Node(key, old(pool.node)[x].value, old(buckets[..])[index])]
    {
      hide HeaderOk, Carved, ListOk;
      var index := key % buckets.Length;
      pool.node := pool.node[x := pool.node[x].(key := key)];
      if buckets[index] == 0 {
        pool.node := pool.node[x := pool.node[x].(next := 0)];
      } else {
        pool.node := pool.node[x := pool.node[x].(next := buckets[index])];
      }
      buckets[index] := x + NODE_OFFSET;
    }

    method Insert(key: nat, value: V) returns (r: Option<nat>)
      requires Valid()
      modifies this, pool, buckets
      ensures Valid()
      ensures r.None? <==> key in old(Contents()) || |old(Contents())| == maxNode
      ensures Contents() == if r.None? then old(Contents()) else old(Contents())[key := value]
      ensures r.Some? ==> key in slot && NODE_OFFSET <= r.value && r.value - NODE_OFFSET == slot[key]
    {
      hide HeaderOk, Carved, ListOk, Table.Valid, Used, Table.Values;
      r := Alloc(key);
      if r.Some? {
        var x := r.value - NODE_OFFSET;
        StoreKeeps(Value(), key, value);
        pool.node := pool.node[x := pool.node[x].(value := value)];
      }
    }

    /** Get is map lookup. */
    method Get(key: nat) returns (v: Option<V>)
      requires Valid()
      ensures v == if key in Contents() then Some(Contents()[key]) else None
    {
      hide HeaderOk, Carved, ListOk, Table.Valid, Used, Table.Values;
      ValuesKeys(Value());
      var p := GetNode(key);
      v := if p.None? then None else Some(pool.node[p.value - NODE_OFFSET].value);
    }

    /** Free removes exactly the key; the inner pool never refuses the node. */
    method Free(key: nat) returns (ok: bool)
      requires Valid()
      modifies this, pool, buckets
      ensures Valid()
      ensures ok <==> key in old(Contents())
      ensures Contents() == if ok then old(Contents()) - {key} else old(Contents())
    {
      hide HeaderOk, Carved, ListOk, Table.Valid, Used, Table.Values, IsNode;
      ValuesKeys(Value());
      var p, prev, i := Find(key);
      if p == 0 { return false; }
      ok := Remove(key, p, prev, i);
    }

    /** The body of Free once the node was found. */
    method Remove(key: nat, p: nat, prev: nat, ghost i: nat) returns (ok: bool)
      requires Valid() && 0 < buckets.Length == |chains| && IsNode(Value(), key, i) && p == slot[key] + NODE_OFFSET
      requires prev == if i == 0 then 0 else chains[key % buckets.Length][i - 1] + NODE_OFFSET
      modifies this, pool, buckets
      ensures Valid() && ok && Contents() == old(Contents()) - {key}
    {
      hide FixedLenPool.Valid, Table.Valid, Used, Table.Values, Relinked, Without;
      ghost var t := Value();
      ghost var c := chains[key % buckets.Length];
      ValuesKeys(t);
      DropKeeps(t, key, i);
      Unlink(key % buckets.Length, p - NODE_OFFSET, prev, c, i);
      nodeNum := nodeNum - 1;
      ok := pool.Free(p);
      if !ok { assert false; }
      chains := chains[key % |t.buckets| := Without(c, i)];
      slot := slot - {key};
      assert Value() == Cut(t, key, i);
    }

    /** The link before the i-th node, in the bucket or in the previous node, takes over its own link. */
    method Unlink(index: nat, x: nat, prev: nat, ghost c: seq<nat>, ghost i: nat)
      requires pool.Valid() && index < buckets.Length && i < |c| && x == c[i] && x in pool.node
      requires if i == 0 then prev == 0 else prev == c[i - 1] + NODE_OFFSET && c[i - 1] in pool.node
      modifies pool`node, buckets
      ensures pool.Valid() && pool.node == Relinked(old(pool.node), c, i)
      ensures buckets[..] == if i == 0 then old(buckets[..])[index := old(pool.node)[x].next] else old(buckets[..])
    {
      hide HeaderOk, Carved, ListOk;
      var behind := pool.node[x].next;
      if prev != 0 {
        pool.node := pool.node[prev - NODE_OFFSET := pool.node[prev - NODE_OFFSET].(next := behind)];
      } else {
        buckets[index] := behind;
      }
    }

    /** Any sequence of operations acts on the table, and answers, as it does on a bounded map. */
    method Replay(ops: seq<Op<V>>) returns (rs: seq<Option<V>>)
      requires Valid()
      modifies this, pool, buckets
      ensures Valid() && (Contents(), rs) == ApplyAll(old(Contents()), maxNode, zero, ops)
    {
      hide Valid, Contents;
      rs := [];
      for i := 0 to |ops|
        invariant Valid() && (Contents(), rs) == ApplyAll(old(Contents()), maxNode, zero, ops[..i])
      {
        assert ops[..i + 1][..i] == ops[..i];
        var v := None;
        match ops[i] {
          case AllocOp(k) =>
            var r := Alloc(k);
            v := if r.Some? then Some(zero) else None;
          case InsertOp(k, value) =>
            var r := Insert(k, value);
            v := if r.Some? then Some(value) else None;
          case GetOp(k) =>
            v := Get(k);
          case FreeOp(k) =>
            v := Get(k);
            var ok := Free(k);
        }
        rs := rs + [v];
      }
      assert ops[..|ops|] == ops;
    }
  }

  const HASH_HEADER := 32  // sizeof(HashHeader)

  function GetMaxSize(bucketNum: nat, maxNode: nat, nodeSize: nat): nat {
    HASH_HEADER + 8 * bucketNum + GetAllocSize(maxNode, nodeSize)
  }

  /** Init on fresh memory: refused exactly when the memory is too small. */
  method Init<V>(memSize: nat, bucketNum: nat, maxNode: nat, nodeSize: nat, zero: V) returns (h: HashPool?<V>)
    requires 0 < bucketNum && GetAllocSize(maxNode, nodeSize) < INVALID_REF
    ensures h == null <==> memSize < GetMaxSize(bucketNum, maxNode, nodeSize)
    ensures h != null ==> h.Valid() && h.Contents() == map[] && h.maxNode == maxNode && h.zero == zero
  {
    if memSize < GetMaxSize(bucketNum, maxNode, nodeSize) { return null; }
    h := new HashPool(bucketNum, maxNode, nodeSize, zero);
  }
}
