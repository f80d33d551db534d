/**
  A pool of equally long nodes in one piece of memory: a header, then blocks that are carved off one
  after the other and kept in a free list once they are given back. Positions are byte distances from
  the header, as `Ref` gives them; `Deref` is taken as its inverse, which DerefAsWritten qualifies.
 */
module FixedLenPool {
  import opened Bytes
  import opened Wrappers

  const HEADER := 56        // sizeof(Header)
  const NODE_OFFSET := 8    // offsetof(Block, node)
  const INVALID_REF := 0xFFFF_FFFF_FFFF_FFFF

  function GetBlockSize(nodeSize: nat): (r: nat)
    ensures nodeSize + NODE_OFFSET <= r < nodeSize + NODE_OFFSET + 8 && r % 8 == 0
  {
    (nodeSize + NODE_OFFSET + 7) / 8 * 8
  }

  function GetAllocSize(maxNode: nat, nodeSize: nat): nat {
    HEADER + maxNode * GetBlockSize(nodeSize)
  }

  // ---------- Ref and Deref on addresses ----------

  function Ref(header: nat, p: nat): nat {
    (p - header) % WORD64
  }

  /** `header_ + pos` on a `Header*`: the compiler scales `pos` by sizeof(Header). */
  function DerefAsWritten(header: nat, pos: nat): nat {
    (header + HEADER * pos) % WORD64
  }

  /** As written, Deref undoes Ref at position 0 only: 55 * pos is a multiple of 2^64 for no other. */
  lemma DerefIsInverseIff(header: nat, pos: nat)
    requires pos < WORD64 && header < WORD64
    ensures Ref(header, DerefAsWritten(header, pos)) == pos <==> pos == 0
  {
    var p := DerefAsWritten(header, pos);
    var q := (header + HEADER * pos) / WORD64;
    if Ref(header, p) == pos {
      var m := q + (p - header) / WORD64;
      assert 55 * pos == m * WORD64;
      var inverse := 8049488323073258887;  // of 55, modulo 2^64
      assert 55 * inverse == 1 + 24 * WORD64;
      assert pos == (m * inverse - 24 * pos) * WORD64;
    }
  }

  // ---------- Arithmetic of block positions ----------

  lemma SameResidue(a: nat, b: nat, m: nat)
    requires 0 < m && a % m == b % m && a <= b < a + m
    ensures a == b
  {
    assert a == m * (a / m) + a % m && b == m * (b / m) + b % m;
    Multiples(m, b / m - a / m);
    assert b - a == m * (b / m - a / m);
  }

  lemma RoomIff(n: nat, max: nat, size: nat)
    requires 0 < size && n <= max
    ensures HEADER + n * size + size <= HEADER + max * size <==> n < max
    ensures HEADER + n * size <= HEADER + max * size
    ensures n * size + size == (n + 1) * size
  {
  }

  /** Carving adds one position to the valid ones: the old end of the carved part. */
  lemma OneMore(end: nat, size: nat)
    requires 0 < size && end % size == HEADER % size && HEADER <= end
    ensures (end + size) % size == HEADER % size
    ensures forall x: nat {:trigger x % size} :: HEADER <= x && x % size == HEADER % size ==>
              (x + size <= end + size <==> x + size <= end || x == end)
  {
    NextResidue(end, size);
    forall x: nat | HEADER <= x && x % size == HEADER % size && x <= end && end < x + size
      ensures x == end
    {
      SameResidue(x, end, size);
    }
  }

  // ---------- The free list ----------

  function Nth(free: seq<nat>, i: nat): nat {
    if i < |free| then free[i] else INVALID_REF
  }

  /** `free` lists the blocks that the links starting at `first` run through, without repetition. */
  ghost predicate Linked(next: map<nat, nat>, first: nat, free: seq<nat>) {
    && first == Nth(free, 0)
    && (forall i :: 0 <= i < |free| ==> free[i] in next)
    && (forall i {:trigger next[free[i]]} :: 0 <= i < |free| ==> next[free[i]] == Nth(free, i + 1))
    && (forall i, j :: 0 <= i < j < |free| ==> free[i] != free[j])
  }

  lemma LinkKeeps(next: map<nat, nat>, first: nat, free: seq<nat>, b: nat)
    requires Linked(next, first, free) && b in next && b !in free
    ensures Linked(next[b := first], b, [b] + free)
  {
  }

  lemma UnlinkKeeps(next: map<nat, nat>, first: nat, free: seq<nat>)
    requires Linked(next, first, free) && free != []
    ensures first == free[0] && Linked(next[first := 0], next[first], free[1..]) && first !in free[1..]
  {
  }

  ghost function Elements(s: seq<nat>): set<nat> {
    set b | b in s
  }

  lemma {:induction false} Distinct(free: seq<nat>)
    requires forall i, j :: 0 <= i < j < |free| ==> free[i] != free[j]
    ensures |Elements(free)| == |free|
  {
    if free != [] {
      Distinct(free[1..]);
      assert Elements(free) == Elements(free[1..]) + {free[0]};
    }
  }

  // ---------- The pool ----------

  datatype Header = Header(maxSize: nat, maxNode: nat, allocSize: nat, allocNode: nat, nodeSize: nat, blockSize: nat)

  predicate IsValidBlock(h: Header, b: int)
    requires 0 < h.blockSize
  {
    HEADER <= b && b + h.blockSize <= h.allocSize && b % h.blockSize == HEADER % h.blockSize
  }

  /** CheckHeader, for the caller's idea of the pool's shape. */
  predicate CheckHeader(maxNode: nat, nodeSize: nat, h: Header) {
    var size := GetAllocSize(maxNode, nodeSize);
    && h.maxSize == size && h.maxNode == maxNode
    && h.allocSize <= size
    && HEADER + h.allocNode * h.blockSize == h.allocSize
    && h.nodeSize == nodeSize && h.blockSize == GetBlockSize(nodeSize)
  }

  ghost predicate HeaderOk(h: Header) {
    && h.blockSize == GetBlockSize(h.nodeSize)
    && h.maxSize == GetAllocSize(h.maxNode, h.nodeSize) < INVALID_REF
    && h.allocNode <= h.maxNode
    && h.allocSize == HEADER + h.allocNode * h.blockSize
    && h.allocSize % h.blockSize == HEADER % h.blockSize
  }

  lemma {:induction false} ManyResidues(n: nat, size: nat)
    requires 0 < size
    ensures (HEADER + n * size) % size == HEADER % size
  {
    if n > 0 {
      ManyResidues(n - 1, size);
      NextResidue(HEADER + (n - 1) * size, size);
      assert n * size == (n - 1) * size + size;
    }
  }

  /**
    CheckHeader accepts, of all headers, exactly those that a pool of the caller's shape can have: as many
    blocks carved as alloc_size says, and no more than max_node. So every reachable pool passes for its own
    shape and for no other.
   */
  lemma CheckHeaderIff(h: Header, maxNode: nat, nodeSize: nat)
    requires GetAllocSize(h.maxNode, h.nodeSize) < INVALID_REF
    ensures CheckHeader(maxNode, nodeSize, h) <==> HeaderOk(h) && maxNode == h.maxNode && nodeSize == h.nodeSize
  {
    if CheckHeader(maxNode, nodeSize, h) {
      ManyResidues(h.allocNode, h.blockSize);
      if h.allocNode > maxNode { RoomIff(maxNode + 1, h.allocNode, h.blockSize); }
    } else if HeaderOk(h) {
      RoomIff(h.allocNode, h.maxNode, h.blockSize);
    }
  }

  /** The links are those of exactly the blocks that were carved. */
  ghost predicate Carved(h: Header, next: map<nat, nat>) {
    && 0 < h.blockSize && |next| == h.allocNode
    && forall b: nat :: b in next <==> IsValidBlock(h, b)
  }

  function Carve(h: Header): Header {
    h.(allocSize := h.allocSize + h.blockSize, allocNode := h.allocNode + 1)
  }

  /** There is room exactly while fewer than max_node blocks were carved. */
  lemma CarveIff(h: Header)
    requires HeaderOk(h)
    ensures h.allocNode <= h.maxNode
    ensures h.allocSize + h.blockSize <= h.maxSize <==> h.allocNode < h.maxNode
    ensures h.allocNode < h.maxNode ==> HeaderOk(Carve(h))
  {
    RoomIff(h.allocNode, h.maxNode, h.blockSize);
    NextResidue(h.allocSize, h.blockSize);
  }

  lemma CarveKeeps(h: Header, next: map<nat, nat>)
    requires HeaderOk(h) && Carved(h, next) && HeaderOk(Carve(h))
    ensures h.allocSize !in next && Carved(Carve(h), next[h.allocSize := 0])
  {
    OneMore(h.allocSize, h.blockSize);
    var next' := next[h.allocSize := 0];
    assert next'.Keys == next.Keys + {h.allocSize};
  }

  lemma CarvedCount(h: Header, next: map<nat, nat>)
    requires Carved(h, next)
    ensures 0 < h.blockSize && |next| == h.allocNode
  {
  }

  lemma SameBlocks(h: Header, next: map<nat, nat>, b: nat, link: nat)
    requires Carved(h, next) && b in next
    ensures IsValidBlock(h, b) && Carved(h, next[b := link])
  {
  }

  lemma NewPosition(h: Header)
    requires HeaderOk(h) && HeaderOk(Carve(h))
    ensures HEADER <= h.allocSize < INVALID_REF
  {
  }

  /** No carved block has the position 0 or INVALID_REF. */
  lemma Positions(h: Header, next: map<nat, nat>)
    requires HeaderOk(h) && Carved(h, next)
    ensures forall b :: b in next ==> HEADER <= b < INVALID_REF
  {
    RoomIff(h.allocNode, h.maxNode, h.blockSize);
  }

  /** The free list is exactly the carved blocks whose link is not 0. */
  ghost predicate ListOk(next: map<nat, nat>, first: nat, free: seq<nat>) {
    && Linked(next, first, free)
    && (forall b :: b in next ==> HEADER <= b < INVALID_REF)
    && (forall b :: b in next ==> (next[b] == 0 <==> b !in free))
  }

  lemma FirstFree(next: map<nat, nat>, first: nat, free: seq<nat>)
    requires ListOk(next, first, free)
    ensures first == INVALID_REF <==> free == []
    ensures free != [] ==> first == free[0] && HEADER <= first && first in next && next[first] != 0
  {
  }

  /** Taking the first block, giving a block back, and carving one each keep the list. */
  lemma TakeKeeps(next: map<nat, nat>, first: nat, free: seq<nat>)
    requires ListOk(next, first, free) && free != []
    ensures first in next && ListOk(next[first := 0], next[first], free[1..])
  {
    hide Nth;
    UnlinkKeeps(next, first, free);
    assert free[0] in next;
    hide Linked;
    forall b | b in next ensures b in free <==> b == first || b in free[1..] {
      assert free == [free[0]] + free[1..];
    }
  }

  lemma GiveKeeps(next: map<nat, nat>, first: nat, free: seq<nat>, b: nat)
    requires ListOk(next, first, free) && b in next && next[b] == 0
    ensures ListOk(next[b := first], b, [b] + free)
  {
    LinkKeeps(next, first, free, b);
    FirstFree(next, first, free);
  }

  lemma NewKeeps(next: map<nat, nat>, first: nat, free: seq<nat>, b: nat)
    requires ListOk(next, first, free) && b !in next && HEADER <= b < INVALID_REF
    ensures ListOk(next[b := 0], first, free)
  {
  }

  /** The blocks whose nodes are handed out: those with link 0. */
  ghost function Used(next: map<nat, nat>): set<nat> {
    set b | b in next && next[b] == 0
  }

  lemma UsedMore(next: map<nat, nat>, b: nat)
    requires b in next ==> next[b] != 0
    ensures b !in Used(next) && Used(next[b := 0]) == Used(next) + {b}
  {
  }

  /** Handed out, plus listed as free, is carved. */
  lemma UsedCount(next: map<nat, nat>, first: nat, free: seq<nat>)
    requires ListOk(next, first, free)
    ensures |Used(next)| + |free| == |next|
  {
    hide Nth;
    Distinct(free);
    assert forall b :: b in Elements(free) ==> b in next;
    hide Linked;
    assert next.Keys == Used(next) + Elements(free);
  }

  /** The bytes of a node lie inside its own block and inside the pool's memory, behind the block's link. */
  ghost predicate Inside(h: Header, q: nat) {
    HEADER + NODE_OFFSET <= q && q + h.nodeSize <= q - NODE_OFFSET + h.blockSize <= h.maxSize
  }

  /** The bytes of two nodes, each with its link before it, do not overlap. */
  ghost predicate Apart(h: Header, q: nat, q': nat) {
    q + h.nodeSize + NODE_OFFSET <= q' || q' + h.nodeSize + NODE_OFFSET <= q
  }

  /** All nodes handed out lie within max_size and apart from each other. */
  lemma NodesApart(h: Header, next: map<nat, nat>)
    requires HeaderOk(h) && Carved(h, next)
    ensures forall b :: b in Used(next) ==> Inside(h, b + NODE_OFFSET)
    ensures forall b, c :: b in Used(next) && c in Used(next) && b != c ==> Apart(h, b + NODE_OFFSET, c + NODE_OFFSET)
  {
    hide GetBlockSize;
    RoomIff(h.allocNode, h.maxNode, h.blockSize);
    forall b, c | b in Used(next) && c in Used(next) && b != c ensures Apart(h, b + NODE_OFFSET, c + NODE_OFFSET) {
      var lo, hi := if b < c then b else c, if b < c then c else b;
      if hi < lo + h.blockSize { SameResidue(lo, hi, h.blockSize); }
    }
  }

  /** All nodes are handed out exactly when the list is empty and there is no room to carve. */
  lemma FullIff(h: Header, next: map<nat, nat>, first: nat, free: seq<nat>)
    requires HeaderOk(h) && Carved(h, next) && ListOk(next, first, free)
    ensures |Used(next)| == h.maxNode <==> first == INVALID_REF && h.allocSize + h.blockSize > h.maxSize
    ensures Carve(h).maxNode == h.maxNode && Carve(h).nodeSize == h.nodeSize
  {
    hide HeaderOk, ListOk, IsValidBlock, Used;
    UsedCount(next, first, free);
    FirstFree(next, first, free);
    CarveIff(h);
  }

  class FixedLenPool<T> {
    var header: Header
    var freeList: nat

    /** The memory behind the header: for each carved block its link and its node. */
    var next: map<nat, nat>
    var node: map<nat, T>

    ghost var free: seq<nat>

    ghost predicate Valid()
      reads this
    {
      && HeaderOk(header) && Carved(header, next) && ListOk(next, freeList, free)
      && node.Keys == next.Keys
    }

    /** Init on fresh memory of GetAllocSize bytes. */
    constructor (maxNode: nat, nodeSize: nat)
      requires GetAllocSize(maxNode, nodeSize) < INVALID_REF
      ensures Valid() && next == map[] && node == map[] && header.maxNode == maxNode && header.nodeSize == nodeSize
    {
      header := Header(GetAllocSize(maxNode, nodeSize), maxNode, HEADER, 0, nodeSize, GetBlockSize(nodeSize));
      freeList := INVALID_REF;
      next, node, free := map[], map[], [];
    }

    /** Init with check_header, on memory that a pool already uses. */
    method Attach(maxNode: nat, nodeSize: nat) returns (ok: bool)
      requires Valid()
      ensures ok <==> maxNode == header.maxNode && nodeSize == header.nodeSize
    {
      CheckHeaderIff(header, maxNode, nodeSize);
      ok := CheckHeader(maxNode, nodeSize, header);
    }

    /** The block that GetFreeBlock takes off the free list, cleared or not, and marked as used. */
    method Reuse(clear: bool, zero: T) returns (b: nat)
      requires Valid() && freeList != INVALID_REF
      modifies this
      ensures Valid() && header == old(header) && HEADER <= b && b !in Used(old(next)) && b in old(node)
      ensures b == old(freeList)
      ensures Used(next) == Used(old(next)) + {b} && node == old(node)[b := if clear then zero else old(node)[b]]
    {
      hide HeaderOk, ListOk, IsValidBlock, Carved, Used;
      FirstFree(next, freeList, free);
      TakeKeeps(next, freeList, free);
      SameBlocks(header, next, freeList, 0);
      UsedMore(next, freeList);
      b := freeList;
      freeList, free := next[b], free[1..];
      CarvedCount(header, next);
      if !IsValidBlock(header, b) { assert false; }
      if clear { node := node[b := zero]; }
      next := next[b := 0];
    }

    /** The block that Alloc carves off the pool, with this content and marked as used. */
    method CarveBlock(content: T) returns (b: nat)
      requires Valid() && header.allocSize + header.blockSize <= header.maxSize
      modifies this
      ensures Valid() && header == Carve(old(header)) && HEADER <= b && b !in Used(old(next)) && b !in old(node)
      ensures b == old(header.allocSize)
      ensures Used(next) == Used(old(next)) + {b} && node == old(node)[b := content]
    {
      hide HeaderOk, ListOk, IsValidBlock, Carved, Used;
      CarveIff(header);
      b := header.allocSize;
      CarveKeeps(header, next);
      NewPosition(header);
      NewKeeps(next, freeList, free, b);
      UsedMore(next, b);
      header := Carve(header);
      next, node := next[b := 0], node[b := content];
    }

    /**
      Alloc: a node that was not handed out before, the one last given back if there is any, else the next one
      carved; none exactly when all are handed out. It is cleared if asked for, else it holds what it held when
      it was last given back, or `there`, what lay in untouched memory.
     */
    method Alloc(clear: bool, zero: T, there: T) returns (q: Option<nat>)
      requires Valid()
      modifies this
      ensures Valid() && header.maxNode == old(header.maxNode) && header.nodeSize == old(header.nodeSize)
      ensures q.None? <==> |Used(old(next))| == header.maxNode
      ensures q.None? ==> next == old(next) && node == old(node)
      ensures q.Some? ==> HEADER + NODE_OFFSET <= q.value && q.value - NODE_OFFSET !in Used(old(next))
      ensures q.Some? ==> Used(next) == Used(old(next)) + {q.value - NODE_OFFSET}
      ensures q.Some? ==>
                var b := q.value - NODE_OFFSET;
                node == old(node)[b := if clear then zero else if b in old(node) then old(node)[b] else there]
      ensures q.Some? ==>
                if old(freeList) != INVALID_REF then header == old(header) && q.value == old(freeList) + NODE_OFFSET
                else header == Carve(old(header)) && q.value == old(header.allocSize) + NODE_OFFSET
    {
      hide HeaderOk, ListOk, IsValidBlock, Carved, Used, Carve;
      FullIff(header, next, freeList, free);
      var b;
      if freeList != INVALID_REF {
        b := Reuse(clear, zero);
      } else if header.allocSize + header.blockSize <= header.maxSize {
        b := CarveBlock(if clear then zero else there);
      } else {
        return None;
      }
      q := Some(b + NODE_OFFSET);
    }

    /** Free: takes back exactly the nodes that are handed out; anything else is rejected with no change. */
    method Free(q: int) returns (ok: bool)
      requires Valid()
      modifies this
      ensures Valid() && header == old(header) && node == old(node)
      ensures ok <==> q - NODE_OFFSET in Used(old(next))
      ensures ok ==> Used(next) == Used(old(next)) - {q - NODE_OFFSET} && freeList == q - NODE_OFFSET
      ensures !ok ==> next == old(next) && freeList == old(freeList)
    {
      hide HeaderOk, Linked, ListOk, IsValidBlock;
      var b := q - NODE_OFFSET;
      Positions(header, next);
      ok := b >= 0 && IsValidBlock(header, b) && next[b] == 0;
      if ok {
        GiveKeeps(next, freeList, free, b);
        FirstFree(next, freeList, free);
        next := next[b := freeList];
        freeList := b;
        free := [b] + free;
      }
    }
  }
}
