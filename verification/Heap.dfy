/** The allocator of bdk/mem/heap.c: an intrusive doubly linked list inside the memory it
    hands out, proved to be the node list of HeapNodes. */
module Heap {
  import opened Bits
  import opened HeapNodes

  const ADDRESSES := 0x1_0000_0000
  const NULL := 0

  /** Memory by byte address; the entry at an aligned address is the word stored there. */
  type Memory = m: seq<u32> | |m| == ADDRESSES ghost witness seq(ADDRESSES, _ => 0)

  // Offsets in hnode_t.
  const USED := 0
  const SIZE := 4
  const PREV := 8
  const NEXT := 12

  function PrevOf(ns: seq<Node>, i: nat): nat
    requires i < |ns|
  {
    if i == 0 then NULL else ns[i - 1].addr
  }

  function NextOf(ns: seq<Node>, i: nat): nat
    requires i < |ns|
  {
    if i + 1 < |ns| then ns[i + 1].addr else NULL
  }

  /** The header at `a` has these field values. */
  predicate Header(m: Memory, a: nat, used: bool, size: nat, prev: nat, next: nat) {
    && a + HEADER <= ADDRESSES
    && m[a + USED] == (if used then 1 else 0) && m[a + SIZE] == size && m[a + PREV] == prev && m[a + NEXT] == next
  }

  /** The words of a header: use, size, the node before and the node behind. */
  lemma HeaderWords(m: Memory, a: nat, used: bool, size: nat, prev: nat, next: nat)
    requires a + 32 <= ADDRESSES
    ensures Header(m, a, used, size, prev, next) <==>
      m[a] == (if used then 1 else 0) && m[a + 4] == size && m[a + 8] == prev && m[a + 12] == next
  {
  }

  /** The header of node `i` says what the list says. */
  predicate HeaderAt(m: Memory, ns: seq<Node>, i: nat)
    requires i < |ns|
  {
    Header(m, ns[i].addr, ns[i].used, ns[i].size, PrevOf(ns, i), NextOf(ns, i))
  }

  ghost predicate Linked(m: Memory, ns: seq<Node>) {
    forall i | 0 <= i < |ns| :: HeaderAt(m, ns, i)
  }

  /** No word in the payload of a node in `live` differs. */
  ghost predicate PayloadsKept(m: Memory, m': Memory, live: set<Node>) {
    forall n, w | n in live && n.addr + HEADER <= w < n.End() && w < ADDRESSES :: m'[w] == m[w]
  }

  /** Nothing but the words `ws` differs. */
  ghost predicate OnlyWords(m: Memory, m': Memory, ws: set<nat>) {
    forall w | 0 <= w < ADDRESSES && w !in ws :: m'[w] == m[w]
  }

  /** The list `ns` is laid out in memory from `start` on. */
  ghost predicate Laid(m: Memory, start: nat, ns: seq<Node>) {
    && 0 < start && start % 4 == 0
    && Tiled(start, ns) && Linked(m, ns)
    && Top(start, ns) <= ADDRESSES
  }

  // ----- effect of the writes on the list

  /** The words written when the node at `a` is split at `b`, with `c` the node behind. */
  function SplitWords(a: nat, b: nat, c: nat): set<nat> {
    {a + USED, a + SIZE, a + NEXT, b + USED, b + SIZE, b + PREV, b + NEXT} + if c == NULL then {} else {c + PREV}
  }

  /** Node `a` has been split at `b`, keeping `size` bytes and leaving `left` to `b`. */
  ghost predicate SplitDone(m: Memory, m': Memory, a: nat, b: nat, c: nat, size: nat, left: nat) {
    && a + HEADER <= ADDRESSES && b + HEADER <= ADDRESSES && c + HEADER <= ADDRESSES
    && m'[a + USED] == 1 && m'[a + SIZE] == size && m'[a + NEXT] == b
    && m'[b + USED] == 0 && m'[b + SIZE] == left && m'[b + PREV] == a && m'[b + NEXT] == c
    && (c != NULL ==> m'[c + PREV] == b)
    && OnlyWords(m, m', SplitWords(a, b, c))
  }

  /** After the first four writes: the new node and its successor know of each other. */
  ghost predicate SplitHalf(m: Memory, m': Memory, a: nat, b: nat, c: nat, left: nat) {
    && a + HEADER <= b && b + HEADER <= ADDRESSES && c + HEADER <= ADDRESSES && (c != NULL ==> b + HEADER <= c)
    && m'[b + USED] == 0 && m'[b + SIZE] == left && m'[b + NEXT] == c && (c != NULL ==> m'[c + PREV] == b)
    && OnlyWords(m, m', {b + USED, b + SIZE, b + NEXT} + if c == NULL then {} else {c + PREV})
  }

  lemma SplitBegun(m: Memory, m1: Memory, a: nat, b: nat, left: nat)
    requires a + HEADER <= b && b + HEADER <= ADDRESSES && left < ADDRESSES
    requires var c := m[a + NEXT]; c != NULL ==> b + HEADER <= c && c + HEADER <= ADDRESSES
    requires var w := m[b + SIZE := left][b + USED := 0][b + NEXT := m[a + NEXT]];
             m1 == if m[a + NEXT] == NULL then w else w[m[a + NEXT] + PREV := b]
    ensures SplitHalf(m, m1, a, b, m[a + NEXT], left)
  {
  }

  lemma SplitEnded(m: Memory, m1: Memory, m2: Memory, a: nat, b: nat, c: nat, size: nat, left: nat)
    requires SplitHalf(m, m1, a, b, c, left) && size < ADDRESSES
    requires m2 == m1[b + PREV := a][a + NEXT := b][a + SIZE := size][a + USED := 1]
    ensures SplitDone(m, m2, a, b, c, size, left)
  {
  }

  lemma SplitOther(m: Memory, m': Memory, start: nat, ns: seq<Node>, i: nat, size: nat, k: nat)
    requires Tiled(start, ns) && Linked(m, ns) && 0 < start && i < |ns| && k < |ns| && k != i
    requires size + SPLIT_MIN <= ns[i].size
    requires SplitDone(m, m', ns[i].addr, ns[i].addr + HEADER + size, NextOf(ns, i), size, ns[i].size - size - HEADER)
    ensures Header(m', ns[k].addr, ns[k].used, ns[k].size,
                   if k == i + 1 then ns[i].addr + HEADER + size else PrevOf(ns, k), NextOf(ns, k))
  {
    assert HeaderAt(m, ns, k);
    Disjoint(start, ns, i, k);
    Below(start, ns, k);
    if i + 1 < |ns| { Disjoint(start, ns, k, i + 1); }
  }

  lemma SplitSelf(m: Memory, m': Memory, start: nat, ns: seq<Node>, i: nat, size: nat)
    requires Tiled(start, ns) && Linked(m, ns) && i < |ns| && size + SPLIT_MIN <= ns[i].size
    requires SplitDone(m, m', ns[i].addr, ns[i].addr + HEADER + size, NextOf(ns, i), size, ns[i].size - size - HEADER)
    ensures Header(m', ns[i].addr, true, size, PrevOf(ns, i), ns[i].addr + HEADER + size)
    ensures Header(m', ns[i].addr + HEADER + size, false, ns[i].size - size - HEADER, ns[i].addr, NextOf(ns, i))
  {
    assert HeaderAt(m, ns, i);
    if i + 1 < |ns| { Disjoint(start, ns, i, i + 1); }
  }

  /** Neighbours in a list where node `i` was replaced by two. */
  lemma SplitList(ns: seq<Node>, i: nat, c: seq<Node>, j: nat)
    requires i < |ns| && |c| == 2 && j < |ns| + 1 && c[0].addr == ns[i].addr
    ensures var rs := ns[..i] + c + ns[i + 1..];
            && |rs| == |ns| + 1
            && rs[j] == (if j < i then ns[j] else if j < i + 2 then c[j - i] else ns[j - 1])
            && PrevOf(rs, j) == (if j <= i then PrevOf(ns, j)
                                 else if j <= i + 2 then c[j - i - 1].addr else PrevOf(ns, j - 1))
            && NextOf(rs, j) == (if j < i then NextOf(ns, j) else if j == i then c[1].addr else NextOf(ns, j - 1))
  {
  }

  lemma SplitHeader(m: Memory, m': Memory, start: nat, ns: seq<Node>, i: nat, size: nat, j: nat)
    requires Tiled(start, ns) && Linked(m, ns) && 0 < start && i < |ns| && size + SPLIT_MIN <= ns[i].size
    requires SplitDone(m, m', ns[i].addr, ns[i].addr + HEADER + size, NextOf(ns, i), size, ns[i].size - size - HEADER)
    requires j < |ns| + 1
    ensures HeaderAt(m', ns[..i] + Carve(ns[i], size) + ns[i + 1..], j)
  {
    hide Header, SplitDone, Linked, Tiled, PrevOf, NextOf;
    SplitList(ns, i, Carve(ns[i], size), j);
    if j < i {
      SplitOther(m, m', start, ns, i, size, j);
    } else if j < i + 2 {
      SplitSelf(m, m', start, ns, i, size);
    } else {
      SplitOther(m, m', start, ns, i, size, j - 1);
    }
  }

  lemma SplitLinked(m: Memory, m': Memory, start: nat, ns: seq<Node>, i: nat, size: nat)
    requires Laid(m, start, ns) && i < |ns| && !ns[i].used
    requires size % HEADER == 0 && size + SPLIT_MIN <= ns[i].size
    requires SplitDone(m, m', ns[i].addr, ns[i].addr + HEADER + size, NextOf(ns, i), size, ns[i].size - size - HEADER)
    ensures Linked(m', ns[..i] + Carve(ns[i], size) + ns[i + 1..])
    ensures PayloadsKept(m, m', Live(ns))
  {
    hide SplitDone, HeaderAt;
    var rs := ns[..i] + Carve(ns[i], size) + ns[i + 1..];
    forall j | 0 <= j < |rs| ensures HeaderAt(m', rs, j) {
      SplitHeader(m, m', start, ns, i, size, j);
    }
    SplitPayloads(m, m', start, ns, i, size);
  }

  lemma SplitPayloads(m: Memory, m': Memory, start: nat, ns: seq<Node>, i: nat, size: nat)
    requires Laid(m, start, ns) && i < |ns| && !ns[i].used && size + SPLIT_MIN <= ns[i].size
    requires SplitDone(m, m', ns[i].addr, ns[i].addr + HEADER + size, NextOf(ns, i), size, ns[i].size - size - HEADER)
    ensures PayloadsKept(m, m', Live(ns))
  {
    forall n, w | n in Live(ns) && n.addr + HEADER <= w < n.End() && w < ADDRESSES ensures m'[w] == m[w] {
      var j := LiveAt(start, ns, n);
      Disjoint(start, ns, i, j);
      if i + 1 < |ns| { Disjoint(start, ns, i + 1, j); }
    }
  }

  lemma TakeLinked(m: Memory, m': Memory, start: nat, ns: seq<Node>, i: nat)
    requires Laid(m, start, ns) && i < |ns| && !ns[i].used && ns[i].End() <= ADDRESSES
    requires m'[ns[i].addr + USED] == 1 && OnlyWords(m, m', {ns[i].addr + USED})
    ensures Linked(m', ns[..i] + [ns[i].(used := true)] + ns[i + 1..])
    ensures PayloadsKept(m, m', Live(ns))
  {
    var rs := ns[..i] + [ns[i].(used := true)] + ns[i + 1..];
    forall j | 0 <= j < |rs| ensures HeaderAt(m', rs, j) {
      assert HeaderAt(m, ns, j);
      Disjoint(start, ns, i, j);
    }
    forall n, w | n in Live(ns) && n.addr + HEADER <= w < n.End() && w < ADDRESSES ensures m'[w] == m[w] {
      var j := LiveAt(start, ns, n);
      Disjoint(start, ns, i, j);
    }
  }

  /** The words written when node `b` is appended behind node `a`. */
  ghost predicate AppendDone(m: Memory, m': Memory, a: nat, b: nat, size: nat) {
    && a + HEADER <= b && b + HEADER <= ADDRESSES
    && m'[a + NEXT] == b
    && m'[b + USED] == 1 && m'[b + SIZE] == size && m'[b + PREV] == a && m'[b + NEXT] == NULL
    && OnlyWords(m, m', {a + NEXT, b + USED, b + SIZE, b + PREV, b + NEXT})
  }

  lemma AppendLinked(m: Memory, m': Memory, start: nat, ns: seq<Node>, size: nat)
    requires Laid(m, start, ns) && ns != []
    requires AppendDone(m, m', ns[|ns| - 1].addr, Top(start, ns), size)
    ensures Linked(m', ns + [Node(Top(start, ns), size, true)])
    ensures PayloadsKept(m, m', Live(ns))
  {
    var rs, k := ns + [Node(Top(start, ns), size, true)], |ns| - 1;
    forall j | 0 <= j < |rs| ensures HeaderAt(m', rs, j) {
      if j <= k {
        assert HeaderAt(m, ns, j);
        Disjoint(start, ns, j, k);
        Below(start, ns, j);
      }
    }
    forall n, w | n in Live(ns) && n.addr + HEADER <= w < n.End() && w < ADDRESSES ensures m'[w] == m[w] {
      var j := LiveAt(start, ns, n);
      Disjoint(start, ns, j, k);
      Below(start, ns, j);
    }
  }

  /** The words written when free node `b` is merged into its free predecessor `a`. */
  ghost predicate MergeDone(m: Memory, m': Memory, a: nat, c: nat, size: nat, next: nat) {
    && a + HEADER <= ADDRESSES && c + HEADER <= ADDRESSES
    && m'[a + SIZE] == size && m'[a + NEXT] == next
    && (c != NULL ==> m'[c + PREV] == a)
    && OnlyWords(m, m', {a + SIZE, a + NEXT} + if c == NULL then {} else {c + PREV})
  }

  lemma MergeLinked(m: Memory, m': Memory, start: nat, ns: seq<Node>, i: nat)
    requires Tiled(start, ns) && Linked(m, ns) && 0 < start && 0 < i < |ns| && !ns[i - 1].used && !ns[i].used
    requires MergeDone(m, m', ns[i - 1].addr, NextOf(ns, i), ns[i - 1].size + ns[i].size + HEADER, NextOf(ns, i))
    ensures Linked(m', ns[..i - 1] + [Merge(ns[i - 1], ns[i])] + ns[i + 1..])
    ensures PayloadsKept(m, m', Live(ns))
  {
    var rs := ns[..i - 1] + [Merge(ns[i - 1], ns[i])] + ns[i + 1..];
    if i + 1 < |ns| { Disjoint(start, ns, i - 1, i + 1); }
    forall j | 0 <= j < |rs| ensures HeaderAt(m', rs, j) {
      MergeHeader(m, m', start, ns, i, j);
    }
    forall n, w | n in Live(ns) && n.addr + HEADER <= w < n.End() && w < ADDRESSES ensures m'[w] == m[w] {
      var j := LiveAt(start, ns, n);
      Disjoint(start, ns, i - 1, j);
      if i + 1 < |ns| { Disjoint(start, ns, i + 1, j); }
    }
  }

  lemma MergeOther(m: Memory, m': Memory, start: nat, ns: seq<Node>, i: nat, k: nat)
    requires Tiled(start, ns) && Linked(m, ns) && 0 < start && 0 < i < |ns| && k < |ns| && k != i - 1 && k != i
    requires MergeDone(m, m', ns[i - 1].addr, NextOf(ns, i), ns[i - 1].size + ns[i].size + HEADER, NextOf(ns, i))
    ensures Header(m', ns[k].addr, ns[k].used, ns[k].size,
                   if k == i + 1 then ns[i - 1].addr else PrevOf(ns, k), NextOf(ns, k))
  {
    assert HeaderAt(m, ns, k);
    Disjoint(start, ns, i - 1, k);
    Below(start, ns, k);
    if i + 1 < |ns| { Disjoint(start, ns, k, i + 1); }
  }

  /** Neighbours in a list where nodes `i - 1` and `i` were replaced by one. */
  lemma MergeList(ns: seq<Node>, i: nat, n: Node, j: nat)
    requires 0 < i < |ns| && j < |ns| - 1 && n.addr == ns[i - 1].addr
    ensures var rs := ns[..i - 1] + [n] + ns[i + 1..];
            && |rs| == |ns| - 1
            && rs[j] == (if j < i - 1 then ns[j] else if j == i - 1 then n else ns[j + 1])
            && PrevOf(rs, j) == (if j < i then PrevOf(ns, j) else if j == i then n.addr else PrevOf(ns, j + 1))
            && NextOf(rs, j) == (if j < i - 1 then NextOf(ns, j) else NextOf(ns, j + 1))
  {
  }

  lemma MergeSelf(m: Memory, m': Memory, start: nat, ns: seq<Node>, i: nat)
    requires Tiled(start, ns) && Linked(m, ns) && 0 < start && 0 < i < |ns| && !ns[i - 1].used
    requires MergeDone(m, m', ns[i - 1].addr, NextOf(ns, i), ns[i - 1].size + ns[i].size + HEADER, NextOf(ns, i))
    ensures Header(m', ns[i - 1].addr, false, ns[i - 1].size + ns[i].size + HEADER, PrevOf(ns, i - 1), NextOf(ns, i))
  {
    assert HeaderAt(m, ns, i - 1);
    if i + 1 < |ns| { Disjoint(start, ns, i - 1, i + 1); }
  }

  lemma MergeHeader(m: Memory, m': Memory, start: nat, ns: seq<Node>, i: nat, j: nat)
    requires Tiled(start, ns) && Linked(m, ns) && 0 < start && 0 < i < |ns| && !ns[i - 1].used && !ns[i].used
    requires MergeDone(m, m', ns[i - 1].addr, NextOf(ns, i), ns[i - 1].size + ns[i].size + HEADER, NextOf(ns, i))
    requires j < |ns| - 1
    ensures HeaderAt(m', ns[..i - 1] + [Merge(ns[i - 1], ns[i])] + ns[i + 1..], j)
  {
    hide Tiled, Linked, MergeDone, OnlyWords;
    MergeList(ns, i, Merge(ns[i - 1], ns[i]), j);
    if j < i - 1 {
      MergeOther(m, m', start, ns, i, j);
    } else if j == i - 1 {
      MergeSelf(m, m', start, ns, i);
    } else {
      MergeOther(m, m', start, ns, i, j + 1);
    }
  }

  lemma FirstLinked(m: Memory, start: nat, size: nat)
    requires 0 < start && start + HEADER <= ADDRESSES
    requires Header(m, start, true, size, NULL, NULL)
    ensures Linked(m, [Node(start, size, true)])
  {
  }

  // ----- the allocator

  class Arena {
    var mem: Memory
    var start: nat
    var first: nat
    var last: nat
    ghost var nodes: seq<Node>

    ghost predicate Valid()
      reads this
    {
      Laid(mem, start, nodes) && Apart(nodes) && first == if nodes == [] then NULL else start
    }

    /** `heap_init` */
    constructor (base: nat, mem: Memory)
      requires 0 < base <= ADDRESSES && base % 4 == 0
      ensures Valid() && nodes == [] && start == base && this.mem == mem
    {
      start, first, last := base, NULL, NULL;
      this.mem, nodes := mem, [];
    }

    /** Lines 73 to 88 of `_heap_alloc`, when the node at `node` is split at `newNode`. */
    method Split(node: nat, newNode: nat, size: nat, newSize: nat)
      requires node + HEADER <= newNode && newNode + HEADER <= ADDRESSES && size < ADDRESSES
      requires HEADER <= newSize < ADDRESSES
      requires mem[node + NEXT] != NULL ==>
                 newNode + HEADER <= mem[node + NEXT] && mem[node + NEXT] + HEADER <= ADDRESSES
      modifies this`mem
      ensures SplitDone(old(mem), mem, node, newNode, old(mem[node + NEXT]), size, newSize - HEADER)
    {
      ghost var m := mem;
      mem := mem[newNode + SIZE := newSize - HEADER];
      mem := mem[newNode + USED := 0];
      mem := mem[newNode + NEXT := mem[node + NEXT]];
      if mem[newNode + NEXT] != NULL {
        mem := mem[mem[newNode + NEXT] + PREV := newNode];
      }
      ghost var m1 := mem;
      SplitBegun(m, m1, node, newNode, newSize - HEADER);
      mem := mem[newNode + PREV := node];
      mem := mem[node + NEXT := newNode];
      mem := mem[node + SIZE := size];
      mem := mem[node + USED := 1];
      SplitEnded(m, m1, mem, node, newNode, m[node + NEXT], size, newSize - HEADER);
    }

    /** Lines 66 to 88: the free node found is used, and split if that leaves enough. */
    method Take(node: nat, size: nat, ghost i: nat)
      requires Valid() && i < |nodes| && nodes[i].addr == node && !nodes[i].used
      requires size <= nodes[i].size && size % HEADER == 0
      modifies this`mem, this`nodes
      ensures nodes == old(nodes)[..i] + Carve(old(nodes)[i], size) + old(nodes)[i + 1..]
      ensures Linked(mem, nodes) && PayloadsKept(old(mem), mem, Live(old(nodes)))
    {
      HeaderOf(mem, start, nodes, i);
      ghost var ns, m := nodes, mem;
      nodes := nodes[..i] + Carve(nodes[i], size) + nodes[i + 1..];
      var newSize := mem[node + SIZE] - size;
      var newNode := node + HEADER + size;
      hide Laid, Linked, PayloadsKept, SplitDone, Tiled, Apart, OnlyWords;
      if newSize >= SPLIT_MIN {
        Split(node, newNode, size, newSize);
        SplitLinked(m, mem, start, ns, i, size);
      } else {
        mem := mem[node + SIZE := size + newSize];
        mem := mem[node + USED := 1];
        OnlyUsed(m, mem, node);
        TakeLinked(m, mem, start, ns, i);
      }
    }

    /** Lines 102 to 109: a new node behind the last one. */
    method Append(node: nat, size: nat) returns (newNode: nat)
      requires Valid() && nodes != [] && nodes[|nodes| - 1].addr == node
      requires size % HEADER == 0 && Top(start, nodes) + HEADER + size <= ADDRESSES
      modifies this`mem, this`last, this`nodes
      ensures newNode == Top(start, old(nodes)) && last == newNode
      ensures nodes == old(nodes) + [Node(newNode, size, true)]
      ensures Linked(mem, nodes) && PayloadsKept(old(mem), mem, Live(old(nodes)))
    {
      assert HeaderAt(mem, nodes, |nodes| - 1);
      ghost var ns, m := nodes, mem;
      newNode := node + HEADER + mem[node + SIZE];
      mem := mem[newNode + USED := 1];
      mem := mem[newNode + SIZE := size];
      mem := mem[newNode + PREV := node];
      mem := mem[newNode + NEXT := NULL];
      mem := mem[node + NEXT := newNode];
      last := newNode;
      assert AppendDone(m, mem, node, newNode, size);
      AppendLinked(m, mem, start, ns, size);
      nodes := nodes + [Node(newNode, size, true)];
    }

    /** Lines 42 to 49: the first node of all. */
    method AllocFirst(size: nat)
      requires 0 < start && start + HEADER + size <= ADDRESSES
      modifies this`mem, this`first, this`last, this`nodes
      ensures nodes == [Node(start, size, true)] && Linked(mem, nodes)
      ensures first == start && last == start
    {
      mem := mem[start + USED := 1];
      mem := mem[start + SIZE := size];
      mem := mem[start + PREV := NULL];
      mem := mem[start + NEXT := NULL];
      first, last := start, start;
      FirstLinked(mem, start, size);
      nodes := [Node(start, size, true)];
    }

    /** Lines 59 to 98: the first free node that is large enough, otherwise the last node. */
    method Find(size: nat) returns (node: nat, found: bool)
      requires Valid() && nodes != []
      ensures found == (FirstFit(nodes, size, 0) < |nodes|)
      ensures node == nodes[if found then FirstFit(nodes, size, 0) else |nodes| - 1].addr
    {
      node := first;
      ghost var i := 0;
      while true
        invariant 0 <= i < |nodes| && node == nodes[i].addr
        invariant FirstFit(nodes, size, 0) == FirstFit(nodes, size, i)
        decreases |nodes| - i
      {
        HeaderOf(mem, start, nodes, i);
        if mem[node + USED] == 0 && size <= mem[node + SIZE] {
          found := true;
          return;
        }
        if mem[node + NEXT] != NULL {
          node := mem[node + NEXT];
          i := i + 1;
        } else {
          break;
        }
      }
      found := false;
    }

    /** Lines 54 to 111: first fit in a heap that has been used, otherwise at the top. */
    method Place(size: nat) returns (node: nat)
      requires Valid() && nodes != [] && size % HEADER == 0
      requires FirstFit(nodes, size, 0) == |nodes| ==> Top(start, nodes) + HEADER + size <= ADDRESSES
      modifies this`mem, this`last, this`nodes
      ensures nodes == Allocate(start, old(nodes), size) && Linked(mem, nodes)
      ensures node == Allocated(start, old(nodes), size).addr
      ensures PayloadsKept(old(mem), mem, Live(old(nodes)))
    {
      hide Laid, Linked, Apart, PayloadsKept, Allocate, Allocated, Carve;
      AllocateCases(start, nodes, size);
      var found;
      node, found := Find(size);
      if found {
        Take(node, size, FirstFit(nodes, size, 0));
      } else {
        node := Append(node, size);
      }
    }

    /** `_heap_alloc` */
    method Malloc(size: u32) returns (ptr: nat)
      requires Valid() && Align(size) < ADDRESSES
      requires FirstFit(nodes, Align(size), 0) == |nodes| ==> Top(start, nodes) + HEADER + Align(size) <= ADDRESSES
      modifies this`mem, this`first, this`last, this`nodes
      ensures Valid()
      ensures nodes == Allocate(start, old(nodes), Align(size))
      ensures ptr == Allocated(start, old(nodes), Align(size)).addr + HEADER
      ensures PayloadsKept(old(mem), mem, Live(old(nodes)))
    {
      hide Linked, PayloadsKept, Allocate, Allocated, FirstFit, Tiled, Live, Apart, Top;
      var aligned := Align(size);
      ghost var ns, m := nodes, mem;
      AllocateCases(start, ns, aligned);
      FirstNode(m, start, ns);
      if first == NULL {
        AllocFirst(aligned);
        NothingLive(m, mem);
        ptr := start + HEADER;
      } else {
        var node := Place(aligned);
        ptr := node + HEADER;
      }
      StillSound(m, mem, start, ns, aligned);
    }

    /** Lines 128 to 132 of `_heap_free`: the node at `node` is merged into the one before. */
    method MergeBack(node: nat)
      requires node + HEADER <= ADDRESSES && mem[node + PREV] + HEADER <= node
      requires mem[mem[node + PREV] + SIZE] + mem[node + SIZE] + HEADER < ADDRESSES
      requires mem[node + NEXT] != NULL ==> node + HEADER <= mem[node + NEXT] && mem[node + NEXT] + HEADER <= ADDRESSES
      modifies this`mem
      ensures var prev, next := old(mem[node + PREV]), old(mem[node + NEXT]);
              MergeDone(old(mem), mem, prev, next, old(mem)[prev + SIZE] + old(mem[node + SIZE]) + HEADER, next)
      ensures mem[node + NEXT] == old(mem[node + NEXT])
    {
      mem := mem[mem[node + PREV] + SIZE := mem[mem[node + PREV] + SIZE] + (mem[node + SIZE] + HEADER)];
      mem := mem[mem[node + PREV] + NEXT := mem[node + NEXT]];
      if mem[node + NEXT] != NULL {
        mem := mem[mem[node + NEXT] + PREV := mem[node + PREV]];
      }
    }

    /** Lines 124 to 134 for the node at `node`, the first of `todo`; it returns the nodes walked
        then. */
    method PassNode(node: nat, ghost done: seq<Node>, ghost todo: seq<Node>) returns (ghost done': seq<Node>)
      requires Laid(mem, start, done + todo) && todo != [] && node == todo[0].addr
      modifies this`mem
      ensures Laid(mem, start, done' + todo[1..]) && Live(done' + todo[1..]) == Live(done + todo)
      ensures Pass(done', todo[1..]) == Pass(done, todo)
      ensures PayloadsKept(old(mem), mem, Live(done + todo)) && node + HEADER <= ADDRESSES
      ensures mem[node + NEXT] == if |todo| == 1 then NULL else todo[1].addr
    {
      hide PayloadsKept, MergeDone, Live, Tiled, Linked, Merge;
      ghost var m, all, i := mem, done + todo, |done|;
      HeaderOf(mem, start, all, i);
      if i > 0 { HeaderOf(mem, start, all, i - 1); }
      if mem[node + USED] == 0 && mem[node + PREV] != NULL && mem[mem[node + PREV] + USED] == 0 {
        MergeBack(node);
        MergeLinked(m, mem, start, all, i);
        PassMerges(start, done, todo);
        done' := done[..i - 1] + [Merge(done[i - 1], todo[0])];
      } else {
        PassKeeps(done, todo);
        KeptNone(mem, Live(all));
        done' := done + [todo[0]];
      }
    }

    /** Lines 118 to 136: the pass that merges free neighbours. */
    method Defragment(ghost ns: seq<Node>)
      requires Laid(mem, start, ns) && first == if ns == [] then NULL else start
      modifies this`mem
      ensures Linked(mem, Pass([], ns)) && PayloadsKept(old(mem), mem, Live(ns))
    {
      hide PayloadsKept, Live, Tiled, Linked;
      FirstNode(mem, start, ns);
      var node := first;
      ghost var done, todo := [], ns;
      KeptNone(mem, Live(ns));
      while node != NULL
        invariant Laid(mem, start, done + todo) && Live(done + todo) == Live(ns)
        invariant Pass(done, todo) == Pass([], ns)
        invariant if todo == [] then node == NULL else node == todo[0].addr > 0
        invariant PayloadsKept(old(mem), mem, Live(ns))
        decreases |todo|
      {
        ghost var m := mem;
        if |todo| > 1 { HeaderOf(mem, start, done + todo, |done| + 1); }
        done := PassNode(node, done, todo);
        KeptTwice(old(mem), m, mem, Live(ns));
        todo := todo[1..];
        node := mem[node + NEXT];
      }
      PassDone(done);
    }

    /** `free`: addresses below the heap, such as NULL, are ignored. */
    method Free(buf: nat)
      requires Valid() && (buf >= start ==> IsPayload(nodes, buf))
      modifies this`mem, this`nodes
      ensures Valid()
      ensures nodes == if buf >= start then Freed(old(nodes), NodeOf(old(nodes), buf)) else old(nodes)
      ensures PayloadsKept(old(mem), mem, if buf >= start then Live(nodes) else Live(old(nodes)))
    {
      if buf < start {
        return;
      }
      hide PayloadsKept, Linked, Tiled, Live, Apart;
      ghost var i, ns, m := NodeOf(nodes, buf), nodes, mem;
      ghost var fs := ns[i := ns[i].(used := false)];
      HeaderOf(mem, start, ns, i);
      mem := mem[buf - HEADER + USED := 0];
      UnmarkLinked(m, mem, start, ns, i);
      Unmarked(start, ns, i);
      FreedResult(start, ns, i);
      Below(start, ns, i);
      ghost var m1 := mem;
      Defragment(fs);
      KeptTwice(m, m1, mem, Live(fs));
      nodes := Freed(ns, i);
    }

    /** `zalloc`: the aligned size is cleared. */
    method Zalloc(size: u32) returns (ptr: nat)
      requires Valid() && Align(size) < ADDRESSES
      requires FirstFit(nodes, Align(size), 0) == |nodes| ==> Top(start, nodes) + HEADER + Align(size) <= ADDRESSES
      modifies this`mem, this`first, this`last, this`nodes
      ensures Valid()
      ensures nodes == Allocate(start, old(nodes), Align(size))
      ensures ptr == Allocated(start, old(nodes), Align(size)).addr + HEADER
      ensures ptr + Align(size) <= ADDRESSES && forall k | 0 <= k < Align(size) / 4 :: mem[ptr + 4 * k] == 0
      ensures PayloadsKept(old(mem), mem, Live(old(nodes)))
    {
      ghost var m0, live := mem, Live(nodes);
      AllocateAddsOne(start, nodes, Align(size));
      ghost var got := Allocated(start, nodes, Align(size));
      ptr := Malloc(size);
      ghost var m1 := mem;
      PayloadInReach(mem, start, nodes, got);
      Clear(ptr, Align(size));
      PayloadWritten(m1, mem, start, nodes, got);
      KeptTwice(m0, m1, mem, live);
    }

    /** `memset(ptr, 0, size)` */
    method Clear(ptr: nat, size: nat)
      requires ptr + size <= ADDRESSES
      modifies this`mem
      ensures forall k | 0 <= k < size / 4 :: mem[ptr + 4 * k] == 0
      ensures forall w | 0 <= w < ADDRESSES && !(ptr <= w < ptr + size) :: mem[w] == old(mem)[w]
    {
      ghost var m := mem;
      for i := 0 to size / 4
        invariant forall k | 0 <= k < i :: mem[ptr + 4 * k] == 0
        invariant forall w | 0 <= w < ADDRESSES && !(ptr <= w < ptr + size) :: mem[w] == m[w]
      {
        mem := mem[ptr + 4 * i := 0];
      }
    }

    /** `calloc`: the product is taken in 32 bits. */
    method Calloc(num: u32, size: u32) returns (ptr: nat)
      requires Valid() && Align(Product(num, size)) < ADDRESSES
      requires FirstFit(nodes, Align(Product(num, size)), 0) == |nodes| ==>
                 Top(start, nodes) + HEADER + Align(Product(num, size)) <= ADDRESSES
      modifies this`mem, this`first, this`last, this`nodes
      ensures Valid()
      ensures nodes == Allocate(start, old(nodes), Align(Product(num, size)))
      ensures ptr == Allocated(start, old(nodes), Align(Product(num, size))).addr + HEADER
      ensures ptr + Align(Product(num, size)) <= ADDRESSES
      ensures forall k | 0 <= k < Align(Product(num, size)) / 4 :: mem[ptr + 4 * k] == 0
      ensures PayloadsKept(old(mem), mem, Live(old(nodes)))
    {
      ptr := Zalloc(Product(num, size));
    }

    /** `heap_monitor`, for a heap that has been used: the sums cover the whole extent. */
    method Monitor() returns (total: nat, used: nat, nodesTotal: nat, nodesUsed: nat)
      requires Valid() && nodes != []
      ensures total == Top(start, nodes) - start && nodesTotal == |nodes|
      ensures used == UsedBytes(nodes, |nodes|) && nodesUsed == UsedCount(nodes, |nodes|)
    {
      total, used, nodesTotal, nodesUsed := 0, 0, 0, 0;
      var node := first;
      while true
        invariant nodesTotal < |nodes| && node == nodes[nodesTotal].addr
        invariant total + used == node - start
        invariant used == UsedBytes(nodes, nodesTotal) && nodesUsed == UsedCount(nodes, nodesTotal)
        decreases |nodes| - nodesTotal
      {
        HeaderOf(mem, start, nodes, nodesTotal);
        if mem[node + USED] != 0 {
          nodesUsed := nodesUsed + 1;
          used := used + mem[node + SIZE] + HEADER;
        } else {
          total := total + mem[node + SIZE] + HEADER;
        }
        nodesTotal := nodesTotal + 1;
        if mem[node + NEXT] != NULL {
          node := mem[node + NEXT];
        } else {
          break;
        }
      }
      total := total + used;
    }
  }

  /** What the header of a node of a well-formed heap holds. */
  lemma HeaderOf(m: Memory, start: nat, ns: seq<Node>, i: nat)
    requires Laid(m, start, ns) && i < |ns|
    ensures HeaderAt(m, ns, i) && 0 < ns[i].addr && ns[i].End() <= ADDRESSES
    ensures i + 1 < |ns| ==> NextOf(ns, i) == ns[i].End() && 0 < NextOf(ns, i) && NextOf(ns, i) + HEADER <= ADDRESSES
  {
    Below(start, ns, i);
    if i + 1 < |ns| { Below(start, ns, i + 1); }
  }

  lemma OnlyUsed(m: Memory, m': Memory, a: nat)
    requires a + HEADER <= ADDRESSES && m' == m[a + SIZE := m[a + SIZE]][a + USED := 1]
    ensures m'[a + USED] == 1 && OnlyWords(m, m', {a + USED})
  {
  }

  /** `buf` is the address handed out for a live node. */
  ghost predicate IsPayload(ns: seq<Node>, buf: nat) {
    exists i | 0 <= i < |ns| :: ns[i].used && ns[i].addr + HEADER == buf
  }

  ghost function NodeOf(ns: seq<Node>, buf: nat): (i: nat)
    requires IsPayload(ns, buf)
    ensures i < |ns| && ns[i].used && ns[i].addr + HEADER == buf
  {
    var i :| 0 <= i < |ns| && ns[i].used && ns[i].addr + HEADER == buf;
    i
  }

  lemma UnmarkLinked(m: Memory, m': Memory, start: nat, ns: seq<Node>, i: nat)
    requires Laid(m, start, ns) && i < |ns| && ns[i].End() <= ADDRESSES
    requires m' == m[ns[i].addr + USED := 0]
    ensures Linked(m', ns[i := ns[i].(used := false)]) && PayloadsKept(m, m', Live(ns))
  {
    var fs := ns[i := ns[i].(used := false)];
    forall j | 0 <= j < |fs| ensures HeaderAt(m', fs, j) {
      assert HeaderAt(m, ns, j);
      Disjoint(start, ns, i, j);
    }
    forall n, w | n in Live(ns) && n.addr + HEADER <= w < n.End() && w < ADDRESSES ensures m'[w] == m[w] {
      var j := LiveAt(start, ns, n);
      Disjoint(start, ns, i, j);
    }
  }

  /** Once the links are right, allocation leaves a sound heap. */
  lemma StillSound(m: Memory, m': Memory, start: nat, ns: seq<Node>, size: nat)
    requires Laid(m, start, ns) && Apart(ns) && size % HEADER == 0 && Linked(m', Allocate(start, ns, size))
    requires FirstFit(ns, size, 0) == |ns| ==> Top(start, ns) + HEADER + size <= ADDRESSES
    ensures Laid(m', start, Allocate(start, ns, size)) && Apart(Allocate(start, ns, size))
    ensures Allocate(start, ns, size) != []
  {
    hide Apart, Linked;
    AllocateKeepsTiling(start, ns, size);
    AllocateKeepsApart(start, ns, size);
  }

  lemma NothingLive(m: Memory, m': Memory)
    ensures PayloadsKept(m, m', Live([]))
  {
  }

  lemma KeptNone(m: Memory, live: set<Node>)
    ensures PayloadsKept(m, m, live)
  {
  }

  lemma KeptTwice(m: Memory, m': Memory, m'': Memory, live: set<Node>)
    requires PayloadsKept(m', m'', live)
    ensures forall more: set<Node> | live <= more && PayloadsKept(m, m', more) :: PayloadsKept(m, m'', live)
  {
  }

  lemma FirstNode(m: Memory, start: nat, ns: seq<Node>)
    requires Laid(m, start, ns)
    ensures ns != [] ==> ns[0].addr == start > 0
    ensures [] + ns == ns
  {
  }

  lemma PassDone(done: seq<Node>)
    ensures done + [] == done && Pass(done, []) == done
  {
  }

  /** A merging step of the pass, seen on the whole list. */
  lemma PassMerges(start: nat, done: seq<Node>, todo: seq<Node>)
    requires Tiled(start, done + todo) && todo != [] && done != [] && !done[|done| - 1].used && !todo[0].used
    ensures var i, all := |done|, done + todo;
            var d := done[..i - 1] + [Merge(done[i - 1], todo[0])];
            && Pass(done, todo) == Pass(d, todo[1..])
            && d + todo[1..] == all[..i - 1] + [Merge(all[i - 1], all[i])] + all[i + 1..]
            && Tiled(start, d + todo[1..]) && Top(start, d + todo[1..]) == Top(start, all)
            && Live(d + todo[1..]) == Live(all)
  {
    var i, m := |done|, Merge(done[|done| - 1], todo[0]);
    assert done + todo == done[..i - 1] + [done[i - 1], todo[0]] + todo[1..];
    assert done[..i - 1] + [m] + todo[1..] == (done[..i - 1] + [m]) + todo[1..];
    MergeLive(done[..i - 1], done[i - 1], todo[0], todo[1..]);
    assert (done + todo)[i].addr == (done + todo)[i - 1].End();
    MergeTiles(done[i - 1], todo[0]);
    hide Tiled, Merge, Live;
    Replaced(start, done[..i - 1], [done[i - 1], todo[0]], [m], todo[1..]);
  }

  lemma MergeLive(a: seq<Node>, x: Node, y: Node, b: seq<Node>)
    requires !x.used && !y.used
    ensures Live(a + [Merge(x, y)] + b) == Live(a + [x, y] + b)
  {
  }

  /** A step that merges nothing. */
  lemma {:induction false} PassKeeps(done: seq<Node>, todo: seq<Node>)
    requires todo != [] && (done == [] || done[|done| - 1].used || todo[0].used)
    ensures Pass(done, todo) == Pass(done + [todo[0]], todo[1..])
    ensures (done + [todo[0]]) + todo[1..] == done + todo
  {
  }

  // ----- clearing and counting

  function Product(num: u32, size: u32): u32 {
    num * size % ADDRESSES
  }

  /** Because of the 32-bit product, `calloc` hands out enough exactly if it does not
      wrap around. */
  lemma CallocCoversExactly(start: nat, ns: seq<Node>, num: u32, size: u32)
    requires Tiled(start, ns)
    ensures Allocated(start, ns, Align(Product(num, size))).size >= num * size <==> num * size < ADDRESSES
  {
    hide Tiled, Allocated, Allocate;
    AllocateAddsOne(start, ns, Align(Product(num, size)));
    Wrapped(num * size);
  }

  /** 2^16 elements of 2^16 bytes: the first allocation of a heap succeeds with no byte. */
  lemma CallocExample(start: nat)
    requires start + HEADER <= ADDRESSES
    ensures var aligned := Align(Product(0x1_0000, 0x1_0000));
      FirstFit([], aligned, 0) == 0 && Top(start, []) + HEADER + aligned <= ADDRESSES &&
      Allocated(start, [], aligned).size == 0 < 0x1_0000 * 0x1_0000
  {
  }

  lemma Wrapped(p: int)
    requires p >= 0
    ensures if p < ADDRESSES then p % ADDRESSES == p else p % ADDRESSES <= p - ADDRESSES
  {
  }

  lemma PayloadInReach(m: Memory, start: nat, ns: seq<Node>, n: Node)
    requires Laid(m, start, ns) && n in ns
    ensures n.End() <= ADDRESSES
  {
    var i :| 0 <= i < |ns| && ns[i] == n;
    Below(start, ns, i);
  }

  /** Writing inside one payload leaves the list and all other payloads alone. */
  lemma PayloadWritten(m: Memory, m': Memory, start: nat, ns: seq<Node>, n: Node)
    requires Laid(m, start, ns) && n in ns
    requires forall w | 0 <= w < ADDRESSES && !(n.addr + HEADER <= w < n.End()) :: m'[w] == m[w]
    ensures Laid(m', start, ns) && PayloadsKept(m, m', Live(ns) - {n})
  {
    var i :| 0 <= i < |ns| && ns[i] == n;
    forall j | 0 <= j < |ns| ensures HeaderAt(m', ns, j) {
      assert HeaderAt(m, ns, j);
      Disjoint(start, ns, i, j);
    }
    forall o, w | o in Live(ns) - {n} && o.addr + HEADER <= w < o.End() && w < ADDRESSES ensures m'[w] == m[w] {
      var j := LiveAt(start, ns, o);
      Disjoint(start, ns, i, j);
    }
  }

  function UsedBytes(ns: seq<Node>, n: nat): nat
    requires n <= |ns|
  {
    if n == 0 then 0 else UsedBytes(ns, n - 1) + if ns[n - 1].used then ns[n - 1].size + HEADER else 0
  }

  function UsedCount(ns: seq<Node>, n: nat): nat
    requires n <= |ns|
  {
    if n == 0 then 0 else UsedCount(ns, n - 1) + if ns[n - 1].used then 1 else 0
  }

  /** What is counted as used is what is live: every live node once, with its header. */
  lemma {:induction false} UsedIsLive(start: nat, ns: seq<Node>)
    requires Tiled(start, ns)
    ensures UsedCount(ns, |ns|) == |Live(ns)|
    ensures (forall n | n in ns :: n.used) ==> UsedBytes(ns, |ns|) == Top(start, ns) - start
    ensures (forall n | n in ns :: !n.used) ==> UsedBytes(ns, |ns|) == 0
    decreases |ns|
  {
    if ns == [] {
      assert Live(ns) == {};
    } else {
      var k, n := |ns| - 1, ns[|ns| - 1];
      var front := ns[..k];
      assert ns == front + [n];
      UsedIsLive(start, front);
      UsedPrefix(ns, k, k);
      NewNode(start, ns);
    }
  }

  lemma {:induction false} UsedPrefix(ns: seq<Node>, k: nat, n: nat)
    requires n <= k <= |ns|
    ensures UsedCount(ns[..k], n) == UsedCount(ns, n) && UsedBytes(ns[..k], n) == UsedBytes(ns, n)
  {
    if n > 0 { UsedPrefix(ns, k, n - 1); }
  }

  /** The last node is none of those before. */
  lemma NewNode(start: nat, ns: seq<Node>)
    requires Tiled(start, ns) && ns != []
    ensures var k := |ns| - 1;
      |Live(ns)| == |Live(ns[..k])| + (if ns[k].used then 1 else 0) && Top(start, ns[..k]) == ns[k].addr
  {
    var k := |ns| - 1;
    if ns[k] in ns[..k] {
      var j :| 0 <= j < k && ns[j] == ns[k];
      Disjoint(start, ns, j, k);
      assert false;
    }
    assert ns == ns[..k] + [ns[k]];
    assert Live(ns) == Live(ns[..k]) + if ns[k].used then {ns[k]} else {};
  }
}
