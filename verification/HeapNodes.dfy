/** The heap of bdk/mem/heap.c as a list of nodes: what allocating and freeing do to it. */
module HeapNodes {
  const HEADER := 32       // sizeof(hnode_t)
  const SPLIT_MIN := 128   // smallest leftover worth a node of its own

  /** A node header at `addr`, followed by `size` bytes of payload. */
  datatype Node = Node(addr: nat, size: nat, used: bool) {
    function End(): nat {
      addr + HEADER + size
    }
  }

  /** `ALIGN(size, sizeof(hnode_t))` */
  function Align(size: nat): (r: nat)
    ensures size <= r < size + 32 && r % 32 == 0
  {
    (size + HEADER - 1) / HEADER * HEADER
  }

  /** The nodes follow each other without gaps, from `start` on. */
  predicate Tiled(start: nat, ns: seq<Node>) {
    && (ns != [] ==> ns[0].addr == start)
    && (forall i | 0 <= i < |ns| - 1 :: ns[i + 1].addr == ns[i].End())
    && (forall i | 0 <= i < |ns| :: ns[i].size % HEADER == 0)
  }

  /** No two neighbours are both free. */
  predicate Apart(ns: seq<Node>) {
    forall i | 0 <= i < |ns| - 1 :: ns[i].used || ns[i + 1].used
  }

  function Top(start: nat, ns: seq<Node>): nat {
    if ns == [] then start else ns[|ns| - 1].End()
  }

  function Live(ns: seq<Node>): set<Node> {
    set n | n in ns && n.used
  }

  // ----- allocation

  /** The first node from `i` on that is free and large enough, or the length. */
  function FirstFit(ns: seq<Node>, size: nat, i: nat): (r: nat)
    requires i <= |ns|
    ensures i <= r <= |ns|
    ensures r < |ns| ==> !ns[r].used && size <= ns[r].size
    ensures forall j | i <= j < r :: ns[j].used || size > ns[j].size
    decreases |ns| - i
  {
    if i == |ns| || (!ns[i].used && size <= ns[i].size) then i else FirstFit(ns, size, i + 1)
  }

  /** What an allocation makes of the free node `n`. */
  function Carve(n: Node, size: nat): (r: seq<Node>)
    requires size <= n.size
    ensures |r| > 0
  {
    var left := n.size - size;
    if left >= SPLIT_MIN
    then [Node(n.addr, size, true), Node(n.addr + HEADER + size, left - HEADER, false)]
    else [Node(n.addr, n.size, true)]
  }

  function Allocate(start: nat, ns: seq<Node>, size: nat): seq<Node> {
    var i := FirstFit(ns, size, 0);
    if i < |ns| then ns[..i] + Carve(ns[i], size) + ns[i + 1..]
    else ns + [Node(Top(start, ns), size, true)]
  }

  /** The node an allocation hands out. */
  function Allocated(start: nat, ns: seq<Node>, size: nat): (n: Node)
    ensures n in Allocate(start, ns, size) && n.used && size <= n.size
  {
    var i := FirstFit(ns, size, 0);
    assert Allocate(start, ns, size)[i] == if i < |ns| then Carve(ns[i], size)[0] else Node(Top(start, ns), size, true);
    Allocate(start, ns, size)[i]
  }

  lemma AllocateCases(start: nat, ns: seq<Node>, size: nat)
    ensures var i := FirstFit(ns, size, 0);
      if i < |ns| then
        Allocate(start, ns, size) == ns[..i] + Carve(ns[i], size) + ns[i + 1..] &&
        Allocated(start, ns, size).addr == ns[i].addr
      else
        Allocate(start, ns, size) == ns + [Node(Top(start, ns), size, true)] &&
        Allocated(start, ns, size).addr == Top(start, ns)
    ensures ns == [] ==> Allocate(start, ns, size) == [Node(start, size, true)]
  {
  }

  // ----- freeing

  function Merge(a: Node, b: Node): Node {
    Node(a.addr, a.size + b.size + HEADER, false)
  }

  /** The defragmentation pass: `done` has been walked, `todo` not yet. */
  function Pass(done: seq<Node>, todo: seq<Node>): seq<Node>
    decreases |todo|
  {
    if todo == [] then done
    else if done != [] && !done[|done| - 1].used && !todo[0].used
    then Pass(done[..|done| - 1] + [Merge(done[|done| - 1], todo[0])], todo[1..])
    else Pass(done + [todo[0]], todo[1..])
  }

  function Freed(ns: seq<Node>, i: nat): seq<Node>
    requires i < |ns|
  {
    Pass([], ns[i := ns[i].(used := false)])
  }

  // ----- layout

  lemma {:induction false} Ordered(start: nat, ns: seq<Node>, i: nat, j: nat)
    requires Tiled(start, ns) && i < j < |ns|
    ensures ns[i].End() <= ns[j].addr
  {
    if i + 1 < j { Ordered(start, ns, i, j - 1); }
  }

  /** Distinct nodes occupy disjoint memory, so each is determined by its address. */
  lemma Disjoint(start: nat, ns: seq<Node>, i: nat, j: nat)
    requires Tiled(start, ns) && i < |ns| && j < |ns|
    ensures i != j ==> ns[i].End() <= ns[j].addr || ns[j].End() <= ns[i].addr
    ensures ns[i].addr == ns[j].addr <==> i == j
  {
    if i < j { Ordered(start, ns, i, j); }
    if j < i { Ordered(start, ns, j, i); }
  }

  lemma Below(start: nat, ns: seq<Node>, i: nat)
    requires Tiled(start, ns) && i < |ns|
    ensures start <= ns[i].addr && ns[i].End() <= Top(start, ns)
  {
    if i > 0 { Ordered(start, ns, 0, i); }
    if i < |ns| - 1 { Ordered(start, ns, i, |ns| - 1); }
  }

  /** Replacing a stretch of nodes by others over the same memory. */
  lemma Replaced(start: nat, a: seq<Node>, old_: seq<Node>, new_: seq<Node>, b: seq<Node>)
    requires Tiled(start, a + old_ + b) && old_ != [] && new_ != []
    requires Tiled(old_[0].addr, new_) && Top(0, new_) == Top(0, old_)
    ensures Tiled(start, a + new_ + b) && Top(start, a + new_ + b) == Top(start, a + old_ + b)
  {
    var x, y := a + old_ + b, a + new_ + b;
    forall i | 0 <= i < |y| - 1 ensures y[i + 1].addr == y[i].End() {
      if i + 1 < |a| {
        assert y[i] == x[i] && y[i + 1] == x[i + 1];
      } else if i + 1 == |a| {
        assert x[i + 1].addr == x[i].End();
      } else if i + 1 < |a| + |new_| {
        assert y[i + 1] == new_[i + 1 - |a|] && y[i] == new_[i - |a|];
      } else {
        var d := |new_| - |old_|;
        assert y[i + 1] == x[i + 1 - d] && x[i + 1 - d].addr == x[i - d].End();
      }
    }
    forall i | 0 <= i < |y| ensures y[i].size % HEADER == 0 {
      if i >= |a| + |new_| { assert y[i] == x[i - |new_| + |old_|]; }
      else if i < |a| { assert y[i] == x[i]; }
      else { assert y[i] == new_[i - |a|]; }
    }
  }

  lemma CarveTiles(n: Node, size: nat)
    requires size <= n.size && n.size % HEADER == 0 && size % HEADER == 0
    ensures Tiled(n.addr, Carve(n, size)) && Top(0, Carve(n, size)) == n.End()
  {
    if n.size - size >= SPLIT_MIN { MultipleDifference(n.size, size); }
  }

  lemma MultipleDifference(a: nat, b: nat)
    requires b + HEADER <= a && a % HEADER == 0 && b % HEADER == 0
    ensures (a - b - HEADER) % HEADER == 0
  {
    var p, q := a / HEADER, b / HEADER;
    assert a == 32 * p && b == 32 * q;
    assert a - b - HEADER == 32 * (p - q - 1);
  }

  // ----- main results about allocation

  lemma AllocateKeepsTiling(start: nat, ns: seq<Node>, size: nat)
    requires Tiled(start, ns) && size % HEADER == 0
    ensures Tiled(start, Allocate(start, ns, size))
    ensures var i := FirstFit(ns, size, 0);
            Top(start, Allocate(start, ns, size)) == if i < |ns| then Top(start, ns) else Top(start, ns) + HEADER + size
  {
    var i := FirstFit(ns, size, 0);
    if i < |ns| {
      assert ns == ns[..i] + [ns[i]] + ns[i + 1..];
      CarveTiles(ns[i], size);
      Replaced(start, ns[..i], [ns[i]], Carve(ns[i], size), ns[i + 1..]);
    }
  }

  /** A split never leaves two free neighbours, because the node it splits had none. */
  lemma AllocateKeepsApart(start: nat, ns: seq<Node>, size: nat)
    requires Apart(ns)
    ensures Apart(Allocate(start, ns, size))
  {
  }

  /** Exactly one node becomes live; it is new and large enough, by less than a split. */
  lemma AllocateAddsOne(start: nat, ns: seq<Node>, size: nat)
    requires Tiled(start, ns)
    ensures Live(Allocate(start, ns, size)) == Live(ns) + {Allocated(start, ns, size)}
    ensures forall n | n in Live(ns) :: n.addr != Allocated(start, ns, size).addr
    ensures size <= Allocated(start, ns, size).size < size + 128
  {
    if FirstFit(ns, size, 0) < |ns| {
      CarveAddsOne(start, ns, size, FirstFit(ns, size, 0));
    } else {
      AppendAddsOne(start, ns, size);
    }
  }

  lemma CarveAddsOne(start: nat, ns: seq<Node>, size: nat, i: nat)
    requires Tiled(start, ns) && i < |ns| && !ns[i].used && size <= ns[i].size
    ensures var c := Carve(ns[i], size);
      Live(ns[..i] + c + ns[i + 1..]) == Live(ns) + {c[0]} && size <= c[0].size < size + SPLIT_MIN
    ensures forall n | n in Live(ns) :: n.addr != Carve(ns[i], size)[0].addr
  {
    var c := Carve(ns[i], size);
    assert ns == ns[..i] + [ns[i]] + ns[i + 1..];
    assert forall n | n in c && n.used :: n == c[0];
    forall n | n in Live(ns) ensures n.addr != c[0].addr {
      var j := LiveAt(start, ns, n);
      Disjoint(start, ns, i, j);
    }
  }

  lemma AppendAddsOne(start: nat, ns: seq<Node>, size: nat)
    requires Tiled(start, ns)
    ensures Live(ns + [Node(Top(start, ns), size, true)]) == Live(ns) + {Node(Top(start, ns), size, true)}
    ensures forall n | n in Live(ns) :: n.addr != Top(start, ns)
  {
    forall n | n in Live(ns) ensures n.addr != Top(start, ns) {
      var j := LiveAt(start, ns, n);
      Below(start, ns, j);
    }
  }

  /** A free node is split exactly if it is larger by 128 bytes or more, into a node of the
      size wanted and a free one of the rest less a header. */
  lemma SplitExactly(n: Node, size: nat)
    requires size <= n.size
    ensures |Carve(n, size)| == if n.size >= size + 128 then 2 else 1
    ensures Carve(n, size)[0] == Node(n.addr, if n.size >= size + 128 then size else n.size, true)
    ensures n.size >= size + 128 ==> Carve(n, size)[1] == Node(n.addr + 32 + size, n.size - size - 32, false)
  {
  }

  // ----- main results about freeing

  /** The pass keeps the memory covered, whatever it is given. */
  lemma {:induction false} PassKeepsTiling(start: nat, done: seq<Node>, todo: seq<Node>)
    requires Tiled(start, done + todo)
    ensures Tiled(start, Pass(done, todo)) && Top(start, Pass(done, todo)) == Top(start, done + todo)
    decreases |todo|
  {
    if todo == [] {
      assert done + todo == done;
    } else if done != [] && !done[|done| - 1].used && !todo[0].used {
      var k := |done| - 1;
      var m := Merge(done[k], todo[0]);
      assert done + todo == done[..k] + [done[k], todo[0]] + todo[1..];
      assert (done + todo)[k + 1].addr == (done + todo)[k].End();
      MergeTiles(done[k], todo[0]);
      Replaced(start, done[..k], [done[k], todo[0]], [m], todo[1..]);
      assert done[..k] + [m] + todo[1..] == (done[..k] + [m]) + todo[1..];
      PassKeepsTiling(start, done[..k] + [m], todo[1..]);
    } else {
      assert done + todo == (done + [todo[0]]) + todo[1..];
      PassKeepsTiling(start, done + [todo[0]], todo[1..]);
    }
  }

  lemma MergeTiles(a: Node, b: Node)
    requires b.addr == a.End() && a.size % HEADER == 0 && b.size % HEADER == 0
    ensures Tiled(a.addr, [Merge(a, b)]) && Top(0, [Merge(a, b)]) == b.End()
  {
  }

  /** One pass leaves no two free neighbours, from any list. */
  lemma {:induction false} PassSeparates(done: seq<Node>, todo: seq<Node>)
    requires Apart(done)
    ensures Apart(Pass(done, todo))
    decreases |todo|
  {
    if todo != [] {
      if done != [] && !done[|done| - 1].used && !todo[0].used {
        var k := |done| - 1;
        var d := done[..k] + [Merge(done[k], todo[0])];
        forall i | 0 <= i < |d| - 1 ensures d[i].used || d[i + 1].used {
          assert done[i].used || done[i + 1].used;
        }
        PassSeparates(d, todo[1..]);
      } else {
        PassSeparates(done + [todo[0]], todo[1..]);
      }
    }
  }

  /** The pass touches no live node. */
  lemma {:induction false} PassKeepsLive(done: seq<Node>, todo: seq<Node>)
    ensures Live(Pass(done, todo)) == Live(done + todo)
    decreases |todo|
  {
    if todo == [] {
      assert done + todo == done;
    } else if done != [] && !done[|done| - 1].used && !todo[0].used {
      var k := |done| - 1;
      var d := done[..k] + [Merge(done[k], todo[0])];
      PassKeepsLive(d, todo[1..]);
      assert done == done[..k] + [done[k]] && todo == [todo[0]] + todo[1..];
      assert Live(d + todo[1..]) == Live(done + todo);
    } else {
      PassKeepsLive(done + [todo[0]], todo[1..]);
      assert (done + [todo[0]]) + todo[1..] == done + todo;
    }
  }

  lemma FreedResult(start: nat, ns: seq<Node>, i: nat)
    requires Tiled(start, ns) && i < |ns|
    ensures Tiled(start, Freed(ns, i)) && Top(start, Freed(ns, i)) == Top(start, ns)
    ensures Apart(Freed(ns, i))
    ensures Live(Freed(ns, i)) == Live(ns) - {ns[i]}
  {
    var fs := ns[i := ns[i].(used := false)];
    assert [] + fs == fs;
    Unmarked(start, ns, i);
    hide Tiled, Live;
    PassKeepsTiling(start, [], fs);
    PassSeparates([], fs);
    PassKeepsLive([], fs);
  }

  lemma Unmarked(start: nat, ns: seq<Node>, i: nat)
    requires Tiled(start, ns) && i < |ns|
    ensures var fs := ns[i := ns[i].(used := false)];
            Tiled(start, fs) && Top(start, fs) == Top(start, ns) && Live(fs) == Live(ns) - {ns[i]}
  {
    var fs := ns[i := ns[i].(used := false)];
    forall n ensures n in Live(fs) <==> n in Live(ns) - {ns[i]} {
      if n in Live(fs) {
        var j := LiveAt(start, fs, n);
        Disjoint(start, ns, i, j);
      }
      if n in Live(ns) - {ns[i]} {
        var j := LiveAt(start, ns, n);
        assert fs[j] == n;
      }
    }
  }

  /** A node list is determined by its extent and its live nodes once no two free nodes
      are neighbours: the pass has only one possible outcome. */
  lemma {:induction false} Canonical(start: nat, a: seq<Node>, b: seq<Node>)
    requires Tiled(start, a) && Tiled(start, b) && Apart(a) && Apart(b)
    requires Top(start, a) == Top(start, b) && Live(a) == Live(b)
    ensures a == b
    decreases |a|
  {
    if a == [] {
      if b != [] { Below(start, b, 0); }
    } else if b == [] {
      Below(start, a, 0);
    } else {
      SameHead(start, a, b);
      SameHead(start, b, a);
      SameLive(start, a, b);
      if |a| > 1 { assert a[1].addr == a[0].End(); Below(start, a, 1); }
      if |b| > 1 { assert b[1].addr == b[0].End(); Below(start, b, 1); }
      Canonical(a[0].End(), a[1..], b[1..]);
    }
  }

  lemma LiveAt(start: nat, ns: seq<Node>, n: Node) returns (j: nat)
    requires n in Live(ns)
    ensures j < |ns| && ns[j] == n
  {
    j :| 0 <= j < |ns| && ns[j] == n;
  }

  /** The head of `a` is no smaller than that of `b`, and live if that is. */
  lemma SameHead(start: nat, a: seq<Node>, b: seq<Node>)
    requires Tiled(start, a) && Tiled(start, b) && Apart(a) && Apart(b) && a != [] && b != []
    requires Top(start, a) == Top(start, b) && Live(a) == Live(b)
    ensures b[0].used ==> a[0] == b[0]
    ensures !a[0].used && !b[0].used ==> a[0].size >= b[0].size
  {
    if b[0].used {
      assert b[0] in Live(b);
      var j := LiveAt(start, a, b[0]);
      Disjoint(start, a, 0, j);
    } else if !a[0].used && a[0].size < b[0].size {
      Below(start, b, 0);
      assert |a| > 1 && a[1].addr == a[0].End();
      assert a[0].used || a[1].used;
      assert a[1] in Live(a);
      var j := LiveAt(start, b, a[1]);
      Disjoint(start, b, 0, j);
    }
  }

  lemma SameLive(start: nat, a: seq<Node>, b: seq<Node>)
    requires Tiled(start, a) && Tiled(start, b) && a != [] && b != [] && a[0] == b[0] && Live(a) == Live(b)
    ensures Live(a[1..]) == Live(b[1..])
  {
    forall n ensures n in Live(a[1..]) <==> n in Live(b[1..]) {
      if n in Live(a[1..]) { TailLive(start, a, b, n); }
      if n in Live(b[1..]) { TailLive(start, b, a, n); }
    }
  }

  lemma TailLive(start: nat, a: seq<Node>, b: seq<Node>, n: Node)
    requires Tiled(start, a) && a != [] && b != [] && a[0] == b[0] && Live(a) == Live(b) && n in Live(a[1..])
    ensures n in Live(b[1..])
  {
    var j := LiveAt(start, a[1..], n);
    assert a[j + 1] == n && n in Live(a);
    Disjoint(start, a, 0, j + 1);
    var k := LiveAt(start, b, n);
    assert b[1..][k - 1] == n;
  }

  /** Once nothing is live, one free node covers the whole extent. */
  lemma AllFreed(start: nat, ns: seq<Node>)
    requires Tiled(start, ns) && Apart(ns) && Live(ns) == {} && Top(start, ns) > start
    ensures |ns| == 1 && !ns[0].used && ns[0].addr == start && ns[0].End() == Top(start, ns)
  {
    assert |ns| > 1 ==> ns[0].used || ns[1].used;
    forall i | 0 <= i < |ns| ensures !ns[i].used {
      assert ns[i] !in Live(ns);
    }
  }
}
