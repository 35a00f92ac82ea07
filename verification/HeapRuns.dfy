/** Whole sequences of malloc and free calls, against a log of what the callers hold. */
module HeapRuns {
  import opened Bits
  import opened HeapNodes
  import opened Heap

  datatype Call = Malloc(size: u32) | Zalloc(size: u32) | Calloc(num: u32, size: u32) | Free(buf: nat) {
    /** What an allocating call asks for, as the 32 bits of the code have it. */
    function Request(): u32
      requires !Free?
    {
      if Calloc? then Product(num, size) else size
    }
  }

  /** The node list, and the nodes handed out and not yet given back, with the sizes that
      were asked for. */
  datatype State = State(nodes: seq<Node>, held: map<Node, nat>)

  /** The calls a caller may make: what it asks for fits below the top of the address
      space, and what it gives back it was handed before, or lies below the heap, as NULL
      does. */
  ghost predicate Ok(start: nat, st: State, c: Call) {
    if c.Free? then c.buf >= start ==> IsPayload(st.nodes, c.buf)
    else
      var size := Align(c.Request());
      size < ADDRESSES &&
      (FirstFit(st.nodes, size, 0) == |st.nodes| ==> Top(start, st.nodes) + HEADER + size <= ADDRESSES)
  }

  ghost function Step(start: nat, st: State, c: Call): State
    requires Ok(start, st, c)
  {
    if c.Free? then
      if c.buf < start then st
      else var i := NodeOf(st.nodes, c.buf); State(Freed(st.nodes, i), st.held - {st.nodes[i]})
    else
      var size := Align(c.Request());
      State(Allocate(start, st.nodes, size), st.held[Allocated(start, st.nodes, size) := c.Request()])
  }

  /** The layout is sound, and the callers hold exactly the live nodes, each at least as
      large as asked for. */
  ghost predicate Good(start: nat, st: State) {
    && Tiled(start, st.nodes) && Apart(st.nodes) && Top(start, st.nodes) <= ADDRESSES
    && st.held.Keys == Live(st.nodes)
    && forall n | n in st.held :: st.held[n] <= n.size
  }

  ghost predicate RunOk(start: nat, st: State, cs: seq<Call>)
    decreases |cs|
  {
    cs == [] || (Ok(start, st, cs[0]) && RunOk(start, Step(start, st, cs[0]), cs[1..]))
  }

  ghost function RunAll(start: nat, st: State, cs: seq<Call>): State
    requires RunOk(start, st, cs)
    decreases |cs|
  {
    if cs == [] then st else RunAll(start, Step(start, st, cs[0]), cs[1..])
  }

  lemma StepKeepsGood(start: nat, st: State, c: Call)
    requires Good(start, st) && Ok(start, st, c)
    ensures Good(start, Step(start, st, c))
  {
    if c.Free? {
      if c.buf >= start { FreedResult(start, st.nodes, NodeOf(st.nodes, c.buf)); }
    } else {
      var size := Align(c.Request());
      AllocateKeepsTiling(start, st.nodes, size);
      AllocateKeepsApart(start, st.nodes, size);
      AllocateAddsOne(start, st.nodes, size);
    }
  }

  /** Every run keeps the layout, no two free neighbours, and the callers' nodes. */
  lemma {:induction false} RunKeepsGood(start: nat, st: State, cs: seq<Call>)
    requires Good(start, st) && RunOk(start, st, cs)
    ensures Good(start, RunAll(start, st, cs))
    decreases |cs|
  {
    if cs != [] {
      StepKeepsGood(start, st, cs[0]);
      RunKeepsGood(start, Step(start, st, cs[0]), cs[1..]);
    }
  }

  /** What callers hold never overlaps, and lies inside the heap. */
  lemma HeldApart(start: nat, st: State, m: Node, n: Node)
    requires Good(start, st) && m in st.held && n in st.held && m != n
    ensures m.End() <= n.addr || n.End() <= m.addr
    ensures start <= m.addr && m.addr + HEADER + st.held[m] <= Top(start, st.nodes)
  {
    var i := LiveAt(start, st.nodes, m);
    var j := LiveAt(start, st.nodes, n);
    Disjoint(start, st.nodes, i, j);
    Below(start, st.nodes, i);
  }

  /** After any run from the empty heap that gives everything back, the heap is either
      still unused or one free node over all it ever reached. */
  lemma AllGivenBack(start: nat, cs: seq<Call>)
    requires 0 < start <= ADDRESSES && RunOk(start, State([], map[]), cs)
    requires RunAll(start, State([], map[]), cs).held == map[]
    ensures var ns := RunAll(start, State([], map[]), cs).nodes;
            ns == [] || (|ns| == 1 && !ns[0].used && ns[0].addr == start && ns[0].End() == Top(start, ns))
  {
    RunKeepsGood(start, State([], map[]), cs);
    var st := RunAll(start, State([], map[]), cs);
    if st.nodes != [] {
      Below(start, st.nodes, 0);
      AllFreed(start, st.nodes);
    }
  }

  /** The nodes live before, between and after all the calls. */
  ghost function LiveThroughout(start: nat, st: State, cs: seq<Call>): set<Node>
    requires RunOk(start, st, cs)
    decreases |cs|
  {
    if cs == [] then Live(st.nodes) else Live(st.nodes) * LiveThroughout(start, Step(start, st, cs[0]), cs[1..])
  }

  lemma LiveAtBothEnds(start: nat, st: State, cs: seq<Call>)
    requires RunOk(start, st, cs)
    ensures LiveThroughout(start, st, cs) <= Live(st.nodes)
    ensures cs != [] ==> LiveThroughout(start, st, cs) <= LiveThroughout(start, Step(start, st, cs[0]), cs[1..])
  {
  }

  /** The calls, made on the allocator itself: the nodes are those of the log, and no byte
      of a payload that stays live all along changes. */
  method Run(heap: Arena, cs: seq<Call>, ghost st: State)
    requires heap.Valid() && heap.nodes == st.nodes && Good(heap.start, st) && RunOk(heap.start, st, cs)
    modifies heap`mem, heap`first, heap`last, heap`nodes
    ensures heap.Valid()
    ensures heap.nodes == RunAll(heap.start, st, cs).nodes
    ensures PayloadsKept(old(heap.mem), heap.mem, LiveThroughout(heap.start, st, cs))
    decreases |cs|
  {
    hide Laid, Good, Apart, Allocate, Allocated, Freed, PayloadsKept, LiveThroughout, Live;
    LiveAtBothEnds(heap.start, st, cs);
    ghost var m0 := heap.mem;
    if cs == [] {
      KeptNone(m0, LiveThroughout(heap.start, st, cs));
      return;
    }
    StepKeepsGood(heap.start, st, cs[0]);
    ghost var after := Step(heap.start, st, cs[0]);
    match cs[0] {
      case Malloc(size) =>
        var ptr := heap.Malloc(size);
        KeptFewer(m0, heap.mem, Live(st.nodes), LiveThroughout(heap.start, st, cs));
      case Zalloc(size) =>
        var ptr := heap.Zalloc(size);
        KeptFewer(m0, heap.mem, Live(st.nodes), LiveThroughout(heap.start, st, cs));
      case Calloc(num, size) =>
        var ptr := heap.Calloc(num, size);
        KeptFewer(m0, heap.mem, Live(st.nodes), LiveThroughout(heap.start, st, cs));
      case Free(buf) =>
        heap.Free(buf);
        LiveAtBothEnds(heap.start, after, cs[1..]);
        KeptFewer(m0, heap.mem, Live(after.nodes), LiveThroughout(heap.start, st, cs));
    }
    ghost var m1 := heap.mem;
    Run(heap, cs[1..], after);
    KeptFewer(m1, heap.mem, LiveThroughout(heap.start, after, cs[1..]), LiveThroughout(heap.start, st, cs));
    KeptTwice(m0, m1, heap.mem, LiveThroughout(heap.start, st, cs));
  }

  lemma KeptFewer(m: Memory, m': Memory, more: set<Node>, live: set<Node>)
    requires PayloadsKept(m, m', more) && live <= more
    ensures PayloadsKept(m, m', live)
  {
  }
}
