/** Whole sequences of mapping calls on one domain, and what they amount to: a flat map in
    which the last call covering a page decides. */
module SmmuRuns {
  import opened Bits
  import opened SmmuLayout
  import opened Smmu

  /** One call of `smmu_map` or `smmu_map_huge`. */
  datatype Op =
    | Map(iova: u32, iopa: nat, pages: nat, attr: nat)
    | MapHuge(iova: u32, iopa: nat, regions: nat, attr: nat)
  {
    /** The pages the call is about: first virtual page, first physical page, count. */
    function First(): nat {
      if Map? then PageOf(iova) else iova / 0x40_0000 * COUNT
    }

    function Target(): nat {
      if Map? then PageOf(iopa) else iopa / 0x40_0000 * COUNT
    }

    function Pages(): nat {
      if Map? then pages else regions * COUNT
    }

    predicate Covers(v: nat) {
      First() <= v < First() + Pages()
    }

    /** What page `v`, covered by the call, is to translate to. */
    function EntryFor(v: nat): Entry
      requires Covers(v)
    {
      PageTarget(Target(), v - First(), attr)
    }

    /** The calls a caller may make: inside the address space, with `room` pages left for
        tables, and `smmu_map` not on a slot with a permitted 4 MB entry. */
    predicate Fits(dom: Domain, room: nat) {
      && First() + Pages() <= CPU_PAGES
      && (Map? ==> SlotsOf(First(), Pages()) !! dom.huge && |NewTables(dom, First(), Pages())| <= room)
    }

    function Need(dom: Domain): nat {
      if Map? then |NewTables(dom, First(), Pages())| else 0
    }

    function Apply(dom: Domain): (r: Domain)
      requires |dom.flat| == CPU_PAGES
      ensures |r.flat| == CPU_PAGES
    {
      if Map? then Mapped(dom, First(), Target(), pages, attr)
      else MappedHuge(dom, iova / 0x40_0000, iopa / 0x40_0000, regions, attr)
    }
  }

  predicate RunFits(dom: Domain, ops: seq<Op>, room: nat)
    requires |dom.flat| == CPU_PAGES
    decreases |ops|
  {
    ops == [] || (ops[0].Fits(dom, room) && RunFits(ops[0].Apply(dom), ops[1..], room - ops[0].Need(dom)))
  }

  function RunDomain(dom: Domain, ops: seq<Op>): (r: Domain)
    requires |dom.flat| == CPU_PAGES
    ensures |r.flat| == CPU_PAGES
    decreases |ops|
  {
    if ops == [] then dom else RunDomain(ops[0].Apply(dom), ops[1..])
  }

  function RunNeed(dom: Domain, ops: seq<Op>): nat
    requires |dom.flat| == CPU_PAGES
    decreases |ops|
  {
    if ops == [] then 0 else ops[0].Need(dom) + RunNeed(ops[0].Apply(dom), ops[1..])
  }

  /** The flat map after a run: the tables are gone from the picture. */
  function FlatRun(f: seq<Entry>, ops: seq<Op>): (r: seq<Entry>)
    requires |f| == CPU_PAGES
    ensures |r| == CPU_PAGES
    decreases |ops|
  {
    if ops == [] then f
    else FlatRun(FlatMap(f, ops[0].First(), ops[0].Target(), ops[0].Pages(), ops[0].attr), ops[1..])
  }

  /** Makes the calls one after another. */
  method Run(smmu: Tables, ptb: nat, ops: seq<Op>)
    requires smmu.Valid() && smmu.Live(ptb)
    requires RunFits(smmu.Of(PageOf(ptb)), ops, CPU_PAGES - smmu.Top())
    modifies smmu`heap, smmu`tlb, smmu`mem
    ensures unchanged(smmu`domains) && smmu.Valid()
    ensures if ops == [] then unchanged(smmu`tlb) else smmu.tlb == map[]
    ensures smmu.Of(PageOf(ptb)) == RunDomain(old(smmu.Of(PageOf(ptb))), ops)
    ensures smmu.Of(PageOf(ptb)).flat == FlatRun(old(smmu.Of(PageOf(ptb))).flat, ops)
    ensures smmu.Top() == old(smmu.Top()) + RunNeed(old(smmu.Of(PageOf(ptb))), ops)
    ensures OthersKept(old(smmu.mem), smmu.mem, smmu.domains, PageOf(ptb))
    decreases |ops|
  {
    hide View, Owned, OthersKept, PageOf, NewTables, SlotsOf, Mapped, MappedHuge;
    if ops == [] {
      OthersKeptNone(smmu.mem, smmu.domains, PageOf(ptb));
      return;
    }
    ghost var m0 := smmu.mem;
    TopInReach(smmu.mem, smmu.domains, smmu.Base(), smmu.Top());
    RunIsFlat(smmu.Of(PageOf(ptb)), ops, CPU_PAGES - smmu.Top());
    RunOne(smmu, ptb, ops[0]);
    ghost var m1 := smmu.mem;
    Run(smmu, ptb, ops[1..]);
    OthersKeptTwice(m0, m1, smmu.mem, smmu.domains, PageOf(ptb));
  }

  lemma TopInReach(m: Memory, domains: set<nat>, base: nat, top: nat)
    requires Owned(m, domains, base, top)
    ensures top <= CPU_PAGES
  {
  }

  method RunOne(smmu: Tables, ptb: nat, op: Op)
    requires smmu.Valid() && smmu.Live(ptb)
    requires op.Fits(smmu.Of(PageOf(ptb)), CPU_PAGES - smmu.Top())
    modifies smmu`heap, smmu`tlb, smmu`mem
    ensures unchanged(smmu`domains) && smmu.Valid() && smmu.tlb == map[]
    ensures smmu.Of(PageOf(ptb)) == op.Apply(old(smmu.Of(PageOf(ptb))))
    ensures smmu.Top() == old(smmu.Top()) + op.Need(old(smmu.Of(PageOf(ptb))))
    ensures OthersKept(old(smmu.mem), smmu.mem, smmu.domains, PageOf(ptb))
  {
    ghost var m0, top0, d := smmu.mem, smmu.Top(), PageOf(ptb);
    match op
    case Map(iova, iopa, pages, attr) =>
      NoHugeNoStray(m0, d, PageOf(iova), pages, smmu.Base(), top0);
      smmu.Map(ptb, iova, iopa, pages, attr);
      MappedParts(m0, top0, smmu.mem, smmu.Top(), smmu.domains, d, op);
    case MapHuge(iova, iopa, regions, attr) =>
      smmu.MapHuge(ptb, iova, iopa, regions, attr);
  }

  lemma NoHugeNoStray(m: Memory, d: nat, vpn: nat, n: nat, base: nat, top: nat)
    requires d < CPU_PAGES && vpn + n <= CPU_PAGES && SlotsOf(vpn, n) !! View(m, d).huge
    requires top + |NewTables(View(m, d), vpn, n)| <= CPU_PAGES
    ensures MapFits(m, d, vpn, n, base, top)
  {
    forall s | s in SlotsOf(vpn, n) && s < COUNT ensures !IsHuge(Pde(m, d, s)) {
      SlotKind(m, d, s);
    }
  }

  lemma MappedParts(m0: Memory, top0: nat, m: Memory, top: nat, domains: set<nat>, d: nat, op: Op)
    requires d < CPU_PAGES && op.Map?
    requires HasMapped(m0, top0, m, top, domains, d, op.First(), op.Target(), op.pages, op.attr)
    ensures View(m, d) == op.Apply(View(m0, d)) && top == top0 + op.Need(View(m0, d))
    ensures OthersKept(m0, m, domains, d)
  {
  }

  // ----- the flat view

  /** Mapping 4 MB regions translates like mapping their pages one by one. */
  lemma HugeIsPages(dom: Domain, s: nat, region: nat, n: nat, attr: nat)
    requires |dom.flat| == CPU_PAGES
    ensures MappedHuge(dom, s, region, n, attr).flat == FlatMap(dom.flat, s * COUNT, region * COUNT, n * COUNT, attr)
  {
    var a, b := MappedHuge(dom, s, region, n, attr).flat, FlatMap(dom.flat, s * COUNT, region * COUNT, n * COUNT, attr);
    forall v | 0 <= v < CPU_PAGES ensures a[v] == b[v] {
      if s <= v / COUNT < s + n {
        RegionPage(region, v / COUNT - s, v % COUNT, v - s * COUNT);
      }
    }
  }

  lemma RegionPage(region: nat, k: nat, off: nat, j: nat)
    requires off < COUNT && j == k * COUNT + off
    ensures (region + k) % 0x1000 * COUNT + off == (region * COUNT + j) % PFNS
  {
    var q, r := (region + k) / 0x1000, (region + k) % 0x1000;
    assert region * COUNT + j == (r * COUNT + off) + q * PFNS;
  }

  /** `smmu_map` is the flat map exactly if every page it is aimed at that lies in a slot
      with a permitted 4 MB entry already has the wanted translation. */
  lemma MappedIsFlatExactly(dom: Domain, vpn: nat, pfn: nat, n: nat, attr: nat)
    requires |dom.flat| == CPU_PAGES && vpn + n <= CPU_PAGES
    ensures Mapped(dom, vpn, pfn, n, attr).flat == FlatMap(dom.flat, vpn, pfn, n, attr) <==>
            forall v | vpn <= v < vpn + n && v / COUNT in dom.huge :: dom.flat[v] == PageTarget(pfn, v - vpn, attr)
  {
    var a, b := Mapped(dom, vpn, pfn, n, attr).flat, FlatMap(dom.flat, vpn, pfn, n, attr);
    if a == b {
      forall v | vpn <= v < vpn + n && v / COUNT in dom.huge
        ensures dom.flat[v] == PageTarget(pfn, v - vpn, attr)
      {
        assert a[v] == b[v];
      }
    }
  }

  lemma MappedIsFlat(dom: Domain, vpn: nat, pfn: nat, n: nat, attr: nat)
    requires |dom.flat| == CPU_PAGES && vpn + n <= CPU_PAGES && SlotsOf(vpn, n) !! dom.huge
    ensures Mapped(dom, vpn, pfn, n, attr).flat == FlatMap(dom.flat, vpn, pfn, n, attr)
  {
    forall v | vpn <= v < vpn + n ensures v / COUNT !in dom.huge {
      InSlots(vpn, n, v / COUNT);
    }
    MappedIsFlatExactly(dom, vpn, pfn, n, attr);
  }

  /** A run, walked through directories and tables, is its flat run. */
  lemma {:induction false} RunIsFlat(dom: Domain, ops: seq<Op>, room: nat)
    requires |dom.flat| == CPU_PAGES && RunFits(dom, ops, room)
    ensures RunDomain(dom, ops).flat == FlatRun(dom.flat, ops)
    decreases |ops|
  {
    if ops != [] {
      var op := ops[0];
      if op.Map? {
        MappedIsFlat(dom, op.First(), op.Target(), op.pages, op.attr);
      } else {
        HugeIsPages(dom, op.iova / 0x40_0000, op.iopa / 0x40_0000, op.regions, op.attr);
      }
      RunIsFlat(op.Apply(dom), ops[1..], room - op.Need(dom));
    }
  }

  /** The last call covering a page decides its translation; the others do not matter. */
  lemma {:induction false} LastWriterWins(f: seq<Entry>, ops: seq<Op>, v: nat)
    requires |f| == CPU_PAGES && v < CPU_PAGES
    ensures (forall i | 0 <= i < |ops| :: !ops[i].Covers(v)) ==> FlatRun(f, ops)[v] == f[v]
    ensures forall i | 0 <= i < |ops| && ops[i].Covers(v) && (forall j | i < j < |ops| :: !ops[j].Covers(v)) ::
              FlatRun(f, ops)[v] == ops[i].EntryFor(v)
    decreases |ops|
  {
    if ops != [] {
      var f' := FlatMap(f, ops[0].First(), ops[0].Target(), ops[0].Pages(), ops[0].attr);
      var rest := ops[1..];
      LastWriterWins(f', rest, v);
      forall i | 0 <= i < |ops| && ops[i].Covers(v) && (forall j | i < j < |ops| :: !ops[j].Covers(v))
        ensures FlatRun(f, ops)[v] == ops[i].EntryFor(v)
      {
        if i == 0 {
          forall j | 0 <= j < |rest| ensures !rest[j].Covers(v) { assert !ops[j + 1].Covers(v); }
        } else {
          forall j | i - 1 < j < |rest| ensures !rest[j].Covers(v) { assert !ops[j + 1].Covers(v); }
          assert rest[i - 1].Covers(v);
        }
      }
      if forall i | 0 <= i < |ops| :: !ops[i].Covers(v) {
        assert !ops[0].Covers(v);
        forall j | 0 <= j < |rest| ensures !rest[j].Covers(v) { assert !ops[j + 1].Covers(v); }
      }
    }
  }

  /** The size of what one unit of a call covers. */
  function Unit(op: Op): nat {
    if op.Map? then 0x1000 else 0x40_0000
  }

  /** In addresses: an aligned call covers as many bytes from `iova` on as its pages or regions
      have. */
  lemma CoversAddresses(op: Op, va: nat)
    requires op.iova % Unit(op) == 0
    ensures op.Covers(va / 0x1000) <==>
      op.iova <= va < op.iova + Unit(op) * (if op.Map? then op.pages else op.regions)
  {
    if op.Map? {
      Exact(op.iova, 0x1000);
      Reaches(op.iova / 0x1000, op.pages, va);
    } else {
      Exact(op.iova, 0x40_0000);
      Reaches(op.iova / 0x40_0000 * COUNT, op.regions * COUNT, va);
    }
  }

  lemma Reaches(u: nat, n: nat, va: nat)
    ensures u <= va / 0x1000 < u + n <==> 0x1000 * u <= va < 0x1000 * (u + n)
  {
  }

  /** ... and a covered address leads to the page of the address as far behind `iopa`. */
  lemma TargetAddress(op: Op, va: nat)
    requires op.iova % Unit(op) == 0 == op.iopa % Unit(op) && op.Covers(va / 0x1000) && 0 < op.attr < 8
    requires op.iova <= va && op.iopa + (va - op.iova) < 0x4_0000_0000
    ensures op.EntryFor(va / 0x1000) == Access((op.iopa + (va - op.iova)) / 0x1000, op.attr)
  {
    var u, v := op.First(), op.Target();
    AlignedCall(op);
    PageBehind(u, v, va);
    PhysicalPage(v + (va / 0x1000 - u), op.iopa + (va - op.iova));
  }

  lemma AlignedCall(op: Op)
    requires op.iova % Unit(op) == 0 == op.iopa % Unit(op)
    ensures op.iova == 0x1000 * op.First() && op.iopa == 0x1000 * op.Target()
  {
    if op.Map? {
      Exact(op.iova, 0x1000);
      Exact(op.iopa, 0x1000);
    } else {
      Exact(op.iova, 0x40_0000);
      Exact(op.iopa, 0x40_0000);
    }
  }

  lemma Exact(a: nat, unit: nat)
    requires unit in {0x1000, 0x40_0000} && a % unit == 0
    ensures a == unit * (a / unit)
  {
  }

  /** Below 2^34 no page number is cut. */
  lemma PhysicalPage(p: nat, a: nat)
    requires p == a / 0x1000 && a < 0x4_0000_0000
    ensures p % PFNS == p
  {
  }

  lemma PageBehind(u: nat, v: nat, va: nat)
    requires 0x1000 * u <= va
    ensures va / 0x1000 >= u && (0x1000 * v + (va - 0x1000 * u)) / 0x1000 == v + (va / 0x1000 - u)
  {
  }

  /** Mapping a range at once or in two parts is the same. */
  lemma MapSplits(f: seq<Entry>, vpn: nat, pfn: nat, m: nat, n: nat, attr: nat)
    requires |f| == CPU_PAGES
    ensures FlatMap(FlatMap(f, vpn, pfn, m, attr), vpn + m, pfn + m, n, attr) == FlatMap(f, vpn, pfn, m + n, attr)
  {
    var a := FlatMap(FlatMap(f, vpn, pfn, m, attr), vpn + m, pfn + m, n, attr);
    var b := FlatMap(f, vpn, pfn, m + n, attr);
    forall v | 0 <= v < CPU_PAGES ensures a[v] == b[v] {
      if vpn + m <= v < vpn + m + n {
        assert PageTarget(pfn + m, v - (vpn + m), attr) == PageTarget(pfn, v - vpn, attr);
        assert b[v] == PageTarget(pfn, v - vpn, attr);
      } else if vpn <= v < vpn + m {
        assert b[v] == PageTarget(pfn, v - vpn, attr);
      }
    }
  }

  /** One call with a permitted 4 MB entry in the way, and the mapping is lost. */
  lemma LostMappingExample()
    ensures var dom := MappedHuge(Domain(seq(CPU_PAGES, _ => NoAccess), {}, {}), 0, 0, 1, 7);
            Mapped(dom, 0, 1, 1, 7).flat != FlatMap(dom.flat, 0, 1, 1, 7)
  {
    var dom := MappedHuge(Domain(seq(CPU_PAGES, _ => NoAccess), {}, {}), 0, 0, 1, 7);
    assert 0 in Slots(0, 1);
    assert Mapped(dom, 0, 1, 1, 7).flat[0] == Access(0, 7);
    assert FlatMap(dom.flat, 0, 1, 1, 7)[0] == Access(1, 7);
  }
}
