/** What `smmu_map` does where a permitted 4 MB entry is in the way, on the page tables
    themselves. */
module SmmuExamples {
  import opened SmmuLayout
  import opened Smmu

  /** The directory entry of a permitted region, from what it translates. */
  lemma RegionOf(m: Memory, d: nat, region: nat)
    requires d < CPU_PAGES && 0 in View(m, d).huge && View(m, d).flat[0] == Access(region * COUNT, 7)
    ensures IsHuge(Pde(m, d, 0)) && Attr(Pde(m, d, 0)) == 7 && HugePage(Pde(m, d, 0)) == region
    ensures Table(Pde(m, d, 0)) == region * 0x400 + Pde(m, d, 0) % 0x400
  {
    LowTen(Pde(m, d, 0));
  }

  /** Region 1 mapped in slot 0 of a domain that translates nothing. */
  lemma OneRegion(dom: Domain)
    requires dom == MappedHuge(Domain(seq(CPU_PAGES, _ => NoAccess), {}, {}), 0, 1, 1, 7)
    ensures dom.flat[0] == Access(COUNT, 7) && 0 in dom.huge && dom.tables == {}
    ensures NewTables(dom, 0, 1) == {} && SlotsOf(0, 1) == {0}
    ensures Mapped(dom, 0, 1, 1, 7).flat[0] == Access(COUNT, 7)
  {
    SlotsOfOne(0);
    assert 0 in Slots(0, 1) && Slots(0, 1) == {0};
  }

  /** The write of `smmu_map` goes into the region, away from the pages in use. */
  lemma RegionFits(m: Memory, d: nat)
    requires d < CPU_PAGES && View(m, d) == MappedHuge(Domain(seq(CPU_PAGES, _ => NoAccess), {}, {}), 0, 1, 1, 7)
    ensures MapFits(m, d, 0, 1, 1, 2)
    ensures Mapped(View(m, d), 0, 1, 1, 7).flat[0] == Access(COUNT, 7)
  {
    hide View, MappedHuge, Mapped;
    OneRegion(View(m, d));
    RegionOf(m, d, 1);
  }

  lemma PagesOf()
    ensures PageOf(PAGE) == 1 && PageOf(0) == 0 && PageOf(0x40_0000) == 1024 && PageOf(0x40_1000) == 1025
  {
  }

  /** Page 0 is mapped to physical page 1 last, and still leads into the region. */
  method LostMapping(mem: Memory) returns (smmu: Tables, ptb: nat)
    ensures smmu.Valid() && smmu.Live(ptb) && smmu.Of(PageOf(ptb)).flat[0] == Access(COUNT, 7)
  {
    hide View, Owned, Mapped, MappedHuge, PageOf, MapFits, NewTables, Touched, HugeKept, OthersKept;
    PagesOf();
    smmu := new Tables(PAGE, mem);
    assert smmu.Base() == 1;
    ptb := smmu.InitDomain();
    smmu.MapHuge(ptb, 0, 0x40_0000, 1, 7);
    RegionFits(smmu.mem, 1);
    assert smmu.Top() == 2;
    smmu.Map(ptb, 0, PAGE, 1, 7);
  }

  /** The entry of slot 0 of the directory in page 1024, overwritten with entry `w`. */
  lemma DirectoryHit(m: Memory, m': Memory)
    requires IsHuge(Pde(m, 1025, 0)) && HugePage(Pde(m, 1025, 0)) == 1 && Pde(m, 1025, 0) % 0x400 == 0
    requires Next(Pde(m, 1024, 0)) == REGION_4MB
    requires var w := EntryWord(m, 1025, 0);
      m' == m[w := m'[w]] && Table(m'[w]) == 0 && Attr(m'[w]) == 7 && Next(m'[w]) == Next(m[w])
    ensures Walk(m', 1024, 0) == Access(0, 7)
  {
    LowTen(Pde(m, 1025, 0));
    var w := EntryWord(m, 1025, 0);
    assert w == 1024 * COUNT;
    LowTen(m'[w]);
  }

  /** A fresh entry is one of a region, not permitted, with no bit below its page field. */
  lemma FreshEntry(s: nat)
    ensures Next(SetHugePage(0, s)) == REGION_4MB && Attr(SetHugePage(0, s)) == 0 && SetHugePage(0, s) % 0x400 == 0
  {
    FieldsOfHuge(0, s);
  }

  /** Two domains; the body of the loop of `smmu_map` for the second one, aimed at its 4 MB
      entry, gives the first one a translation that it never had. */
  method StrayWrite(mem: Memory) returns (smmu: Tables, first: nat, second: nat, ghost before: Domain)
    ensures PageOf(first) < CPU_PAGES && first != second
    ensures before.flat == seq(CPU_PAGES, _ => NoAccess) && smmu.Of(PageOf(first)).flat[0] == Access(0, 7)
  {
    hide View, Owned, Mapped, MappedHuge, PageOf, NewTables, SlotPrepared, OthersKept, SetHugePage, Table, WordOf;
    hide Pde, EntryWord, Walk, HugePage, Attr, Next, SlotsOf;
    PagesOf();
    FreshEntry(0);
    smmu := new Tables(0x40_0000, mem);
    first := smmu.InitDomain();
    ghost var m0 := smmu.mem;
    second := smmu.InitDomain();
    before := smmu.Of(1024);
    ghost var m1 := smmu.mem;
    SameDirectory(m0, m1, 0);
    smmu.MapHuge(second, 0, 0x40_0000, 1, 7);
    ghost var m := smmu.mem;
    SameDirectory(m1, m, 0);
    LowOfFirst(m1, m);
    OneRegion(smmu.Of(1025));
    RegionOf(m, 1025, 1);
    ghost var m2 := smmu.WritePage(second, 0, 0, 7);
    DirectoryHit(m, smmu.mem);
    WalkIs(smmu.mem, 1024, 0);
  }

  /** Writes behind page 1024 leave the directory there alone. */
  lemma SameDirectory(m: Memory, m': Memory, s: nat)
    requires s < COUNT && forall i | 0 <= i < 1025 * COUNT :: m[i] == m'[i]
    ensures Pde(m', 1024, s) == Pde(m, 1024, s)
  {
  }

  lemma LowOfFirst(m: Memory, m': Memory)
    requires LowKept(m, m', 1025)
    ensures Pde(m', 1025, 0) % 0x400 == Pde(m, 1025, 0) % 0x400
  {
  }

  lemma WalkIs(m: Memory, d: nat, v: nat)
    requires d < CPU_PAGES && v < CPU_PAGES
    ensures View(m, d).flat[v] == Walk(m, d, v)
  {
  }
}
