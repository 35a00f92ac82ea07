/** The page-table builder of bdk/mem/smmu.c, proved to implement a flat last-writer-wins
    map from virtual pages to physical pages with permissions. */
module Smmu {
  import opened Bits
  import opened SmmuLayout

  // ----- the flat map

  /** `addr >> SMMU_PAGE_SHIFT` */
  function PageOf(addr: nat): nat {
    addr / PAGE
  }

  /** The slots that `n` pages from `vpn` on lie in. */
  function SlotsOf(vpn: nat, n: nat): set<nat> {
    if n == 0 then {} else SlotsOf(vpn, n - 1) + {(vpn + n - 1) / COUNT}
  }

  /** What page `k` of a mapped range translates to. */
  function PageTarget(pfn: nat, k: nat, attr: nat): Entry {
    EntryOf((pfn + k) % PFNS, attr % 8)
  }

  /** Maps `n` pages from `vpn` on. */
  function FlatMap(f: seq<Entry>, vpn: nat, pfn: nat, n: nat, attr: nat): seq<Entry>
    requires |f| == CPU_PAGES
  {
    seq(CPU_PAGES, v requires 0 <= v < CPU_PAGES =>
      if vpn <= v < vpn + n then PageTarget(pfn, v - vpn, attr) else f[v])
  }

  /** Maps `n` pages from `vpn` on; pages in slots with a permitted 4 MB entry are missed. */
  function Mapped(dom: Domain, vpn: nat, pfn: nat, n: nat, attr: nat): Domain
    requires |dom.flat| == CPU_PAGES
  {
    Domain(
      seq(CPU_PAGES, v requires 0 <= v < CPU_PAGES =>
        if vpn <= v < vpn + n && v / COUNT !in dom.huge then PageTarget(pfn, v - vpn, attr) else dom.flat[v]),
      dom.tables + (SlotsOf(vpn, n) - dom.huge),
      dom.huge)
  }

  /** Maps `n` 4 MB slots from slot `s` on to the 4 MB regions from `region` on. */
  function MappedHuge(dom: Domain, s: nat, region: nat, n: nat, attr: nat): Domain
    requires |dom.flat| == CPU_PAGES
  {
    Domain(
      seq(CPU_PAGES, v requires 0 <= v < CPU_PAGES =>
        if s <= v / COUNT < s + n
        then EntryOf((region + (v / COUNT - s)) % 0x1000 * COUNT + v % COUNT, attr % 8)
        else dom.flat[v]),
      dom.tables - Slots(s, n),
      if attr % 8 == 0 then dom.huge - Slots(s, n) else dom.huge + Slots(s, n))
  }

  function Slots(s: nat, n: nat): (r: set<nat>)
    ensures forall k :: k in r <==> s <= k < s + n
  {
    if n == 0 then {} else Slots(s, n - 1) + {s + n - 1}
  }

  /** Table pages `smmu_map` has to allocate. */
  function NewTables(dom: Domain, vpn: nat, n: nat): set<nat> {
    SlotsOf(vpn, n) - dom.tables - dom.huge
  }

  lemma {:induction false} InSlots(vpn: nat, n: nat, s: nat)
    ensures s in SlotsOf(vpn, n) <==> exists v | vpn <= v < vpn + n :: v / COUNT == s
  {
    if n > 0 {
      InSlots(vpn, n - 1, s);
      if s == (vpn + n - 1) / COUNT {
        assert vpn <= vpn + n - 1 < vpn + n;
      }
    }
  }

  lemma {:induction false} SlotsMonotone(vpn: nat, k: nat, n: nat)
    requires k <= n
    ensures SlotsOf(vpn, k) <= SlotsOf(vpn, n)
  {
    if k < n { SlotsMonotone(vpn, k, n - 1); }
  }

  lemma CardinalityMonotone(a: set<nat>, b: set<nat>)
    requires a <= b
    ensures |a| <= |b|
  {
    assert b == a + (b - a);
  }

  /** One more page of a range, virtual page `v` going to physical page `p`. */
  lemma MappedStep(dom: Domain, vpn: nat, pfn: nat, k: nat, attr: nat, v: nat, p: nat)
    requires |dom.flat| == CPU_PAGES && v == vpn + k < CPU_PAGES && p == pfn + k
    ensures Mapped(Mapped(dom, vpn, pfn, k, attr), v, p, 1, attr) == Mapped(dom, vpn, pfn, k + 1, attr)
    ensures Mapped(dom, vpn, pfn, k, attr).huge == dom.huge
    ensures NewTables(dom, vpn, k + 1) == NewTables(dom, vpn, k) + NewTables(Mapped(dom, vpn, pfn, k, attr), v, 1)
    ensures NewTables(dom, vpn, k) !! NewTables(Mapped(dom, vpn, pfn, k, attr), v, 1)
  {
    var a := Mapped(Mapped(dom, vpn, pfn, k, attr), v, p, 1, attr);
    var b := Mapped(dom, vpn, pfn, k + 1, attr);
    SlotsOfOne(v);
    assert a.flat == b.flat;
    assert a.tables == b.tables;
  }

  /** The first word of the page a 32-bit pointer made from page number `page` points to. */
  function WordOf(page: nat): nat {
    page % CPU_PAGES * COUNT
  }

  /** The word holding the entry of page `v`, if its slot has a table. */
  function EntryWord(m: Memory, d: nat, v: nat): (r: nat)
    requires d < CPU_PAGES && v < CPU_PAGES
    ensures r < MEM_WORDS
  {
    WordOf(Table(Pde(m, d, v / COUNT))) + v % COUNT
  }

  lemma SetTableOfZero(n: nat)
    requires n < PFNS
    ensures SetTable(0, n) == n && n * PAGE / PAGE == n
  {
  }

  lemma PdeAt(m: Memory, ptb: nat, s: nat)
    requires ptb % PAGE == 0 && PageOf(ptb) < CPU_PAGES && s < COUNT
    ensures ptb / 4 + s < MEM_WORDS && m[ptb / 4 + s] == Pde(m, PageOf(ptb), s)
  {
  }

  lemma EntryWordIs(m: Memory, d: nat, v: nat, s: nat, t: nat)
    requires d < CPU_PAGES && v < CPU_PAGES && s == v / COUNT && t == Table(Pde(m, d, s))
    ensures EntryWord(m, d, v) == WordOf(t) + v % COUNT
  {
  }

  class Tables {
    var mem: Memory        // physical memory, 34 bits of it
    const heapAddr: nat    // SMMU_HEAP_ADDR
    var heap: nat          // smmu_heap
    var tlb: map<(nat, nat), Entry>  // cached translations, by directory page and page
    ghost var domains: set<nat>

    ghost function Base(): nat { heapAddr / PAGE }

    ghost function Top(): nat
      reads this`heap
    {
      heap / PAGE
    }

    ghost predicate Valid()
      reads this`heap, this`domains, this`mem
    {
      && heapAddr % PAGE == 0 && heap % PAGE == 0
      && Owned(mem, domains, Base(), Top())
    }

    /** `ptb` is the address of a domain's directory. */
    ghost predicate Live(ptb: nat)
      reads this`domains
      ensures Live(ptb) ==> PageOf(ptb) < CPU_PAGES
    {
      ptb % PAGE == 0 && ptb < CPU_PAGES * PAGE && PageOf(ptb) in domains
    }

    /** The translation of the domain whose directory is in page `d`. */
    ghost function Of(d: nat): Domain
      requires d < CPU_PAGES
      reads this`mem
    {
      View(mem, d)
    }

    constructor (heapAddr: nat, mem: Memory)
      requires heapAddr % PAGE == 0 && heapAddr < CPU_PAGES * PAGE
      ensures Valid() && domains == {} && tlb == map[] && this.mem == mem && this.heapAddr == heapAddr
      ensures heap == heapAddr
    {
      this.mem, this.heapAddr, heap, tlb, domains := mem, heapAddr, heapAddr, map[], {};
    }

    /** Forgets all allocations: every domain is gone. The cache is not emptied. */
    method ResetHeap()
      requires heapAddr % PAGE == 0 && heapAddr <= CPU_PAGES * PAGE
      modifies this`heap, this`domains
      ensures Valid() && domains == {} && heap == heapAddr
    {
      heap := heapAddr;
      domains := {};
    }

    /** The pages handed out are zeroed and lie above everything in use. */
    method PageZalloc(num: nat) returns (page: nat)
      requires Valid() && heap + PAGE * num <= CPU_PAGES * PAGE
      modifies this`heap, this`mem
      ensures unchanged(`domains)
      ensures Valid() && page == old(heap) && heap == old(heap) + PAGE * num
      ensures forall i | page / 4 <= i < heap / 4 :: mem[i] == 0
      ensures SameOutside(old(mem), mem, page / 4, heap / 4)
      ensures forall d | d in domains :: Of(d) == old(Of(d))
    {
      ghost var m := mem;
      page := heap;
      for i := 0 to COUNT * num
        modifies this`mem
        invariant |mem| == |m|
        invariant forall j | page / 4 <= j < page / 4 + i :: mem[j] == 0
        invariant forall j | 0 <= j < page / 4 || page / 4 + i <= j < |mem| :: mem[j] == m[j]
      {
        mem := mem[page / 4 + i := 0];
      }
      OutsideFrame(m, mem, domains, Base(), Top());
      GrowTop(mem, domains, Base(), Top(), Top() + num);
      heap := heap + PAGE * num;
    }

    /** The entries of a directory without permissions. */
    method FillDirectory(pdir: nat)
      requires pdir % PAGE == 0 && pdir / 4 + COUNT <= MEM_WORDS
      requires forall i | pdir / 4 <= i < pdir / 4 + COUNT :: mem[i] == 0
      modifies this`mem
      ensures SameOutside(old(mem), mem, pdir / 4, pdir / 4 + COUNT)
      ensures forall s | 0 <= s < COUNT :: mem[pdir / 4 + s] == SetHugePage(0, s)
    {
      ghost var m, at := mem, pdir / 4;
      for pdn := 0 to COUNT
        invariant SameOutside(m, mem, at, at + pdn)
        invariant forall j | 0 <= j < pdn :: mem[at + j] == SetHugePage(0, j)
      {
        hide SetHugePage;
        assert mem[at + pdn] == m[at + pdn] == 0;
        mem := mem[pdir / 4 + pdn := SetHugePage(mem[pdir / 4 + pdn], pdn)];
      }
    }

    method PdirAlloc() returns (pdir: nat)
      requires Valid() && heap + PAGE <= CPU_PAGES * PAGE
      modifies this`heap, this`mem
      ensures unchanged(`domains)
      ensures Valid() && pdir == old(heap) && heap == old(heap) + PAGE
      ensures forall s | 0 <= s < COUNT :: Pde(mem, PageOf(pdir), s) == SetHugePage(0, s)
      ensures SameOutside(old(mem), mem, pdir / 4, heap / 4)
    {
      ghost var m0, top := mem, Top();
      pdir := PageZalloc(1);
      FillDirectory(pdir);
      OutsideFrame(m0, mem, domains, Base(), top);
      GrowTop(mem, domains, Base(), top, Top());
    }

    /** A new domain starts out translating nothing. */
    method InitDomain() returns (ptb: nat)
      requires Valid() && heap + PAGE <= CPU_PAGES * PAGE
      modifies this`heap, this`domains, this`mem
      ensures Valid() && ptb == old(heap) && heap == old(heap) + PAGE
      ensures Live(ptb) && PageOf(ptb) !in old(domains) && domains == old(domains) + {PageOf(ptb)}
      ensures Of(PageOf(ptb)) == Domain(seq(CPU_PAGES, _ => NoAccess), {}, {})
      ensures forall d | d in old(domains) :: Of(d) == old(Of(d))
      ensures forall s | 0 <= s < COUNT :: Pde(mem, PageOf(ptb), s) == SetHugePage(0, s)
      ensures SameOutside(old(mem), mem, ptb / 4, heap / 4)
    {
      ghost var m, top := mem, Top();
      ptb := PdirAlloc();
      forall s | 0 <= s < COUNT ensures Attr(Pde(mem, top, s)) == 0 {
        FieldsOfHuge(0, s);
      }
      DirectoryInstall(m, mem, domains, Base(), top);
      domains := domains + {top};
    }

    /** The entries of a table for slot `pdn`, without permissions. */
    method FillTable(ptbl: nat, pdn: nat)
      requires pdn < COUNT && ptbl % PAGE == 0 && ptbl / 4 + COUNT <= MEM_WORDS
      requires forall i | ptbl / 4 <= i < ptbl / 4 + COUNT :: mem[i] == 0
      modifies this`mem
      ensures SameOutside(old(mem), mem, ptbl / 4, ptbl / 4 + COUNT)
      ensures forall i | ptbl / 4 <= i < ptbl / 4 + COUNT :: mem[i] == pdn * COUNT + (i - ptbl / 4)
    {
      hide SetTable;
      ghost var m, at := mem, ptbl / 4;
      var addr := pdn * 0x40_0000;
      for pn := 0 to COUNT
        invariant addr == (pdn * COUNT + pn) * PAGE
        invariant SameOutside(m, mem, at, at + pn)
        invariant forall i | at <= i < at + pn :: mem[i] == pdn * COUNT + (i - at)
      {
        assert mem[at + pn] == 0;
        SetTableOfZero(pdn * COUNT + pn);
        mem := mem[ptbl / 4 + pn := SetTable(mem[ptbl / 4 + pn], addr / PAGE)];
        addr := addr + PAGE;
      }
    }

    /** Names table page `ptbl` in the directory entry at word `at`. */
    method SetTableEntry(at: nat, ptbl: nat)
      requires at < |mem| && ptbl % PAGE == 0 && ptbl < CPU_PAGES * PAGE
      modifies this`mem
      ensures |mem| == old(|mem|) && mem == old(mem)[at := mem[at]]
      ensures IsTable(mem[at]) && Attr(mem[at]) == ATTR_ALL && Table(mem[at]) == PageOf(ptbl)
    {
      hide SetTable, SetHugePage, SetNext, SetAttr, Table, HugePage, Next, Attr;
      FieldsOfTable(mem[at], PageOf(ptbl));
      FieldsOfNext(SetTable(mem[at], PageOf(ptbl)), PAGE_TABLE);
      FieldsOfAttr(SetNext(SetTable(mem[at], PageOf(ptbl)), PAGE_TABLE), ATTR_ALL);
      mem := mem[at := SetTable(mem[at], PageOf(ptbl))];
      mem := mem[at := SetNext(mem[at], PAGE_TABLE)];
      mem := mem[at := SetAttr(mem[at], ATTR_ALL)];
    }

    /** Lines 190 to 204: allocates the table of a slot without permissions. */
    method AllocTable(ptb: nat, pdn: nat, ghost v: nat) returns (ptbl: nat)
      requires Valid() && Live(ptb) && v < CPU_PAGES && pdn == v / COUNT
      requires Attr(Pde(mem, PageOf(ptb), pdn)) == 0 && Top() < CPU_PAGES
      modifies this`heap, this`tlb, this`mem
      ensures unchanged(`domains)
      ensures Valid() && ptbl == old(heap) && tlb == map[]
      ensures Attr(Pde(mem, PageOf(ptb), pdn)) == ATTR_ALL && Table(Pde(mem, PageOf(ptb), pdn)) == PageOf(ptbl)
      ensures forall i | ptbl / 4 <= i < ptbl / 4 + COUNT :: mem[i] == pdn * COUNT + (i - ptbl / 4)
      ensures SlotPrepared(old(mem), old(Top()), mem, Top(), domains, PageOf(ptb), v)
    {
      hide SlotPrepared, Owned, View, IsTable;
      ghost var m0, top := mem, Top();
      ptbl := PageZalloc(1);
      FillTable(ptbl, pdn);
      ghost var m1 := mem;
      SetTableEntry(ptb / 4 + pdn, ptbl);
      TablePrepared(m0, m1, mem, domains, Base(), top, PageOf(ptb), v);
      FlushAll();
    }

    /** The word holding the entry for `iova`, after allocating its table if the slot has
        no permitted entry. As in the source, a permitted 4 MB entry is taken for a table. */
    method GetPte(ptb: nat, iova: u32) returns (pte: nat)
      requires Valid() && Live(ptb)
      requires Top() + |NewTables(Of(PageOf(ptb)), PageOf(iova), 1)| <= CPU_PAGES
      modifies this`heap, this`tlb, this`mem
      ensures unchanged(`domains)
      ensures Valid()
      ensures Attr(Pde(mem, PageOf(ptb), PageOf(iova) / COUNT)) != 0
      ensures pte == EntryWord(mem, PageOf(ptb), PageOf(iova))
      ensures old(Attr(Pde(mem, PageOf(ptb), PageOf(iova) / COUNT))) != 0 ==> unchanged(`mem)
      ensures SlotPrepared(old(mem), old(Top()), mem, Top(), domains, PageOf(ptb), PageOf(iova))
    {
      hide View, Owned, NewTables, WordOf, EntryWord, Table, Pde, SlotPrepared, PageOf;
      var pdn := iova / 0x40_0000;
      SlotOfAddress(iova);
      NewTablesOfOne(mem, PageOf(ptb), PageOf(iova));
      PdeAt(mem, ptb, pdn);
      var pde := mem[ptb / 4 + pdn];
      if Attr(pde) != 0 {
        AlreadyPrepared(mem, Top(), domains, PageOf(ptb), PageOf(iova));
        EntryWordIs(mem, PageOf(ptb), PageOf(iova), pdn, Table(pde));
        pte := WordOf(Table(pde)) + PageOf(iova) % COUNT;
      } else {
        var ptbl := AllocTable(ptb, pdn, PageOf(iova));
        EntryWordIs(mem, PageOf(ptb), PageOf(iova), pdn, PageOf(ptbl));
        pte := WordOf(PageOf(ptbl)) + PageOf(iova) % COUNT;
      }
    }

    /** Writes the entry at word `pte`. */
    method SetPte(pte: nat, iopa: nat, attr: nat)
      requires pte < |mem|
      modifies this`mem
      ensures |mem| == old(|mem|) && mem == old(mem)[pte := mem[pte]]
      ensures Table(mem[pte]) == PageOf(iopa) % PFNS && Attr(mem[pte]) == attr % 8
      ensures Next(mem[pte]) == Next(old(mem)[pte])
    {
      hide SetTable, SetHugePage, SetNext, SetAttr, Table, HugePage, Next, Attr;
      FieldsOfTable(mem[pte], PageOf(iopa));
      FieldsOfAttr(SetTable(mem[pte], PageOf(iopa)), attr);
      mem := mem[pte := SetTable(mem[pte], PageOf(iopa))];
      mem := mem[pte := SetAttr(mem[pte], attr)];
    }

    /** The body of the loop of `smmu_map`, wherever the write goes: once the table is there,
        giving memory `m1`, it changes one word, which a permitted 4 MB entry in the slot puts
        into a page that has nothing to do with the mapping. */
    method WritePage(ptb: nat, iova: u32, iopa: nat, attr: nat) returns (ghost m1: Memory)
      requires Valid() && Live(ptb)
      requires Top() + |NewTables(Of(PageOf(ptb)), PageOf(iova), 1)| <= CPU_PAGES
      modifies this`heap, this`tlb, this`mem
      ensures unchanged(`domains) && heap % PAGE == 0
      ensures old(Attr(Pde(mem, PageOf(ptb), PageOf(iova) / COUNT))) != 0 ==> m1 == old(mem)
      ensures Owned(m1, domains, Base(), Top()) && Attr(Pde(m1, PageOf(ptb), PageOf(iova) / COUNT)) != 0
      ensures SlotPrepared(old(mem), old(Top()), m1, Top(), domains, PageOf(ptb), PageOf(iova))
      ensures var w := EntryWord(m1, PageOf(ptb), PageOf(iova));
        mem == m1[w := mem[w]] && Table(mem[w]) == PageOf(iopa) % PFNS && Attr(mem[w]) == attr % 8 &&
        Next(mem[w]) == Next(m1[w])
    {
      hide Owned, SlotPrepared, NewTables, Table, Attr, Next;
      SlotOfAddress(iova);
      var pte := GetPte(ptb, iova);
      m1 := mem;
      SetPte(pte, iopa, attr);
    }

    /** The same where the write hits no page in use. A write meant for a slot with a permitted 4 MB
        entry goes astray, and changes nothing here. */
    method MapPage(ptb: nat, iova: u32, iopa: nat, attr: nat)
      requires Valid() && Live(ptb)
      requires Top() + |NewTables(Of(PageOf(ptb)), PageOf(iova), 1)| <= CPU_PAGES
      requires StraySafe(mem, PageOf(ptb), SlotsOf(PageOf(iova), 1), Base(), Top())
      modifies this`heap, this`tlb, this`mem
      ensures unchanged(`domains)
      ensures Valid()
      ensures HasMapped(old(mem), old(Top()), mem, Top(), domains, PageOf(ptb), PageOf(iova), PageOf(iopa), 1, attr)
    {
      ghost var m0, top0 := mem, Top();
      SlotsOfOne(PageOf(iova));
      SlotOfAddress(iova);
      NewTablesOfOne(m0, PageOf(ptb), PageOf(iova));
      ghost var m1 := WritePage(ptb, iova, iopa, attr);
      ghost var w := EntryWord(m1, PageOf(ptb), PageOf(iova));
      PageMapped(m0, m1, domains, Base(), top0, Top(), PageOf(ptb), PageOf(iova), PageOf(iopa), attr, mem[w]);
    }

    /** One iteration of `smmu_map`. */
    method MapNext(ptb: nat, va: u32, pa: nat, attr: nat, ghost m0: Memory, ghost top0: nat,
                   ghost vpn: nat, ghost pfn: nat, ghost i: nat, ghost n: nat)
      requires Valid() && Live(ptb)
      requires PageOf(va) == vpn + i && PageOf(pa) == pfn + i && i < n
      requires MapFits(m0, PageOf(ptb), vpn, n, Base(), top0)
      requires HasMapped(m0, top0, mem, Top(), domains, PageOf(ptb), vpn, pfn, i, attr)
      modifies this`heap, this`tlb, this`mem
      ensures unchanged(`domains)
      ensures Valid() && HasMapped(m0, top0, mem, Top(), domains, PageOf(ptb), vpn, pfn, i + 1, attr)
    {
      hide Mapped, NewTables, View, Owned, Touched, HugeKept, StraySafe, OthersKept, SlotsOf, Pde;
      ghost var m, top, dom := mem, Top(), View(m0, PageOf(ptb));
      MappedStep(dom, vpn, pfn, i, attr, PageOf(va), PageOf(pa));
      RoomStep(dom, vpn, pfn, i, n, attr, PageOf(va), PageOf(pa));
      StrayStep(m0, m, PageOf(ptb), vpn, i, n, Base(), top, top0 + |NewTables(dom, vpn, n)|, PageOf(va));
      MapPage(ptb, va, pa, attr);
      TouchedTwice(m0, m, mem, PageOf(ptb), top0, top, Top());
      HugeKeptTwice(m0, m, mem, PageOf(ptb));
      OthersKeptTwice(m0, m, mem, domains, PageOf(ptb));
    }

    /** `smmu_map`: the range gets its new translation, page by page, except in slots with
        a permitted 4 MB entry; nothing else changes. */
    method Map(ptb: nat, iova: u32, iopa: nat, pages: nat, attr: nat)
      requires Valid() && Live(ptb)
      requires MapFits(mem, PageOf(ptb), PageOf(iova), pages, Base(), Top())
      modifies this`heap, this`tlb, this`mem
      ensures unchanged(`domains)
      ensures Valid() && tlb == map[]
      ensures HasMapped(old(mem), old(Top()), mem, Top(), domains, PageOf(ptb), PageOf(iova), PageOf(iopa), pages, attr)
    {
      hide Owned, HasMapped, Advanced, Add32, MapFits, PageOf;
      ghost var m0, top0 := mem, Top();
      NothingMapped(m0, top0, domains, PageOf(ptb), PageOf(iova), PageOf(iopa), attr);
      AddressStart(m0, PageOf(ptb), iova, iopa, pages, Base(), top0);
      var va: u32, pa: nat := iova, iopa;
      for i := 0 to pages
        invariant Valid() && unchanged(`domains)
        invariant Advanced(iova, iopa, PAGE, i, pages, va, pa)
        invariant HasMapped(m0, top0, mem, Top(), domains, PageOf(ptb), PageOf(iova), PageOf(iopa), i, attr)
      {
        AddressStep(iova, iopa, i, pages, va, pa);
        MapNext(ptb, va, pa, attr, m0, top0, PageOf(iova), PageOf(iopa), i, pages);
        va := Add32(va, PAGE);
        pa := pa + PAGE;
      }
      FlushAll();
    }

    /** The body of the loop of `smmu_map_huge`. */
    method MapRegion(ptb: nat, pdn: nat, region: nat, attr: nat)
      requires Valid() && Live(ptb) && pdn < COUNT
      modifies this`mem
      ensures unchanged(`domains)
      ensures Valid()
      ensures Of(PageOf(ptb)) == WithHuge(old(Of(PageOf(ptb))), pdn, region % 0x1000, attr % 8)
      ensures OthersKept(old(mem), mem, domains, PageOf(ptb))
      ensures SameOutside(old(mem), mem, ptb / 4, ptb / 4 + COUNT) && LowKept(old(mem), mem, PageOf(ptb))
    {
      ghost var m := mem;
      SetHugeEntry(ptb / 4 + pdn, region, attr);
      HugeWrite(m, domains, Base(), Top(), PageOf(ptb), pdn, mem[ptb / 4 + pdn]);
    }

    /** `smmu_map_huge`: each 4 MB slot gets one entry, replacing whatever was there. */
    method MapHuge(ptb: nat, iova: u32, iopa: nat, regions: nat, attr: nat)
      requires Valid() && Live(ptb)
      requires iova / 0x40_0000 + regions <= COUNT
      modifies this`tlb, this`mem
      ensures unchanged(`domains)
      ensures Valid() && tlb == map[]
      ensures Of(PageOf(ptb)) == MappedHuge(old(Of(PageOf(ptb))), iova / 0x40_0000, iopa / 0x40_0000, regions, attr)
      ensures OthersKept(old(mem), mem, domains, PageOf(ptb))
      ensures SameOutside(old(mem), mem, ptb / 4, ptb / 4 + COUNT) && LowKept(old(mem), mem, PageOf(ptb))
    {
      hide MappedHuge, WithHuge, View, Owned, Advanced, Add32, OthersKept, PageOf, LowKept;
      LowKeptNone(mem, PageOf(ptb));
      ghost var m0, dom := mem, Of(PageOf(ptb));
      ghost var s0, r0 := iova / 0x40_0000, iopa / 0x40_0000;
      MappedHugeNone(dom, s0, r0, attr);
      OthersKeptNone(m0, domains, PageOf(ptb));
      RegionStart(iova, iopa, regions);
      var va: u32, pa: nat := iova, iopa;
      for i := 0 to regions
        modifies this`mem
        invariant Valid() && unchanged(`domains)
        invariant Advanced(iova, iopa, 0x40_0000, i, regions, va, pa)
        invariant Of(PageOf(ptb)) == MappedHuge(dom, s0, r0, i, attr)
        invariant OthersKept(old(mem), mem, domains, PageOf(ptb))
        invariant SameOutside(m0, mem, ptb / 4, ptb / 4 + COUNT) && LowKept(m0, mem, PageOf(ptb))
      {
        ghost var m := mem;
        RegionStep(iova, iopa, i, regions, va, pa);
        MappedHugeStep(dom, s0, r0, i, attr, va / 0x40_0000, pa / 0x40_0000);
        MapRegion(ptb, va / 0x40_0000, pa / 0x40_0000, attr);
        OthersKeptTwice(m0, m, mem, domains, PageOf(ptb));
        LowKeptTwice(m0, m, mem, PageOf(ptb));
        va := Add32(va, 0x40_0000);
        pa := pa + 0x40_0000;
      }
      FlushAll();
    }

    method SetHugeEntry(at: nat, region: nat, attr: nat)
      requires at < |mem|
      modifies this`mem
      ensures |mem| == old(|mem|) && mem == old(mem)[at := mem[at]]
      ensures HugePage(mem[at]) == region % 0x1000 && Next(mem[at]) == REGION_4MB && Attr(mem[at]) == attr % 8
      ensures mem[at] % 0x400 == old(mem)[at] % 0x400
    {
      ghost var x := SetHugePage(mem[at], region);
      LowTen(x);
      LowTen(SetAttr(SetNext(x, REGION_4MB), attr));
      hide SetTable, SetHugePage, SetNext, SetAttr, Table, HugePage, Next, Attr;
      FieldsOfHuge(mem[at], region);
      FieldsOfNext(SetHugePage(mem[at], region), REGION_4MB);
      FieldsOfAttr(SetNext(SetHugePage(mem[at], region), REGION_4MB), attr);
      mem := mem[at := SetHugePage(mem[at], region)];
      mem := mem[at := SetNext(mem[at], REGION_4MB)];
      mem := mem[at := SetAttr(mem[at], attr)];
    }

    /** `smmu_flush_all`: the translation cache is emptied. */
    method FlushAll()
      modifies this`tlb
      ensures tlb == map[]
    {
      tlb := map[];
    }

    /** A translation by the hardware: from the cache, or by a walk whose result is cached.
        As long as the cache shows the tables, it is the translation of the domain. */
    method Translate(ptb: nat, v: nat) returns (e: Entry)
      requires Valid() && Live(ptb) && v < CPU_PAGES
      modifies this`tlb
      ensures var key := (PageOf(ptb), v);
        e == (if key in old(tlb) then old(tlb)[key] else Of(PageOf(ptb)).flat[v]) && tlb == old(tlb)[key := e]
      ensures Cached(old(tlb), mem, domains) ==> e == Of(PageOf(ptb)).flat[v] && Cached(tlb, mem, domains)
    {
      var key := (PageOf(ptb), v);
      if key in tlb {
        e := tlb[key];
        assert tlb == tlb[key := e];
        return;
      }
      e := Walk(mem, PageOf(ptb), v);
      tlb := tlb[key := e];
    }
  }

  /** The bits below the page field of the directory's entries are as they were. */
  ghost predicate LowKept(m: Memory, m': Memory, d: nat)
    requires d < CPU_PAGES
  {
    forall s | 0 <= s < COUNT :: Pde(m', d, s) % 0x400 == Pde(m, d, s) % 0x400
  }

  lemma LowKeptNone(m: Memory, d: nat)
    requires d < CPU_PAGES
    ensures LowKept(m, m, d)
  {
  }

  lemma LowKeptTwice(m: Memory, m': Memory, m'': Memory, d: nat)
    requires d < CPU_PAGES && LowKept(m, m', d) && LowKept(m', m'', d)
    ensures LowKept(m, m'', d)
  {
  }

  /** Every cached translation is what a walk would find. */
  ghost predicate Cached(tlb: map<(nat, nat), Entry>, m: Memory, domains: set<nat>) {
    forall k | k in tlb :: k.0 in domains && k.0 < CPU_PAGES && k.1 < CPU_PAGES && tlb[k] == View(m, k.0).flat[k.1]
  }

  /** Nothing but the words `lo..hi` differs. */
  ghost predicate SameOutside(m: Memory, m': Memory, lo: nat, hi: nat) {
    |m| == |m'| && forall i | 0 <= i < |m| && (i < lo || hi <= i) :: m[i] == m'[i]
  }

  /** The other domains translate as before. */
  ghost predicate OthersKept(m: Memory, m': Memory, domains: set<nat>, d: nat)
  {
    forall d' | d' in domains && d' < CPU_PAGES && d' != d :: View(m', d') == View(m, d')
  }

  lemma OthersKeptTwice(m: Memory, m': Memory, m'': Memory, domains: set<nat>, d: nat)
    requires OthersKept(m, m', domains, d) && OthersKept(m', m'', domains, d)
    ensures OthersKept(m, m'', domains, d)
  {
  }

  lemma OthersKeptNone(m: Memory, domains: set<nat>, d: nat)
    ensures OthersKept(m, m, domains, d)
  {
  }

  lemma GrowTop(m: Memory, domains: set<nat>, base: nat, top: nat, top': nat)
    requires Owned(m, domains, base, top) && top <= top' <= CPU_PAGES
    ensures Owned(m, domains, base, top')
  {
  }

  /** The pages the directory entries of `d` point into. */
  ghost function OwnPages(m: Memory, d: nat): set<nat>
    requires d < CPU_PAGES
  {
    set s | 0 <= s < COUNT && Attr(Pde(m, d, s)) != 0 :: Table(Pde(m, d, s)) % CPU_PAGES
  }

  /** Mapping in `d` writes only its directory, its tables, and the pages `top..top'`
      allocated meanwhile. */
  ghost predicate Touched(m: Memory, m': Memory, d: nat, top: nat, top': nat)
    requires d < CPU_PAGES
  {
    && (forall t | t in OwnPages(m', d) :: t in OwnPages(m, d) || top <= t < top')
    && (forall i | 0 <= i < MEM_WORDS && m[i] != m'[i] ::
          i / COUNT == d || i / COUNT in OwnPages(m, d) || top <= i / COUNT < top')
  }

  lemma TouchedTwice(m: Memory, m': Memory, m'': Memory, d: nat, top: nat, top': nat, top'': nat)
    requires d < CPU_PAGES && top <= top' <= top''
    requires Touched(m, m', d, top, top') && Touched(m', m'', d, top', top'')
    ensures Touched(m, m'', d, top, top'')
  {
  }

  lemma HugeKeptTwice(m: Memory, m': Memory, m'': Memory, d: nat)
    requires d < CPU_PAGES
    requires HugeKept(m, m', d) && HugeKept(m', m'', d)
    ensures HugeKept(m, m'', d)
  {
  }

  lemma SlotsOfOne(v: nat)
    ensures SlotsOf(v, 1) == {v / COUNT}
  {
    assert SlotsOf(v, 0) == {};
  }

  lemma SlotOfAddress(iova: u32)
    ensures iova / 0x40_0000 == PageOf(iova) / COUNT < COUNT && PageOf(iova) < CPU_PAGES
  {
  }

  lemma TableTouched(m: Memory, m': Memory, d: nat, s: nat, top: nat)
    requires d < top < CPU_PAGES && s < COUNT
    requires Attr(Pde(m, d, s)) == 0 && Table(Pde(m', d, s)) == top
    requires forall i | 0 <= i < MEM_WORDS && i / COUNT != top && i != d * COUNT + s :: m'[i] == m[i]
    ensures Touched(m, m', d, top, top + 1) && HugeKept(m, m', d)
  {
    forall s' | 0 <= s' < COUNT && s' != s ensures Pde(m', d, s') == Pde(m, d, s') {
      assert (d * COUNT + s') / COUNT == d;
    }
  }

  lemma NewTablesOfOne(m: Memory, d: nat, v: nat)
    requires d < CPU_PAGES && v < CPU_PAGES
    ensures NewTables(View(m, d), v, 1) == if Attr(Pde(m, d, v / COUNT)) == 0 then {v / COUNT} else {}
  {
    SlotsOfOne(v);
  }

  /** From memory `m0` and heap page `top0` to `m` and `top`, at most the table for page `v`
      was added. */
  ghost predicate SlotPrepared(m0: Memory, top0: nat, m: Memory, top: nat, domains: set<nat>, d: nat, v: nat)
    requires d < CPU_PAGES
  {
    && View(m, d) == View(m0, d).(tables := View(m0, d).tables + NewTables(View(m0, d), v, 1))
    && top == top0 + |NewTables(View(m0, d), v, 1)|
    && OthersKept(m0, m, domains, d)
    && Touched(m0, m, d, top0, top)
    && HugeKept(m0, m, d)
  }

  lemma AlreadyPrepared(m: Memory, top: nat, domains: set<nat>, d: nat, v: nat)
    requires d < CPU_PAGES && v < CPU_PAGES && Attr(Pde(m, d, v / COUNT)) != 0
    ensures SlotPrepared(m, top, m, top, domains, d, v)
  {
    NewTablesOfOne(m, d, v);
  }

  /** ... `n` pages were mapped in domain `d`. */
  ghost predicate HasMapped(m0: Memory, top0: nat, m: Memory, top: nat, domains: set<nat>,
                            d: nat, vpn: nat, pfn: nat, n: nat, attr: nat)
    requires d < CPU_PAGES
  {
    && View(m, d) == Mapped(View(m0, d), vpn, pfn, n, attr)
    && top == top0 + |NewTables(View(m0, d), vpn, n)|
    && OthersKept(m0, m, domains, d)
    && Touched(m0, m, d, top0, top)
    && HugeKept(m0, m, d)
  }

  lemma NothingMapped(m: Memory, top: nat, domains: set<nat>, d: nat, vpn: nat, pfn: nat, attr: nat)
    requires d < CPU_PAGES
    ensures HasMapped(m, top, m, top, domains, d, vpn, pfn, 0, attr)
  {
    MappedNone(View(m, d), vpn, pfn, attr);
  }

  /** A mapping aimed at a permitted 4 MB entry takes the entry for a table: the page its
      write hits must not be one of `base..top`. */
  ghost predicate StraySafe(m: Memory, d: nat, slots: set<nat>, base: nat, top: nat)
    requires d < CPU_PAGES
  {
    forall s | s in slots && s < COUNT && IsHuge(Pde(m, d, s)) ::
      !(base <= Table(Pde(m, d, s)) % CPU_PAGES < top)
  }

  /** There is room for the tables a mapping of `n` pages needs, and it is stray-safe. */
  ghost predicate MapFits(m: Memory, d: nat, vpn: nat, n: nat, base: nat, top: nat)
    requires d < CPU_PAGES
  {
    && vpn + n <= CPU_PAGES
    && top + |NewTables(View(m, d), vpn, n)| <= CPU_PAGES
    && StraySafe(m, d, SlotsOf(vpn, n), base, top + |NewTables(View(m, d), vpn, n)|)
  }

  ghost predicate HugeKept(m: Memory, m': Memory, d: nat)
    requires d < CPU_PAGES
  {
    forall s | 0 <= s < COUNT && IsHuge(Pde(m, d, s)) :: Pde(m', d, s) == Pde(m, d, s)
  }

  /** Effect of the entry written by one iteration of `smmu_map`; `m1` is the memory once
      the table is there. */
  lemma PteEffect(m0: Memory, m1: Memory, domains: set<nat>, base: nat, top: nat, d: nat, v: nat,
                  pfn: nat, attr: nat, pte: u32)
    requires Owned(m1, domains, base, top) && d in domains && v < CPU_PAGES
    requires Attr(Pde(m1, d, v / COUNT)) != 0 && StraySafe(m1, d, {v / COUNT}, base, top)
    requires View(m1, d) == View(m0, d).(tables := View(m0, d).tables + NewTables(View(m0, d), v, 1))
    requires Table(pte) == pfn % PFNS && Attr(pte) == attr % 8
    ensures var m' := m1[EntryWord(m1, d, v) := pte];
            && Owned(m', domains, base, top)
            && View(m', d) == Mapped(View(m0, d), v, pfn, 1, attr)
            && OthersKept(m1, m', domains, d)
  {
    hide Owned, NewTables, Mapped, Table, StraySafe, Walk;
    DomainInReach(m1, domains, base, top, d);
    NewTablesOfOne(m1, d, v);
    if IsTable(Pde(m1, d, v / COUNT)) {
      TableInReach(m1, domains, base, top, d, v / COUNT);
      PteWrite(m1, domains, base, top, d, v, pte);
      SlotKind(m1, d, v / COUNT);
      PageInReach(Table(Pde(m1, d, v / COUNT)));
    } else {
      StrayEffect(m1, domains, base, top, d, v, pte);
    }
    var m' := m1[EntryWord(m1, d, v) := pte];
    MappedOne(View(m0, d), View(m', d), v, pfn, attr);
  }

  lemma DomainInReach(m: Memory, domains: set<nat>, base: nat, top: nat, d: nat)
    requires Owned(m, domains, base, top) && d in domains
    ensures d < CPU_PAGES
  {
  }

  lemma TableInReach(m: Memory, domains: set<nat>, base: nat, top: nat, d: nat, s: nat)
    requires Owned(m, domains, base, top) && d in domains && s < COUNT && IsTable(Pde(m, d, s))
    ensures Table(Pde(m, d, s)) < CPU_PAGES
  {
  }

  lemma PageInReach(p: nat)
    ensures p < CPU_PAGES ==> WordOf(p) == p * COUNT
  {
  }

  lemma SlotKind(m: Memory, d: nat, s: nat)
    requires d < CPU_PAGES && s < COUNT
    ensures s in View(m, d).tables <==> IsTable(Pde(m, d, s))
    ensures s in View(m, d).huge <==> IsHuge(Pde(m, d, s))
  {
  }

  lemma StrayEffect(m: Memory, domains: set<nat>, base: nat, top: nat, d: nat, v: nat, pte: u32)
    requires Owned(m, domains, base, top) && d in domains && v < CPU_PAGES
    requires IsHuge(Pde(m, d, v / COUNT)) && StraySafe(m, d, {v / COUNT}, base, top)
    ensures v / COUNT in View(m, d).huge
    ensures var m' := m[EntryWord(m, d, v) := pte];
            Owned(m', domains, base, top) && forall d' | d' in domains :: View(m', d') == View(m, d')
  {
    SlotKind(m, d, v / COUNT);
    var m' := m[EntryWord(m, d, v) := pte];
    OutsideFrame(m, m', domains, base, top);
  }

  lemma MappedOne(dom: Domain, dom': Domain, v: nat, pfn: nat, attr: nat)
    requires |dom.flat| == CPU_PAGES && v < CPU_PAGES
    requires dom' == Domain(if v / COUNT in dom.huge then dom.flat else dom.flat[v := EntryOf(pfn % PFNS, attr % 8)],
                            dom.tables + NewTables(dom, v, 1), dom.huge)
    ensures dom' == Mapped(dom, v, pfn, 1, attr)
  {
    SlotsOfOne(v);
    assert dom'.flat == Mapped(dom, v, pfn, 1, attr).flat;
    assert dom'.tables == Mapped(dom, v, pfn, 1, attr).tables;
  }

  lemma PteTouched(m: Memory, domains: set<nat>, base: nat, top: nat, d: nat, v: nat, pte: u32)
    requires Owned(m, domains, base, top) && d in domains
    requires v < CPU_PAGES && Attr(Pde(m, d, v / COUNT)) != 0 && StraySafe(m, d, {v / COUNT}, base, top)
    ensures var m' := m[EntryWord(m, d, v) := pte]; Touched(m, m', d, top, top) && HugeKept(m, m', d)
  {
    var p := Table(Pde(m, d, v / COUNT)) % CPU_PAGES;
    var m' := m[EntryWord(m, d, v) := pte];
    assert p in OwnPages(m, d) && EntryWord(m, d, v) / COUNT == p && p != d;
    forall s' | 0 <= s' < COUNT ensures Pde(m', d, s') == Pde(m, d, s') {
      assert (d * COUNT + s') / COUNT == d;
    }
  }

  lemma PageMapped(m0: Memory, m1: Memory, domains: set<nat>, base: nat, top0: nat, top: nat,
                   d: nat, v: nat, pfn: nat, attr: nat, pte: u32)
    requires Owned(m1, domains, base, top) && d in domains && d < CPU_PAGES && v < CPU_PAGES && top0 <= top
    requires Attr(Pde(m1, d, v / COUNT)) != 0
    requires StraySafe(m0, d, {v / COUNT}, base, top0) && (Attr(Pde(m0, d, v / COUNT)) != 0 ==> top == top0)
    requires View(m1, d) == View(m0, d).(tables := View(m0, d).tables + NewTables(View(m0, d), v, 1))
    requires Touched(m0, m1, d, top0, top) && HugeKept(m0, m1, d) && OthersKept(m0, m1, domains, d)
    requires Table(pte) == pfn % PFNS && Attr(pte) == attr % 8
    ensures var m' := m1[EntryWord(m1, d, v) := pte];
            && Owned(m', domains, base, top)
            && View(m', d) == Mapped(View(m0, d), v, pfn, 1, attr)
            && Touched(m0, m', d, top0, top) && HugeKept(m0, m', d) && OthersKept(m0, m', domains, d)
  {
    hide Mapped, Touched, Owned, NewTables, View, OthersKept, HugeKept, StraySafe, EntryWord;
    var m' := m1[EntryWord(m1, d, v) := pte];
    StrayKept(m0, m1, base, top0, top, d, v);
    PteEffect(m0, m1, domains, base, top, d, v, pfn, attr, pte);
    PteTouched(m1, domains, base, top, d, v, pte);
    TouchedTwice(m0, m1, m', d, top0, top, top);
    HugeKeptTwice(m0, m1, m', d);
    OthersKeptTwice(m0, m1, m', domains, d);
  }

  lemma StrayKept(m0: Memory, m1: Memory, base: nat, top0: nat, top: nat, d: nat, v: nat)
    requires d < CPU_PAGES && v < CPU_PAGES && HugeKept(m0, m1, d)
    requires StraySafe(m0, d, {v / COUNT}, base, top0) && (Attr(Pde(m0, d, v / COUNT)) != 0 ==> top == top0)
    requires View(m1, d) == View(m0, d).(tables := View(m0, d).tables + NewTables(View(m0, d), v, 1))
    ensures StraySafe(m1, d, {v / COUNT}, base, top)
  {
    SlotKind(m0, d, v / COUNT);
    SlotKind(m1, d, v / COUNT);
  }

  lemma MappedNone(dom: Domain, vpn: nat, pfn: nat, attr: nat)
    requires |dom.flat| == CPU_PAGES
    ensures Mapped(dom, vpn, pfn, 0, attr) == dom && NewTables(dom, vpn, 0) == {}
  {
    assert Mapped(dom, vpn, pfn, 0, attr).flat == dom.flat;
    assert Mapped(dom, vpn, pfn, 0, attr).tables == dom.tables;
  }

  /** The tables still needed for page `k` fit if those of the whole range do. */
  lemma RoomStep(dom: Domain, vpn: nat, pfn: nat, k: nat, n: nat, attr: nat, v: nat, p: nat)
    requires |dom.flat| == CPU_PAGES && k < n && vpn + n <= CPU_PAGES && v == vpn + k && p == pfn + k
    ensures |NewTables(dom, vpn, k)| + |NewTables(Mapped(dom, vpn, pfn, k, attr), v, 1)|
         == |NewTables(dom, vpn, k + 1)| <= |NewTables(dom, vpn, n)|
  {
    MappedStep(dom, vpn, pfn, k, attr, v, p);
    SlotsMonotone(vpn, k + 1, n);
    CardinalityMonotone(NewTables(dom, vpn, k + 1), NewTables(dom, vpn, n));
  }

  lemma StrayStep(m0: Memory, m: Memory, d: nat, vpn: nat, k: nat, n: nat, base: nat, top: nat, top': nat, v: nat)
    requires d < CPU_PAGES && k < n && top <= top' && v == vpn + k
    requires StraySafe(m0, d, SlotsOf(vpn, n), base, top') && HugeKept(m0, m, d)
    requires View(m, d).huge == View(m0, d).huge
    ensures StraySafe(m, d, SlotsOf(v, 1), base, top)
  {
    SlotsOfOne(v);
    SlotsMonotone(vpn, k + 1, n);
    var s := v / COUNT;
    if s < COUNT {
      SlotKind(m, d, s);
      SlotKind(m0, d, s);
    }
  }

  lemma MappedHugeNone(dom: Domain, s: nat, region: nat, attr: nat)
    requires |dom.flat| == CPU_PAGES
    ensures MappedHuge(dom, s, region, 0, attr) == dom
  {
    assert MappedHuge(dom, s, region, 0, attr).flat == dom.flat;
    assert Slots(s, 0) == {};
    assert dom.tables - {} == dom.tables && dom.huge - {} == dom.huge && dom.huge + {} == dom.huge;
  }

  lemma MappedHugeStep(dom: Domain, s: nat, region: nat, k: nat, attr: nat, s': nat, region': nat)
    requires |dom.flat| == CPU_PAGES && s' == s + k < COUNT && region' == region + k
    ensures |MappedHuge(dom, s, region, k, attr).flat| == CPU_PAGES
    ensures WithHuge(MappedHuge(dom, s, region, k, attr), s', region' % 0x1000, attr % 8)
         == MappedHuge(dom, s, region, k + 1, attr)
  {
    var a := WithHuge(MappedHuge(dom, s, region, k, attr), s', region' % 0x1000, attr % 8);
    var b := MappedHuge(dom, s, region, k + 1, attr);
    assert a.flat == b.flat;
    assert a.tables == b.tables;
    assert a.huge == b.huge;
  }

  function Add32(a: u32, b: nat): u32 {
    (a + b) % 0x1_0000_0000
  }

  /** The loop cursors after `i` of `n` steps; the virtual one may wrap after the last. */
  predicate Advanced(iova: u32, iopa: nat, step: nat, i: nat, n: nat, va: u32, pa: nat) {
    (i < n ==> va == iova + i * step) && pa == iopa + i * step
  }

  lemma AddressStart(m: Memory, d: nat, iova: u32, iopa: nat, n: nat, base: nat, top: nat)
    requires d < CPU_PAGES && MapFits(m, d, PageOf(iova), n, base, top)
    ensures PageOf(iova) + n <= CPU_PAGES && Advanced(iova, iopa, PAGE, 0, n, iova, iopa)
  {
  }

  lemma AddressStep(iova: u32, iopa: nat, i: nat, n: nat, va: u32, pa: nat)
    requires i < n && PageOf(iova) + n <= CPU_PAGES && Advanced(iova, iopa, PAGE, i, n, va, pa)
    ensures PageOf(va) == PageOf(iova) + i && PageOf(pa) == PageOf(iopa) + i
    ensures Advanced(iova, iopa, PAGE, i + 1, n, Add32(va, PAGE), pa + PAGE)
  {
  }

  lemma RegionStart(iova: u32, iopa: nat, n: nat)
    ensures Advanced(iova, iopa, 0x40_0000, 0, n, iova, iopa)
  {
  }

  lemma RegionStep(iova: u32, iopa: nat, i: nat, n: nat, va: u32, pa: nat)
    requires i < n && iova / 0x40_0000 + n <= COUNT && Advanced(iova, iopa, 0x40_0000, i, n, va, pa)
    ensures va / 0x40_0000 == iova / 0x40_0000 + i && pa / 0x40_0000 == iopa / 0x40_0000 + i
    ensures Advanced(iova, iopa, 0x40_0000, i + 1, n, Add32(va, 0x40_0000), pa + 0x40_0000)
  {
  }

  lemma TablePrepared(m: Memory, m1: Memory, m': Memory, domains: set<nat>, base: nat, top: nat, d: nat, v: nat)
    requires Owned(m, domains, base, top) && d in domains && v < CPU_PAGES && top < CPU_PAGES
    requires Attr(Pde(m, d, v / COUNT)) == 0
    requires SameOutside(m, m1, top * COUNT, (top + 1) * COUNT)
    requires forall i | top * COUNT <= i < (top + 1) * COUNT :: Attr(m1[i]) == 0
    requires m' == m1[d * COUNT + v / COUNT := Pde(m', d, v / COUNT)]
    requires IsTable(Pde(m', d, v / COUNT)) && Attr(Pde(m', d, v / COUNT)) == ATTR_ALL
    requires Table(Pde(m', d, v / COUNT)) == top
    ensures Owned(m', domains, base, top + 1) && SlotPrepared(m, top, m', top + 1, domains, d, v)
  {
    TableInstall(m, m', domains, base, top, d, v / COUNT);
    TableTouched(m, m', d, v / COUNT, top);
    NewTablesOfOne(m, d, v);
  }
}
