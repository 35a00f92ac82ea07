/** Page directories and page tables as the SMMU sees them (bdk/mem/smmu.h): bit fields of
    32-bit words, the hardware's two-level walk, and who owns which page. */
module SmmuLayout {
  import opened Bits

  const PAGE := 0x1000          // bytes in a page
  const COUNT := 1024           // entries in a directory or table
  const CPU_PAGES := 0x10_0000  // pages a 32-bit pointer reaches; also virtual pages
  const PFNS := 0x40_0000       // pages a 22-bit field names
  const MEM_WORDS := PFNS * COUNT
  const ATTR_ALL := 7
  const PAGE_TABLE := 1
  const REGION_4MB := 0

  /** The words of a 34-bit physical address space. */
  type Memory = m: seq<u32> | |m| == MEM_WORDS ghost witness seq(MEM_WORDS, _ => 0)

  // ----- bit fields; assignment truncates to the width of the field

  function Table(w: u32): nat { w % 0x40_0000 }

  function HugePage(w: u32): nat { w / 0x400 % 0x1000 }

  function Next(w: u32): nat { w / 0x1000_0000 % 2 }

  function Attr(w: u32): nat { w / 0x2000_0000 }

  function SetTable(w: u32, v: nat): u32 { w - Table(w) + v % 0x40_0000 }

  function SetHugePage(w: u32, v: nat): u32 {
    w - HugePage(w) * 0x400 + v % 0x1000 * 0x400
  }

  function SetNext(w: u32, v: nat): u32 {
    w - Next(w) * 0x1000_0000 + v % 2 * 0x1000_0000
  }

  function SetAttr(w: u32, v: nat): u32 { w % 0x2000_0000 + v % 8 * 0x2000_0000 }

  lemma Join(lo: nat, n: nat, a: nat)
    requires lo < 0x1000_0000 && n < 2 && a < 8
    ensures var w := lo + n * 0x1000_0000 + a * 0x2000_0000;
            w < 0x1_0000_0000 && Attr(w) == a && Next(w) == n && w % 0x1000_0000 == lo
  {
  }

  lemma Split(w: u32)
    ensures w == w % 0x1000_0000 + Next(w) * 0x1000_0000 + Attr(w) * 0x2000_0000
  {
    var h := w / 0x1000_0000;
    assert Attr(w) == h / 2;
  }

  lemma LowFields(w: u32)
    ensures Table(w) == w % 0x1000_0000 % 0x40_0000
    ensures HugePage(w) == w % 0x1000_0000 / 0x400 % 0x1000
  {
    var lo, h := w % 0x1000_0000, w / 0x1000_0000;
    assert w == lo + h * 0x1000_0000;
    LowTable(lo, h);
    LowHuge(lo, h);
  }

  lemma LowTable(lo: nat, h: nat)
    ensures (lo + h * 0x1000_0000) % 0x40_0000 == lo % 0x40_0000
  {
  }

  lemma LowHuge(lo: nat, h: nat)
    ensures (lo + h * 0x1000_0000) / 0x400 % 0x1000 == lo / 0x400 % 0x1000
  {
    var q, r := lo / 0x400, lo % 0x400;
    assert lo + h * 0x1000_0000 == 0x400 * (q + h * 0x4_0000) + r;
    HighQuotient(q + h * 0x4_0000, r);
    HighRemainder(q, h);
  }

  lemma HighQuotient(q: nat, r: nat)
    requires r < 0x400
    ensures (0x400 * q + r) / 0x400 == q
  {
  }

  lemma HighRemainder(q: nat, h: nat)
    ensures (q + h * 0x4_0000) % 0x1000 == q % 0x1000
  {
  }

  lemma FieldsOfTable(w: u32, v: nat)
    ensures Table(SetTable(w, v)) == v % 0x40_0000
    ensures Next(SetTable(w, v)) == Next(w) && Attr(SetTable(w, v)) == Attr(w)
    ensures SetTable(w, v) / 0x40_0000 == w / 0x40_0000
  {
    var h := w / 0x40_0000;
    assert w == Table(w) + h * 0x40_0000;
    HighFields(v % 0x40_0000, h);
    HighFields(Table(w), h);
  }

  /** The low ten bits, seen in either layout. */
  lemma LowTen(w: u32)
    ensures Table(w) % 0x400 == w % 0x400 && Table(w) == HugePage(w) * 0x400 + w % 0x400
  {
    var c, q := w % 0x400, w / 0x400;
    var h, p := q / 0x1000, q % 0x1000;
    assert w == c + p * 0x400 + h * 0x40_0000;
    TenBits(c, p, h);
  }

  lemma TenBits(c: nat, p: nat, h: nat)
    requires c < 0x400 && p < 0x1000
    ensures (c + p * 0x400 + h * 0x40_0000) % 0x40_0000 == c + p * 0x400 && (c + p * 0x400) % 0x400 == c
  {
  }

  lemma HighFields(t: nat, h: nat)
    requires t < 0x40_0000 && h < 0x400
    ensures var w := t + h * 0x40_0000; Table(w) == t && Next(w) == h / 0x40 % 2 && Attr(w) == h / 0x80
  {
    var w := t + h * 0x40_0000;
    assert w / 0x40_0000 == h;
    assert w / 0x1000_0000 == h / 0x40;
  }

  lemma FieldsOfNext(w: u32, v: nat)
    ensures Next(SetNext(w, v)) == v % 2
    ensures Table(SetNext(w, v)) == Table(w) && HugePage(SetNext(w, v)) == HugePage(w)
    ensures Attr(SetNext(w, v)) == Attr(w)
  {
    Split(w);
    Join(w % 0x1000_0000, v % 2, Attr(w));
    LowFields(w);
    LowFields(SetNext(w, v));
  }

  lemma FieldsOfAttr(w: u32, v: nat)
    ensures Attr(SetAttr(w, v)) == v % 8
    ensures Table(SetAttr(w, v)) == Table(w) && HugePage(SetAttr(w, v)) == HugePage(w)
    ensures Next(SetAttr(w, v)) == Next(w)
  {
    Split(w);
    AttrCleared(w);
    Join(w % 0x1000_0000, Next(w), v % 8);
    LowFields(w);
    LowFields(SetAttr(w, v));
  }

  lemma AttrCleared(w: u32)
    ensures w % 0x2000_0000 == w % 0x1000_0000 + Next(w) * 0x1000_0000
  {
  }

  lemma FieldsOfHuge(w: u32, v: nat)
    ensures HugePage(SetHugePage(w, v)) == v % 0x1000
    ensures Next(SetHugePage(w, v)) == Next(w) && Attr(SetHugePage(w, v)) == Attr(w)
    ensures SetHugePage(w, v) % 0x400 == w % 0x400 && SetHugePage(w, v) / 0x40_0000 == w / 0x40_0000
  {
    HugeReserved(w, v % 0x1000);
    Split(w);
    LowFields(w);
    var lo := w % 0x1000_0000;
    var lo' := lo - HugePage(w) * 0x400 + v % 0x1000 * 0x400;
    HugeCleared(lo, v % 0x1000);
    Join(lo', Next(w), Attr(w));
    LowFields(SetHugePage(w, v));
  }

  /** The reserved bits below and above the page field stay. */
  lemma HugeReserved(w: u32, v: nat)
    requires v < 0x1000
    ensures var x := w - w / 0x400 % 0x1000 * 0x400 + v * 0x400;
            x % 0x400 == w % 0x400 && x / 0x40_0000 == w / 0x40_0000
  {
    var c, q := w % 0x400, w / 0x400;
    var h := q / 0x1000;
    assert w == c + (q % 0x1000) * 0x400 + h * 0x40_0000;
    AroundField(c, q % 0x1000, h);
    AroundField(c, v, h);
  }

  lemma AroundField(c: nat, p: nat, h: nat)
    requires c < 0x400 && p < 0x1000
    ensures var x := c + p * 0x400 + h * 0x40_0000; x % 0x400 == c && x / 0x40_0000 == h
  {
    assert c + p * 0x400 + h * 0x40_0000 == c + 0x400 * (p + 0x1000 * h);
  }

  lemma HugeCleared(lo: nat, v: nat)
    requires lo < 0x1000_0000 && v < 0x1000
    ensures var lo' := lo - lo / 0x400 % 0x1000 * 0x400 + v * 0x400;
            0 <= lo' < 0x1000_0000 && lo' / 0x400 % 0x1000 == v
  {
    var c, q := lo % 0x400, lo / 0x400;
    var h := q / 0x1000;
    assert lo == c + (q % 0x1000) * 0x400 + h * 0x40_0000;
    assert (c + v * 0x400 + h * 0x40_0000) / 0x400 == v + h * 0x1000;
  }

  // ----- the hardware walk

  /** Where a virtual page leads: nowhere, or to a physical page with some permissions. */
  datatype Entry = NoAccess | Access(pfn: nat, attr: nat)

  /** Permissions granted by both levels. */
  function Meet(a: nat, b: nat): nat {
    (if a % 2 == 1 && b % 2 == 1 then 1 else 0)
    + (if a / 2 % 2 == 1 && b / 2 % 2 == 1 then 2 else 0)
    + (if a / 4 % 2 == 1 && b / 4 % 2 == 1 then 4 else 0)
  }

  function EntryOf(pfn: nat, attr: nat): Entry {
    if attr == 0 then NoAccess else Access(pfn, attr)
  }

  function Pde(m: Memory, d: nat, s: nat): u32
    requires d < CPU_PAGES && s < COUNT
  {
    m[d * COUNT + s]
  }

  /** The translation of virtual page `v` through the directory in page `d`. */
  function Walk(m: Memory, d: nat, v: nat): Entry
    requires d < CPU_PAGES && v < CPU_PAGES
  {
    var pde := Pde(m, d, v / COUNT);
    if Attr(pde) == 0 then NoAccess
    else if Next(pde) == REGION_4MB then Access(HugePage(pde) * COUNT + v % COUNT, Attr(pde))
    else var pte := m[Table(pde) * COUNT + v % COUNT]; EntryOf(Table(pte), Meet(Attr(pde), Attr(pte)))
  }

  /** The walk in the words of memory: the directory is indexed by the upper ten bits of the
      page, the table by the lower ten; the upper three bits of an entry are its permissions,
      bit 28 tells a table from a region. */
  lemma WalkInWords(m: Memory, d: nat, v: nat)
    requires d < CPU_PAGES && v < CPU_PAGES
    ensures var pde, w := m[1024 * d + v / 1024], Walk(m, d, v);
      if pde < 0x2000_0000 then w == NoAccess
      else if pde / 0x1000_0000 % 2 == 0 then
        w == Access(pde / 1024 % 4096 * 1024 + v % 1024, pde / 0x2000_0000)
      else var pte := m[pde % 0x40_0000 * 1024 + v % 1024];
        pde / 0x2000_0000 == 7 ==>
        w == if pte < 0x2000_0000 then NoAccess else Access(pte % 0x40_0000, pte / 0x2000_0000)
  {
    MeetAll(Attr(m[Table(m[1024 * d + v / 1024]) * 1024 + v % 1024]));
  }

  predicate IsTable(pde: u32) {
    Attr(pde) != 0 && Next(pde) == PAGE_TABLE
  }

  predicate IsHuge(pde: u32) {
    Attr(pde) != 0 && Next(pde) == REGION_4MB
  }

  lemma MeetAll(a: nat)
    requires a < 8
    ensures Meet(ATTR_ALL, a) == a
  {
  }

  // ----- ownership

  /** Two directory slots name the same table. */
  ghost predicate Shared(m: Memory, d: nat, s: nat, d': nat, s': nat)
    requires d < CPU_PAGES && d' < CPU_PAGES && s < COUNT && s' < COUNT
  {
    && IsTable(Pde(m, d, s)) && IsTable(Pde(m, d', s'))
    && Table(Pde(m, d, s)) == Table(Pde(m, d', s'))
  }

  /** The directories in `domains` and their tables lie in the allocated pages `base..top`;
      no table is a directory, and each belongs to exactly one slot of one directory. */
  ghost predicate Owned(m: Memory, domains: set<nat>, base: nat, top: nat) {
    && base <= top <= CPU_PAGES
    && (forall d | d in domains :: base <= d < top)
    && (forall d, s | d in domains && 0 <= s < COUNT && IsTable(Pde(m, d, s)) ::
          && Attr(Pde(m, d, s)) == ATTR_ALL
          && base <= Table(Pde(m, d, s)) < top
          && Table(Pde(m, d, s)) !in domains)
    && (forall d, s, d', s' | d in domains && d' in domains && 0 <= s < COUNT && 0 <= s' < COUNT
          && Shared(m, d, s, d', s') :: d == d' && s == s')
  }

  /** Ownership survives as long as no slot gains or changes a table. */
  lemma OwnedStill(m: Memory, m': Memory, domains: set<nat>, base: nat, top: nat)
    requires Owned(m, domains, base, top)
    requires forall d, s | d in domains && 0 <= s < COUNT && IsTable(Pde(m', d, s)) :: Pde(m', d, s) == Pde(m, d, s)
    ensures Owned(m', domains, base, top)
  {
    forall d, s, d', s' | d in domains && d' in domains && 0 <= s < COUNT && 0 <= s' < COUNT && Shared(m', d, s, d', s')
      ensures d == d' && s == s'
    {
      assert Shared(m, d, s, d', s');
    }
  }

  /** ... or one slot gains a table from fresh page `top`. */
  lemma OwnedGrows(m: Memory, m': Memory, domains: set<nat>, base: nat, top: nat, d: nat, s: nat)
    requires Owned(m, domains, base, top) && d in domains && s < COUNT && top < CPU_PAGES
    requires Attr(Pde(m', d, s)) == ATTR_ALL && Table(Pde(m', d, s)) == top
    requires forall d', s' | d' in domains && 0 <= s' < COUNT && (d' != d || s' != s) ::
               Pde(m', d', s') == Pde(m, d', s')
    ensures Owned(m', domains, base, top + 1)
  {
    forall d1, s1, d2, s2 | d1 in domains && d2 in domains && 0 <= s1 < COUNT && 0 <= s2 < COUNT
                            && Shared(m', d1, s1, d2, s2)
      ensures d1 == d2 && s1 == s2
    {
      if (d1 == d && s1 == s) == (d2 == d && s2 == s) && !(d1 == d && s1 == s) {
        assert Shared(m, d1, s1, d2, s2);
      }
    }
  }

  /** What a directory translates, and how: the slots with a table and those with a
      permitted 4 MB entry. */
  datatype Domain = Domain(flat: seq<Entry>, tables: set<nat>, huge: set<nat>)

  function Flat(m: Memory, d: nat): seq<Entry>
    requires d < CPU_PAGES
  {
    seq(CPU_PAGES, v requires 0 <= v < CPU_PAGES => Walk(m, d, v))
  }

  function View(m: Memory, d: nat): (dom: Domain)
    requires d < CPU_PAGES
    ensures |dom.flat| == CPU_PAGES
  {
    Domain(Flat(m, d),
           set s | 0 <= s < COUNT && IsTable(Pde(m, d, s)),
           set s | 0 <= s < COUNT && IsHuge(Pde(m, d, s)))
  }

  /** Memory that agrees on the allocated pages is owned alike and translates alike. */
  lemma OutsideFrame(m: Memory, m': Memory, domains: set<nat>, base: nat, top: nat)
    requires Owned(m, domains, base, top)
    requires m[base * COUNT..top * COUNT] == m'[base * COUNT..top * COUNT]
    ensures Owned(m', domains, base, top)
    ensures forall d | d in domains :: View(m', d) == View(m, d)
  {
    forall i | base * COUNT <= i < top * COUNT ensures m[i] == m'[i] {
      assert m[i] == m[base * COUNT..top * COUNT][i - base * COUNT];
      assert m'[i] == m'[base * COUNT..top * COUNT][i - base * COUNT];
    }
    forall d, s | d in domains && 0 <= s < COUNT ensures Pde(m', d, s) == Pde(m, d, s) {
      assert base * COUNT <= d * COUNT + s < top * COUNT;
    }
    OwnedStill(m, m', domains, base, top);
    forall d | d in domains ensures View(m', d) == View(m, d) {
      forall v | 0 <= v < CPU_PAGES ensures Walk(m', d, v) == Walk(m, d, v) {
        var pde := Pde(m, d, v / COUNT);
        assert Pde(m', d, v / COUNT) == pde;
        if IsTable(pde) { assert base * COUNT <= Table(pde) * COUNT + v % COUNT < top * COUNT; }
      }
      assert Flat(m', d) == Flat(m, d);
    }
  }

  /** Writing the entry of page `v` in an owned table changes that translation only. */
  lemma PteWrite(m: Memory, domains: set<nat>, base: nat, top: nat, d: nat, v: nat, pte: u32)
    requires Owned(m, domains, base, top) && d in domains && v < CPU_PAGES
    requires IsTable(Pde(m, d, v / COUNT))
    ensures var m' := m[Table(Pde(m, d, v / COUNT)) * COUNT + v % COUNT := pte];
            && Owned(m', domains, base, top)
            && View(m', d) == View(m, d).(flat := Flat(m, d)[v := EntryOf(Table(pte), Attr(pte))])
            && forall d' | d' in domains && d' != d :: View(m', d') == View(m, d')
  {
    var t := Table(Pde(m, d, v / COUNT));
    var i := t * COUNT + v % COUNT;
    var m' := m[i := pte];
    forall d', s | d' in domains && 0 <= s < COUNT ensures Pde(m', d', s) == Pde(m, d', s) {
      assert d' * COUNT + s != i by { assert d' != t; }
    }
    OwnedStill(m, m', domains, base, top);
    forall d', v' | d' in domains && 0 <= v' < CPU_PAGES
      ensures Walk(m', d', v') == if d' == d && v' == v then EntryOf(Table(pte), Attr(pte)) else Walk(m, d', v')
    {
      PteWriteAt(m, domains, base, top, d, v, pte, d', v');
    }
    assert Flat(m', d) == Flat(m, d)[v := EntryOf(Table(pte), Attr(pte))];
    forall d' | d' in domains && d' != d ensures View(m', d') == View(m, d') {
      assert Flat(m', d') == Flat(m, d');
    }
  }

  lemma PteWriteAt(m: Memory, domains: set<nat>, base: nat, top: nat, d: nat, v: nat, pte: u32, d': nat, v': nat)
    requires Owned(m, domains, base, top) && d in domains && d' in domains && v < CPU_PAGES && v' < CPU_PAGES
    requires IsTable(Pde(m, d, v / COUNT))
    ensures var m' := m[Table(Pde(m, d, v / COUNT)) * COUNT + v % COUNT := pte];
            Walk(m', d', v') == if d' == d && v' == v then EntryOf(Table(pte), Attr(pte)) else Walk(m, d', v')
  {
    var t := Table(Pde(m, d, v / COUNT));
    var i := t * COUNT + v % COUNT;
    var m' := m[i := pte];
    var s' := v' / COUNT;
    assert Pde(m', d', s') == Pde(m, d', s') by { assert d' != t; }
    MeetAll(Attr(pte));
    if IsTable(Pde(m, d', s')) {
      var t' := Table(Pde(m, d', s'));
      if t' == t { assert Shared(m, d', s', d, v / COUNT); }
    }
  }

  /** The lazily installed table, full of entries without permission, is invisible. */
  lemma TableInstall(m: Memory, m': Memory, domains: set<nat>, base: nat, top: nat, d: nat, s: nat)
    requires Owned(m, domains, base, top) && d in domains && 0 <= s < COUNT && top < CPU_PAGES
    requires Attr(Pde(m, d, s)) == 0
    requires IsTable(Pde(m', d, s)) && Attr(Pde(m', d, s)) == ATTR_ALL && Table(Pde(m', d, s)) == top
    requires forall i | top * COUNT <= i < (top + 1) * COUNT :: Attr(m'[i]) == 0
    requires forall i | base * COUNT <= i < top * COUNT && i != d * COUNT + s :: m'[i] == m[i]
    ensures Owned(m', domains, base, top + 1)
    ensures View(m', d) == View(m, d).(tables := View(m, d).tables + {s})
    ensures forall d' | d' in domains && d' != d :: View(m', d') == View(m, d')
  {
    forall d', s' | d' in domains && 0 <= s' < COUNT && (d' != d || s' != s)
      ensures Pde(m', d', s') == Pde(m, d', s')
    {
      assert d' * COUNT + s' != d * COUNT + s;
    }
    OwnedGrows(m, m', domains, base, top, d, s);
    forall d', v | d' in domains && 0 <= v < CPU_PAGES ensures Walk(m', d', v) == Walk(m, d', v) {
      if d' == d && v / COUNT == s {
        assert Attr(m'[top * COUNT + v % COUNT]) == 0;
      } else {
        var pde := Pde(m, d', v / COUNT);
        assert Pde(m', d', v / COUNT) == pde;
        if IsTable(pde) {
          assert Table(pde) != d;
          assert base * COUNT <= Table(pde) * COUNT + v % COUNT < top * COUNT;
        }
      }
    }
    forall d' | d' in domains ensures Flat(m', d') == Flat(m, d') {}
  }

  /** Slot `s` as one 4 MB entry. */
  function WithHuge(dom: Domain, s: nat, region: nat, attr: nat): Domain
    requires |dom.flat| == CPU_PAGES
  {
    Domain(seq(CPU_PAGES, v requires 0 <= v < CPU_PAGES =>
             if v / COUNT == s then EntryOf(region * COUNT + v % COUNT, attr) else dom.flat[v]),
           dom.tables - {s},
           if attr == 0 then dom.huge - {s} else dom.huge + {s})
  }

  /** Writing a directory entry that names no table changes one 4 MB slot. */
  lemma HugeWrite(m: Memory, domains: set<nat>, base: nat, top: nat, d: nat, s: nat, pde: u32)
    requires Owned(m, domains, base, top) && d in domains && 0 <= s < COUNT && Next(pde) == REGION_4MB
    ensures var m' := m[d * COUNT + s := pde];
            && Owned(m', domains, base, top)
            && View(m', d) == WithHuge(View(m, d), s, HugePage(pde), Attr(pde))
            && forall d' | d' in domains && d' != d :: View(m', d') == View(m, d')
  {
    var m' := m[d * COUNT + s := pde];
    forall d', s' | d' in domains && 0 <= s' < COUNT
      ensures Pde(m', d', s') == if d' == d && s' == s then pde else Pde(m, d', s')
    {
    }
    OwnedStill(m, m', domains, base, top);
    forall d', v | d' in domains && 0 <= v < CPU_PAGES
      ensures Walk(m', d', v) == if d' == d && v / COUNT == s then EntryOf(HugePage(pde) * COUNT + v % COUNT, Attr(pde))
                                 else Walk(m, d', v)
    {
      var old_ := Pde(m, d', v / COUNT);
      if IsTable(old_) { assert Table(old_) != d; }
    }
    assert View(m', d).flat == WithHuge(View(m, d), s, HugePage(pde), Attr(pde)).flat;
    forall d' | d' in domains && d' != d ensures Flat(m', d') == Flat(m, d') {}
  }

  /** A fresh directory of entries without permission translates nothing. */
  lemma DirectoryInstall(m: Memory, m': Memory, domains: set<nat>, base: nat, top: nat)
    requires Owned(m, domains, base, top) && top < CPU_PAGES
    requires m[base * COUNT..top * COUNT] == m'[base * COUNT..top * COUNT]
    requires forall s | 0 <= s < COUNT :: Attr(Pde(m', top, s)) == 0
    ensures Owned(m', domains + {top}, base, top + 1)
    ensures View(m', top) == Domain(seq(CPU_PAGES, _ => NoAccess), {}, {})
    ensures forall d | d in domains :: View(m', d) == View(m, d)
  {
    OutsideFrame(m, m', domains, base, top);
    forall v | 0 <= v < CPU_PAGES ensures Walk(m', top, v) == NoAccess {
      assert Attr(Pde(m', top, v / COUNT)) == 0;
    }
  }
}
