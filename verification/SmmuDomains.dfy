/** Whole sequences of calls on any number of domains, and of translations by the hardware:
    each domain translates by its own calls alone. */
module SmmuDomains {
  import opened SmmuLayout
  import opened Smmu
  import opened SmmuRuns

  /** One step: a new domain, pages for another use, a mapping in the domain whose directory
      is page `d`, a flush, a translation by the hardware, or a reset of the page heap. */
  datatype Action =
    | Init
    | Pages(num: nat)
    | Call(d: nat, op: Op)
    | Flush
    | Translate(d: nat, v: nat)
    | Reset

  /** What all the domains translate, the first page not handed out, the first page of all,
      and what is cached. */
  datatype World = World(domains: map<nat, Domain>, top: nat, base: nat, tlb: map<(nat, nat), Entry>) {
    predicate Valid() {
      base <= top <= CPU_PAGES && forall d | d in domains :: |domains[d].flat| == CPU_PAGES && d < top
    }

    predicate Allows(a: Action)
      requires Valid()
    {
      match a
      case Init => top < CPU_PAGES
      case Pages(num) => top + num <= CPU_PAGES
      case Call(d, op) => d in domains && op.Fits(domains[d], CPU_PAGES - top)
      case Flush => true
      case Translate(d, v) => d in domains && v < CPU_PAGES
      case Reset => true
    }

    function After(a: Action): (w: World)
      requires Valid() && Allows(a)
      ensures w.Valid()
    {
      match a
      case Init => World(domains[top := Empty()], top + 1, base, tlb)
      case Pages(num) => World(domains, top + num, base, tlb)
      case Call(d, op) => World(domains[d := op.Apply(domains[d])], top + op.Need(domains[d]), base, map[])
      case Flush => World(domains, top, base, map[])
      case Translate(d, v) => World(domains, top, base, tlb[(d, v) := Lookup(d, v)])
      case Reset => World(map[], base, base, tlb)
    }

    /** What a translation yields, out of the cache if it is there. */
    function Lookup(d: nat, v: nat): Entry
      requires Valid() && d in domains && v < CPU_PAGES
    {
      if (d, v) in tlb then tlb[(d, v)] else domains[d].flat[v]
    }

    /** It is stale: the tables say otherwise. */
    predicate Stale(d: nat, v: nat)
      requires Valid() && d in domains && v < CPU_PAGES
    {
      Lookup(d, v) != domains[d].flat[v]
    }

    /** Nothing cached contradicts the tables, nor is left from domains that are gone. */
    ghost predicate Fresh()
      requires Valid()
    {
      forall k | k in tlb :: k.0 in domains && k.1 < CPU_PAGES && tlb[k] == domains[k.0].flat[k.1]
    }

    predicate AllowsAll(actions: seq<Action>)
      requires Valid()
      decreases |actions|
    {
      actions == [] || (Allows(actions[0]) && After(actions[0]).AllowsAll(actions[1..]))
    }

    function AfterAll(actions: seq<Action>): (w: World)
      requires Valid() && AllowsAll(actions)
      ensures w.Valid()
      decreases |actions|
    {
      if actions == [] then this else After(actions[0]).AfterAll(actions[1..])
    }

    /** What the translations among the actions yield. */
    function Seen(actions: seq<Action>): seq<Entry>
      requires Valid() && AllowsAll(actions)
      decreases |actions|
    {
      if actions == [] then []
      else SeenBy(actions[0]) + After(actions[0]).Seen(actions[1..])
    }

    function SeenBy(a: Action): seq<Entry>
      requires Valid() && Allows(a)
    {
      if a.Translate? then [Lookup(a.d, a.v)] else []
    }

    /** What they would yield without a cache. */
    function Current(actions: seq<Action>): seq<Entry>
      requires Valid() && AllowsAll(actions)
      decreases |actions|
    {
      if actions == [] then []
      else (if actions[0].Translate? then [domains[actions[0].d].flat[actions[0].v]] else [])
           + After(actions[0]).Current(actions[1..])
    }
  }

  function Empty(): (dom: Domain)
    ensures |dom.flat| == CPU_PAGES
  {
    Domain(seq(CPU_PAGES, _ => NoAccess), {}, {})
  }

  // ----- one domain on its own

  predicate NoReset(actions: seq<Action>) {
    actions == [] || (!actions[0].Reset? && NoReset(actions[1..]))
  }

  /** The actions behind the last reset. */
  function SinceReset(actions: seq<Action>): seq<Action> {
    if NoReset(actions) then actions else SinceReset(actions[1..])
  }

  /** The calls on one domain, the others left out. */
  function CallsOn(actions: seq<Action>, d: nat): seq<Op> {
    if actions == [] then []
    else if actions[0].Call? && actions[0].d == d then [actions[0].op] + CallsOn(actions[1..], d)
    else CallsOn(actions[1..], d)
  }

  /** What domain `d` translates before the calls: nothing, if it is new since the start or
      since the last reset. */
  function Origin(w: World, actions: seq<Action>, d: nat): (f: seq<Entry>)
    requires w.Valid()
    ensures |f| == CPU_PAGES
  {
    if NoReset(actions) && d in w.domains then w.domains[d].flat else Empty().flat
  }

  /** One mapping call, seen flat. */
  lemma OneFlat(dom: Domain, ops: seq<Op>, room: nat)
    requires |dom.flat| == CPU_PAGES && ops != [] && ops[0].Fits(dom, room)
    ensures FlatRun(dom.flat, ops) == FlatRun(ops[0].Apply(dom).flat, ops[1..])
  {
    var op := ops[0];
    if op.Map? {
      MappedIsFlat(dom, op.First(), op.Target(), op.pages, op.attr);
    } else {
      HugeIsPages(dom, op.iova / 0x40_0000, op.iopa / 0x40_0000, op.regions, op.attr);
    }
  }

  /** Every domain there is in the end, old or new, has the translation of the flat run of
      its own calls. */
  lemma {:induction false} Isolated(w: World, actions: seq<Action>, d: nat)
    requires w.Valid() && w.AllowsAll(actions) && d in w.AfterAll(actions).domains
    ensures w.AfterAll(actions).domains[d].flat
         == FlatRun(Origin(w, actions, d), CallsOn(SinceReset(actions), d))
    decreases |actions|
  {
    hide FlatRun, FlatMap, Mapped, MappedHuge, NewTables, SlotsOf, Empty;
    if actions == [] {
      NothingRun(Origin(w, actions, d));
    } else {
      var a, rest := actions[0], actions[1..];
      Isolated(w.After(a), rest, d);
      if NoReset(rest) && a.Call? && a.d == d {
        assert CallsOn(actions, d) == [a.op] + CallsOn(rest, d);
        OneFlat(w.domains[d], CallsOn(actions, d), CPU_PAGES - w.top);
      }
    }
  }

  lemma NothingRun(f: seq<Entry>)
    requires |f| == CPU_PAGES
    ensures FlatRun(f, []) == f
  {
  }

  // ----- the cache

  /** Whether the cache may hold entries from before a reset: after one, until the next flush
      or mapping. */
  function Dirty(a: Action, dirty: bool): bool {
    match a
    case Reset => true
    case Call(_, _) => false
    case Flush => false
    case _ => dirty
  }

  /** No translation happens in between. */
  predicate LooksClean(actions: seq<Action>, dirty: bool) {
    actions == [] ||
    ((actions[0].Translate? ==> !dirty) && LooksClean(actions[1..], Dirty(actions[0], dirty)))
  }

  lemma FreshKept(w: World, a: Action, dirty: bool)
    requires w.Valid() && w.Allows(a) && (!dirty ==> w.Fresh())
    ensures !Dirty(a, dirty) ==> w.After(a).Fresh()
  {
    hide Empty;
  }

  /** A lookup is stale if and only if its page is cached with another entry, which never
      happens while the cache is fresh. */
  lemma StaleExactly(w: World, d: nat, v: nat)
    requires w.Valid() && d in w.domains && v < CPU_PAGES
    ensures w.Stale(d, v) <==> (d, v) in w.tlb && w.tlb[(d, v)] != w.domains[d].flat[v]
    ensures w.Fresh() ==> !w.Stale(d, v)
  {
  }

  /** In every run the translations are those of the tables, unless one happens between a
      reset and the next flush or mapping. */
  lemma {:induction false} SeenCurrent(w: World, actions: seq<Action>, dirty: bool)
    requires w.Valid() && w.AllowsAll(actions) && (!dirty ==> w.Fresh()) && LooksClean(actions, dirty)
    ensures w.Seen(actions) == w.Current(actions)
    decreases |actions|
  {
    if actions != [] {
      FreshKept(w, actions[0], dirty);
      SeenCurrent(w.After(actions[0]), actions[1..], Dirty(actions[0], dirty));
    }
  }

  /** The first page of all is mapped in a domain and translated; after a reset a new domain
      in the same page translates nothing, but the lookup still yields the old entry. */
  lemma StaleExample(w0: World)
    requires w0 == World(map[], 0, 0, map[])
    ensures var actions := [Init, Call(0, MapHuge(0, 0, 1, 7)), Translate(0, 0), Reset, Init, Translate(0, 0)];
      w0.Valid() && w0.AllowsAll(actions) &&
      w0.Seen(actions) == [Access(0, 7), Access(0, 7)] && w0.Current(actions) == [Access(0, 7), NoAccess]
  {
    hide Empty, Mapped, MappedHuge, NewTables, SlotsOf;
    var op := MapHuge(0, 0, 1, 7);
    var w1 := w0.After(Init);
    var w2 := w1.After(Call(0, op));
    FirstPage(op);
    var w3 := w2.After(Translate(0, 0));
    var w4 := w3.After(Reset);
    var w5 := w4.After(Init);
    assert w2.domains[0].flat[0] == Access(0, 7) && w5.domains[0].flat[0] == NoAccess;
    assert w3.tlb == map[(0, 0) := Access(0, 7)] == w5.tlb;
    LastLook(w5);
    var last := [Translate(0, 0)];
    var a4, a3 := [Init] + last, [Reset, Init] + last;
    var a2 := [Translate(0, 0)] + a3;
    var a1 := [Call(0, op)] + a2;
    assert a4[1..] == last && a3[1..] == a4 && a2[1..] == a3 && a1[1..] == a2;
    assert w4.AllowsAll(a4) && w4.Seen(a4) == [Access(0, 7)] && w4.Current(a4) == [NoAccess];
    assert w3.AllowsAll(a3) && w3.Seen(a3) == [Access(0, 7)] && w3.Current(a3) == [NoAccess];
    assert w2.AllowsAll(a2) && w2.Seen(a2) == [Access(0, 7), Access(0, 7)];
    assert w2.Current(a2) == [Access(0, 7), NoAccess];
    assert w1.AllowsAll(a1) && w1.Seen(a1) == w2.Seen(a2) && w1.Current(a1) == w2.Current(a2);
    assert ([Init] + a1)[1..] == a1;
    assert [Init, Call(0, op), Translate(0, 0), Reset, Init, Translate(0, 0)] == [Init] + a1;
  }

  lemma FirstPage(op: Op)
    requires op == MapHuge(0, 0, 1, 7)
    ensures op.Fits(Empty(), CPU_PAGES - 1) && op.Need(Empty()) == 0 && op.Apply(Empty()).flat[0] == Access(0, 7)
    ensures Empty().flat[0] == NoAccess
  {
  }

  lemma LastLook(w: World)
    requires w.Valid() && 0 in w.domains && w.domains[0].flat[0] == NoAccess && w.tlb == map[(0, 0) := Access(0, 7)]
    ensures var last := [Translate(0, 0)];
      w.AllowsAll(last) && w.Seen(last) == [Access(0, 7)] && w.Current(last) == [NoAccess]
  {
    var last := [Translate(0, 0)];
    assert last[1..] == [];
    assert w.After(last[0]).AllowsAll([]);
  }

  // ----- on the page tables themselves

  /** Memory and cache show what the world says. */
  ghost predicate Shows(m: Memory, domains: set<nat>, tlb: map<(nat, nat), Entry>, base: nat, top: nat, w: World) {
    w.Valid() && w.top == top && w.base == base && domains == w.domains.Keys &&
    (forall d | d in domains :: d < CPU_PAGES && View(m, d) == w.domains[d]) && tlb == w.tlb
  }

  /** Any run over any number of domains, from any state: in the end each domain has the
      translation of the flat run of its own calls, and the translations by the hardware were
      those of the world, current unless made between a reset and the next flush. */
  method RunAll(smmu: Tables, actions: seq<Action>, ghost w: World) returns (seen: seq<Entry>)
    requires smmu.Valid() && Shows(smmu.mem, smmu.domains, smmu.tlb, smmu.Base(), smmu.Top(), w) && w.AllowsAll(actions)
    modifies smmu`heap, smmu`domains, smmu`tlb, smmu`mem
    ensures smmu.Valid() && Shows(smmu.mem, smmu.domains, smmu.tlb, smmu.Base(), smmu.Top(), w.AfterAll(actions))
    ensures seen == w.Seen(actions)
    ensures w.Fresh() && LooksClean(actions, false) ==> seen == w.Current(actions)
    ensures forall d | d in smmu.domains ::
      d < CPU_PAGES && View(smmu.mem, d).flat == FlatRun(Origin(w, actions, d), CallsOn(SinceReset(actions), d))
    decreases |actions|
  {
    hide View, Owned, FlatRun;
    if w.Fresh() && LooksClean(actions, false) { SeenCurrent(w, actions, false); }
    seen := [];
    if actions != [] {
      seen := Step(smmu, actions[0], w);
      var more := RunAll(smmu, actions[1..], w.After(actions[0]));
      seen := seen + more;
    }
    forall d | d in smmu.domains
      ensures View(smmu.mem, d).flat == FlatRun(Origin(w, actions, d), CallsOn(SinceReset(actions), d))
    {
      Isolated(w, actions, d);
    }
  }

  method Step(smmu: Tables, a: Action, ghost w: World) returns (seen: seq<Entry>)
    requires smmu.Valid() && Shows(smmu.mem, smmu.domains, smmu.tlb, smmu.Base(), smmu.Top(), w) && w.Allows(a)
    modifies smmu`heap, smmu`domains, smmu`tlb, smmu`mem
    ensures smmu.Valid() && Shows(smmu.mem, smmu.domains, smmu.tlb, smmu.Base(), smmu.Top(), w.After(a))
    ensures seen == w.SeenBy(a)
  {
    hide View, Owned, NewTables, SlotsOf, Mapped, MappedHuge;
    seen := [];
    match a {
      case Init =>
        var ptb := smmu.InitDomain();
      case Pages(num) =>
        var page := smmu.PageZalloc(num);
      case Call(d, op) =>
        RunOne(smmu, d * PAGE, op);
      case Flush =>
        smmu.FlushAll();
      case Translate(d, v) =>
        var e := smmu.Translate(d * PAGE, v);
        seen := [e];
      case Reset =>
        smmu.ResetHeap();
    }
  }
}
