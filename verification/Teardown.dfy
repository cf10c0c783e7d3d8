/** Teardown of an address space (`vmm_free_pml4` in kernel/mem/vmm.c), and the theorem
    that a copy followed by its teardown gives back every frame. */
module Teardown {
  import opened Bits
  import opened FrameAllocator
  import opened PageEntries
  import opened PageTables
  import opened AddressSpaces
  import opened Translation
  import opened Fork

  /** `g` lists the lower-half 4 KiB pages of a space; these frames and the lower-half tables are all distinct. */
  ghost predicate Owned(m: Mem, t: Tables, g: Pages) {
    && Wf(m, t)
    && (forall n :: n in t && (n.L4? || n.i < 256) ==> t[n] > 0)
    && (forall q :: q in g <==> InTables(q) && q.i < 256 && Present(Pte(m, t, q)))
    && (forall q :: q in g ==> g[q] == FrameOf(Pte(m, t, q)) && 0 < g[q] < |m|)
    && (forall q, n :: q in g && n in t && (n.L4? || n.i < 256) ==> g[q] != t[n])
    && (forall q, q' :: q in g && q' in g && g[q] == g[q'] ==> q == q')
  }

  /** Page `q`, or table `n'`, lies below table `n` in the lower half, at the entry with the given index. */
  predicate PageUnder(n: Node, q: Path) {
    match n
    case L4 => true
    case L3(i) => q.i == i
    case L2(i, j) => q.i == i && q.j == j
    case L1(i, j, k) => q.i == i && q.j == j && q.k == k
  }

  function PageIndex(n: Node, q: Path): nat {
    match n
    case L4 => q.i
    case L3(_) => q.j
    case L2(_, _) => q.k
    case L1(_, _, _) => q.l
  }

  predicate TableUnder(n: Node, n': Node) {
    match n
    case L4 => !n'.L4? && n'.i < 256
    case L3(i) => (n'.L2? || n'.L1?) && n'.i == i
    case L2(i, j) => n'.L1? && n'.i == i && n'.j == j
    case L1(_, _, _) => false
  }

  function TableIndex(n: Node, n': Node): nat
    requires TableUnder(n, n')
  {
    match n
    case L4 => n'.i
    case L3(_) => n'.j
    case L2(_, _) => n'.k
  }

  /** The frames of pages and tables below `n` at entries before `limit`. */
  ghost function PagesBelow(g: Pages, n: Node, limit: nat): set<nat> {
    set q | q in g && PageUnder(n, q) && PageIndex(n, q) < limit :: g[q]
  }

  ghost function TablesBelow(t: Tables, n: Node, limit: nat): set<nat> {
    set n' | n' in t && TableUnder(n, n') && TableIndex(n, n') < limit :: t[n']
  }

  ghost function Below(t: Tables, g: Pages, n: Node, limit: nat): set<nat> {
    PagesBelow(g, n, limit) + TablesBelow(t, n, limit)
  }

  /** Everything below `n`, and `n` itself. */
  ghost function Whole(t: Tables, g: Pages, n: Node): set<nat>
    requires n in t
  {
    Below(t, g, n, 512) + {t[n]}
  }

  ghost function Part(t: Tables, g: Pages, n: Node, x: nat): set<nat>
    requires !n.L1?
  {
    if Kid(n, x) in t then Whole(t, g, Kid(n, x)) else {}
  }

  // ----- what lies below one entry -----

  lemma UnderKid(n: Node, x: nat, q: Path, n': Node)
    requires !n.L1? && x < 512 && (n.L4? ==> x < 256)
    ensures PageUnder(n, q) && PageIndex(n, q) == x <==> PageUnder(Kid(n, x), q)
    ensures TableUnder(n, n') && TableIndex(n, n') == x <==> n' == Kid(n, x) || TableUnder(Kid(n, x), n')
  {}

  lemma PagesStep(m: Mem, t: Tables, g: Pages, n: Node, x: nat)
    requires Owned(m, t, g) && !n.L1? && x < 512 && (n.L4? ==> x < 256)
    ensures PagesBelow(g, n, x + 1) == PagesBelow(g, n, x) + PagesBelow(g, Kid(n, x), 512)
    ensures Kid(n, x) !in t ==> PagesBelow(g, Kid(n, x), 512) == {}
  {
    hide Pte, FrameOf, Present, Wf, PageUnder, PageIndex;
    var c := Kid(n, x);
    forall q | q in g
      ensures PageUnder(n, q) && PageIndex(n, q) == x <==> PageUnder(c, q)
      ensures PageIndex(c, q) < 512 && (c !in t ==> !PageUnder(c, q))
    {
      UnderKid(n, x, q, L4);
      PageIndexBound(c, q);
      if PageUnder(c, q) { KidOfPage(m, t, g, n, x, q); }
    }
  }

  lemma PageIndexBound(n: Node, q: Path)
    requires InTables(q)
    ensures PageIndex(n, q) < 512
  {}

  lemma KidOfPage(m: Mem, t: Tables, g: Pages, n: Node, x: nat, q: Path)
    requires Owned(m, t, g) && q in g && !n.L1? && PageUnder(Kid(n, x), q)
    ensures Kid(n, x) in t
  {
    PageHasTables(m, t, g, q);
  }

  lemma TablesStep(m: Mem, t: Tables, n: Node, x: nat)
    requires Wf(m, t) && !n.L1? && x < 512 && (n.L4? ==> x < 256)
    ensures TablesBelow(t, n, x + 1) ==
            TablesBelow(t, n, x) + if Kid(n, x) in t then TablesBelow(t, Kid(n, x), 512) + {t[Kid(n, x)]} else {}
  {
    hide Linked, TableUnder;
    var c := Kid(n, x);
    forall n' | n' in t
      ensures TableUnder(n, n') && TableIndex(n, n') == x <==> n' == c || TableUnder(c, n')
      ensures TableUnder(c, n') ==> TableIndex(c, n') < 512 && c in t
    {
      UnderKid(n, x, Path(0, 0, 0, 0), n');
      if TableUnder(c, n') { TableHasParents(m, t, c, n'); }
    }
  }

  lemma TableHasParents(m: Mem, t: Tables, n: Node, n': Node)
    requires Wf(m, t) && n' in t && TableUnder(n, n')
    ensures n in t && TableIndex(n, n') < 512
  {
    assert Parent(n') in t;
    if n'.L1? { assert Parent(Parent(n')) in t; }
  }

  /** The frames below the first `x + 1` entries are those below the first `x`, and those of entry `x`. */
  lemma BelowStep(m: Mem, t: Tables, g: Pages, n: Node, x: nat)
    requires Owned(m, t, g) && !n.L1? && x < 512 && (n.L4? ==> x < 256)
    ensures Below(t, g, n, x + 1) == Below(t, g, n, x) + Part(t, g, n, x)
  {
    hide PagesBelow, TablesBelow, Owned;
    OwnedWf(m, t, g);
    PagesStep(m, t, g, n, x);
    TablesStep(m, t, n, x);
  }

  lemma OwnedWf(m: Mem, t: Tables, g: Pages)
    requires Owned(m, t, g)
    ensures Wf(m, t)
  {}

  /** No frame is counted twice. */
  lemma BelowDisjoint(m: Mem, t: Tables, g: Pages, n: Node, x: nat)
    requires Owned(m, t, g) && !n.L1? && x < 512 && (n.L4? ==> x < 256) && (n.L4? || n.i < 256)
    ensures Below(t, g, n, x) !! Part(t, g, n, x)
  {
    PagesApart(m, t, g, n, x);
    TablesApart(m, t, g, n, x);
    hide Owned, PagesBelow, TablesBelow, Part;
  }

  lemma PagesApart(m: Mem, t: Tables, g: Pages, n: Node, x: nat)
    requires Owned(m, t, g) && !n.L1? && x < 512 && (n.L4? ==> x < 256) && (n.L4? || n.i < 256)
    ensures PagesBelow(g, n, x) !! Part(t, g, n, x)
  {
    hide Pte, FrameOf, Present, Wf;
  }

  lemma TablesApart(m: Mem, t: Tables, g: Pages, n: Node, x: nat)
    requires Owned(m, t, g) && !n.L1? && x < 512 && (n.L4? ==> x < 256) && (n.L4? || n.i < 256)
    ensures TablesBelow(t, n, x) !! Part(t, g, n, x)
  {
    hide Pte, FrameOf, Present, Linked;
  }

  lemma PageHasTables(m: Mem, t: Tables, g: Pages, q: Path)
    requires Owned(m, t, g) && q in g
    ensures L1(q.i, q.j, q.k) in t && L2(q.i, q.j) in t && L3(q.i) in t
  {
    var l1, l2 := L1(q.i, q.j, q.k), L2(q.i, q.j);
    assert Parent(l1) == l2 && Parent(l2) == L3(q.i);
  }

  /** Entries of a bottom table. */
  lemma LeafStep(m: Mem, t: Tables, g: Pages, p: Path)
    requires Owned(m, t, g) && InTables(p) && p.i < 256
    ensures var n := L1(p.i, p.j, p.k);
            && Below(t, g, n, 0) == {}
            && Below(t, g, n, p.l + 1) == Below(t, g, n, p.l) + (if p in g then {g[p]} else {})
            && (p in g ==> g[p] !in Below(t, g, n, p.l))
  {
    hide Pte, FrameOf, Present, Linked;
    var n := L1(p.i, p.j, p.k);
    assert TablesBelow(t, n, p.l) == TablesBelow(t, n, p.l + 1) == {};
    assert PagesBelow(g, n, p.l + 1) == PagesBelow(g, n, p.l) + if p in g then {g[p]} else {} by {
      forall q | q in g && PageUnder(n, q) && PageIndex(n, q) == p.l ensures q == p {}
    }
  }

  lemma BelowNone(t: Tables, g: Pages, n: Node)
    ensures Below(t, g, n, 0) == {}
  {}

  lemma SelfApart(m: Mem, t: Tables, g: Pages, n: Node)
    requires Owned(m, t, g) && n in t && (n.L4? || n.i < 256)
    ensures t[n] !in Below(t, g, n, 512) && 0 < t[n] < |m|
  {
    hide Pte, FrameOf, Present, Linked;
  }

  method FreeFrame(v: Vmm, f: nat)
    requires v.Valid() && 0 < f < |v.mem| && f in v.pmm.Used()
    modifies v.pmm, v.pmm.bitmap
    ensures v.Valid() && v.pmm.Used() == old(v.pmm.Used()) - {f} && v.pmm.Total() == old(v.pmm.Total())
  {
    assert Run(f, 1) == {f};
    v.pmm.Free(f * 0x1000, 1);
  }

  method FreePt(v: Vmm, i: nat, j: nat, k: nat, pt: nat, ghost t: Tables, ghost g: Pages)
    requires v.Valid() && Owned(v.mem, t, g) && i < 256 && j < 512 && k < 512
    requires L1(i, j, k) in t && t[L1(i, j, k)] == pt && Whole(t, g, L1(i, j, k)) <= v.pmm.Used()
    modifies v.pmm, v.pmm.bitmap
    ensures v.Valid() && v.pmm.Total() == old(v.pmm.Total())
    ensures v.pmm.Used() == old(v.pmm.Used()) - Whole(t, g, L1(i, j, k))
  {
    hide Owned, Below, Wf, Pte, FrameOf, Present, BitAnd, Pmm.Used, Pmm.Total;
    ghost var n, u := L1(i, j, k), v.pmm.Used();
    OwnedWf(v.mem, t, g);
    BelowNone(t, g, n);
    SelfApart(v.mem, t, g, n);
    for l := 0 to 512
      invariant v.Valid() && v.pmm.Total() == old(v.pmm.Total())
      invariant v.pmm.Used() == u - Below(t, g, n, l)
    {
      var p := Path(i, j, k, l);
      LeafStep(v.mem, t, g, p);
      WholeParts(v.mem, t, g, p);
      var e := v.mem[pt][l];
      PresentMask(e);
      if BitAnd(e, 0x1) != 0 {
        AddrMask(e);
        FreeFrame(v, BitAnd(e, VMM_ADDR_MASK) / 0x1000);
      }
    }
    FreeFrame(v, pt);
  }

  lemma WholeParts(m: Mem, t: Tables, g: Pages, p: Path)
    requires Owned(m, t, g) && InTables(p) && p.i < 256 && L1(p.i, p.j, p.k) in t
    ensures t[L1(p.i, p.j, p.k)] < |m|
    ensures var e := m[t[L1(p.i, p.j, p.k)]][p.l];
            && (p in g <==> Present(e)) && (p in g ==> g[p] == FrameOf(e) && 0 < g[p] < |m|)
            && (p in g ==> g[p] in Whole(t, g, L1(p.i, p.j, p.k)))
  {
    hide FrameOf, Present, Linked;
  }

  /** What is left of the space after the first `x` entries of `n` are freed still includes entry `x`. */
  lemma Remaining(m: Mem, t: Tables, g: Pages, n: Node, x: nat, limit: nat, u: set<nat>)
    requires Owned(m, t, g) && !n.L1? && x < limit <= 512 && (n.L4? ==> limit == 256) && (n.L4? || n.i < 256)
    requires Below(t, g, n, limit) <= u
    ensures Part(t, g, n, x) <= u - Below(t, g, n, x)
    ensures u - Below(t, g, n, x) - Part(t, g, n, x) == u - Below(t, g, n, x + 1)
  {
    hide Owned, Below;
    BelowDisjoint(m, t, g, n, x);
    BelowStep(m, t, g, n, x);
    BelowGrows(t, g, n, x + 1, limit);
  }

  lemma BelowGrows(t: Tables, g: Pages, n: Node, x: nat, y: nat)
    requires x <= y
    ensures Below(t, g, n, x) <= Below(t, g, n, y)
  {}

  method FreePd(v: Vmm, i: nat, j: nat, pd: nat, ghost t: Tables, ghost g: Pages)
    requires v.Valid() && Owned(v.mem, t, g) && i < 256 && j < 512
    requires L2(i, j) in t && t[L2(i, j)] == pd && Whole(t, g, L2(i, j)) <= v.pmm.Used()
    modifies v.pmm, v.pmm.bitmap
    ensures v.Valid() && v.pmm.Total() == old(v.pmm.Total())
    ensures v.pmm.Used() == old(v.pmm.Used()) - Whole(t, g, L2(i, j))
  {
    hide Owned, Below, Linked, Present, Large, FrameOf, GetOrNull, BitAnd, Pmm.Used, Pmm.Total;
    ghost var n, u := L2(i, j), v.pmm.Used();
    OwnedWf(v.mem, t, g);
    BelowNone(t, g, n);
    SelfApart(v.mem, t, g, n);
    for k := 0 to 512
      invariant v.Valid() && v.pmm.Total() == old(v.pmm.Total())
      invariant v.pmm.Used() == u - Below(t, g, n, k)
    {
      Remaining(v.mem, t, g, n, k, 512, u);
      var e := v.mem[pd][k];
      LargeMask(e);
      LinkedHere(v.mem, t, n, k);
      if BitAnd(e, VMM_LARGE) == 0 {
        WalkStep(v.mem, t, n, k);
        var pt := GetOrNull(v.mem, pd, k);
        if pt.Some? { FreePt(v, i, j, k, pt.value, t, g); }
      } else {
        LargeNoTable(v.mem, t, i, j, k);
      }
    }
    FreeFrame(v, pd);
  }

  lemma LargeNoTable(m: Mem, t: Tables, i: nat, j: nat, k: nat)
    requires Wf(m, t) && L2(i, j) in t && k < 512 && Large(m[t[L2(i, j)]][k])
    ensures L1(i, j, k) !in t
  {
    assert Linked(m, t, L2(i, j), k);
  }

  method FreePdp(v: Vmm, i: nat, pdp: nat, ghost t: Tables, ghost g: Pages)
    requires v.Valid() && Owned(v.mem, t, g) && i < 256
    requires L3(i) in t && t[L3(i)] == pdp && Whole(t, g, L3(i)) <= v.pmm.Used()
    modifies v.pmm, v.pmm.bitmap
    ensures v.Valid() && v.pmm.Total() == old(v.pmm.Total())
    ensures v.pmm.Used() == old(v.pmm.Used()) - Whole(t, g, L3(i))
  {
    hide Owned, Below, Linked, Present, Large, FrameOf, GetOrNull, BitAnd, Pmm.Used, Pmm.Total;
    ghost var n, u := L3(i), v.pmm.Used();
    OwnedWf(v.mem, t, g);
    BelowNone(t, g, n);
    SelfApart(v.mem, t, g, n);
    for j := 0 to 512
      invariant v.Valid() && v.pmm.Total() == old(v.pmm.Total())
      invariant v.pmm.Used() == u - Below(t, g, n, j)
    {
      Remaining(v.mem, t, g, n, j, 512, u);
      WalkStep(v.mem, t, n, j);
      var pd := GetOrNull(v.mem, pdp, j);
      if pd.Some? { FreePd(v, i, j, pd.value, t, g); }
    }
    FreeFrame(v, pdp);
  }

  // ----- 2 MiB leaves -----

  /** Frame `f` belongs to a lower-half 2 MiB leaf, which stands for 512 frames. */
  ghost predicate UnderLarge(m: Mem, t: Tables, f: nat)
    requires Wf(m, t)
  {
    exists q ::
      && InTables(q) && q.i < 256 && Pde(m, t, q) != 0
      && FrameOf(Pde(m, t, q)) <= f < FrameOf(Pde(m, t, q)) + 512
  }

  ghost function LargeFrames(m: Mem, t: Tables): set<nat>
    requires Wf(m, t)
  {
    set f: nat | f < |m| && UnderLarge(m, t, f)
  }

  /** All frames of a space: pages, tables, root, `pt_t`, and the runs of its 2 MiB leaves. */
  ghost function SpaceFrames(m: Mem, t: Tables, g: Pages, header: nat): set<nat>
    requires Wf(m, t)
  {
    Frames(t, g, header) + LargeFrames(m, t)
  }

  /** The runs of the lower-half 2 MiB leaves are allocated, and apart from everything else of the space. */
  ghost predicate OwnsLarge(m: Mem, t: Tables, g: Pages, header: nat, used: set<nat>)
    requires Wf(m, t)
  {
    forall q :: InTables(q) && q.i < 256 && Pde(m, t, q) != 0 ==>
      var run := Run(FrameOf(Pde(m, t, q)), 512);
      FrameOf(Pde(m, t, q)) + 512 <= |m| && run <= used && run !! Frames(t, g, header)
  }

  /** Of all frames of the space, exactly those of 2 MiB leaves are still in use; so everything came back
      if and only if there is no such leaf. */
  ghost predicate OnlyLargeLeft(m: Mem, t: Tables, g: Pages, header: nat, used: set<nat>)
    requires Wf(m, t)
  {
    && SpaceFrames(m, t, g, header) * used == LargeFrames(m, t)
    && (SpaceFrames(m, t, g, header) !! used <==> !HasLarge(m, t))
  }

  lemma TeardownLeaks(m: Mem, t: Tables, g: Pages, header: nat, used: set<nat>)
    requires Owned(m, t, g) && OwnsLarge(m, t, g, header, used)
    ensures OnlyLargeLeft(m, t, g, header, used - Frames(t, g, header))
  {
    hide FrameOf, Pde, Wf, Frames, Present, Pte;
    var left := SpaceFrames(m, t, g, header) * (used - Frames(t, g, header));
    forall f | f in LargeFrames(m, t) ensures f in left {
      var q :| && InTables(q) && q.i < 256 && Pde(m, t, q) != 0
               && FrameOf(Pde(m, t, q)) <= f < FrameOf(Pde(m, t, q)) + 512;
      assert f in Run(FrameOf(Pde(m, t, q)), 512);
    }
    if HasLarge(m, t) {
      var q :| InTables(q) && q.i < 256 && Pde(m, t, q) != 0;
      assert UnderLarge(m, t, FrameOf(Pde(m, t, q)));
      assert FrameOf(Pde(m, t, q)) in LargeFrames(m, t);
    }
  }

  /** The loops of `vmm_free_pml4`: everything below the lower half of the root. */
  method FreeLower(v: Vmm, root: nat, ghost t: Tables, ghost g: Pages)
    requires v.Valid() && Owned(v.mem, t, g) && t[L4] == root && Below(t, g, L4, 256) <= v.pmm.Used()
    modifies v.pmm, v.pmm.bitmap
    ensures v.Valid() && v.pmm.Total() == old(v.pmm.Total())
    ensures v.pmm.Used() == old(v.pmm.Used()) - Below(t, g, L4, 256)
  {
    hide Owned, Below, Linked, Present, Large, FrameOf, GetOrNull, BitAnd, Pmm.Used, Pmm.Total;
    ghost var u := v.pmm.Used();
    OwnedWf(v.mem, t, g);
    BelowNone(t, g, L4);
    for i := 0 to 256
      invariant v.Valid() && v.pmm.Total() == old(v.pmm.Total())
      invariant v.pmm.Used() == u - Below(t, g, L4, i)
    {
      Remaining(v.mem, t, g, L4, i, 256, u);
      WalkStep(v.mem, t, L4, i);
      var pdp := GetOrNull(v.mem, root, i);
      if pdp.Some? { FreePdp(v, i, pdp.value, t, g); }
    }
  }

  /** `vmm_free_pml4`: the lower-half pages and tables, the root and the two frames of the `pt_t` are
      freed, each once. Of the frames of the space, those of 2 MiB leaves stay allocated, and only those. */
  method FreePml4(v: Vmm, header: nat, root: nat, ghost t: Tables, ghost g: Pages)
    requires v.Valid() && Owned(v.mem, t, g) && t[L4] == root
    requires 0 < header && HoldsPt(v.mem, header, root)
    requires Frames(t, g, header) <= v.pmm.Used() && Run(header, 2) !! LowerTables(t).Values + g.Values
    modifies v.pmm, v.pmm.bitmap
    ensures v.Valid() && v.pmm.Total() == old(v.pmm.Total())
    ensures v.pmm.Used() == old(v.pmm.Used()) - Frames(t, g, header)
    ensures old(OwnsLarge(v.mem, t, g, header, v.pmm.Used())) ==> OnlyLargeLeft(v.mem, t, g, header, v.pmm.Used())
  {
    hide Owned, Below, Wf, LowerTables, Run, Pmm.Used, Pmm.Total, OwnsLarge, OnlyLargeLeft;
    ghost var u := v.pmm.Used();
    OwnedWf(v.mem, t, g);
    SelfApart(v.mem, t, g, L4);
    AllBelowRoot(v.mem, t, g);
    if OwnsLarge(v.mem, t, g, header, u) { TeardownLeaks(v.mem, t, g, header, u); }
    FreeLower(v, root, t, g);
    FreeFrame(v, root);
    // kfree: the header page says how many pages follow it
    v.pmm.Free(header * 0x1000, v.mem[header][0] + 1);
    assert v.pmm.Used() == u - Frames(t, g, header);
  }

  /** Below the root, up to entry 256, lie exactly the lower-half tables and pages. */
  lemma AllBelowRoot(m: Mem, t: Tables, g: Pages)
    requires Owned(m, t, g)
    ensures Below(t, g, L4, 256) + {t[L4]} == LowerTables(t).Values + g.Values
    ensures t[L4] !in Below(t, g, L4, 256)
  {
    hide Pte, Present, FrameOf, Linked;
    var low := LowerTables(t);
    assert PagesBelow(g, L4, 256) == g.Values;
    forall f | f in low.Values ensures f in TablesBelow(t, L4, 256) + {t[L4]} {
      var n :| n in low && low[n] == f;
    }
    forall f | f in TablesBelow(t, L4, 256) ensures f in low.Values {
      var n :| n in t && TableUnder(L4, n) && t[n] == f;
      assert low[n] == f;
    }
    assert low[L4] == t[L4];
  }

  /** A finished copy owns its frames, when frame 0 was in use before. */
  lemma ForkedOwned(m0: Mem, ts: Tables, u0: set<nat>, m: Mem, t: Tables, g: Pages)
    requires Forked(m0, ts, u0, m, t, g) && 0 in u0
    ensures Owned(m, t, g)
  {
    hide FrameOf, FlagsOf, Present, Pte, Pde, InTables, Wf, Source;
    forall n | n in t ensures t[n] in t.Values {}
  }

  lemma SameBits(a: seq<bool>, b: seq<bool>)
    requires |a| == |b| && UsedIn(a) == UsedIn(b)
    ensures a == b
  {
    forall i | 0 <= i < |a| ensures a[i] == b[i] {
      assert i in UsedIn(a) <==> i in UsedIn(b);
    }
  }

  /** Fork, then exit: the bitmap and the count of free pages are as before, bit for bit. */
  method ForkThenFree(v: Vmm, root: nat, ghost ts: Tables) returns (r: CopyResult)
    requires v.Valid() && Source(v.mem, ts, v.pmm.Used()) && ts[L4] == root
    modifies v`mem, v.pmm, v.pmm.bitmap
    ensures v.Valid() && (r.NoMemory? ==> NoPool(v))
    ensures if HasLarge(old(v.mem), ts) then !r.Success? else !r.LargePage?
    ensures r.Success? ==> v.pmm.bitmap[..] == old(v.pmm.bitmap[..]) && v.pmm.freePages == old(v.pmm.freePages)
    ensures r.Success? ==> forall f :: f in old(v.pmm.Used()) ==> f < |v.mem| && v.mem[f] == old(v.mem)[f]
  {
    hide Source, Owned, Forked, HoldsPt, Frames, LowerTables, Wf, Run;
    var header, newRoot;
    ghost var t, g;
    ghost var u0, m0 := v.pmm.Used(), v.mem;
    r, header, newRoot, t, g := CopyPml4(v, root, ts);
    if !r.Success? { return; }
    assert 0 in u0;
    ForkedOwned(m0, ts, u0, v.mem, t, g);
    ForkedKeeps(m0, ts, u0, v.mem, t, g);
    HeaderFrames(t, g, header);
    FreePml4(v, header, newRoot, t, g);
    assert v.pmm.Used() == u0;
    SameBits(v.pmm.bitmap[..], old(v.pmm.bitmap[..]));
  }

  lemma HeaderFrames(t: Tables, g: Pages, header: nat)
    ensures Run(header, 2) <= Frames(t, g, header) && header in Frames(t, g, header)
  {
    hide Run;
    assert header in Run(header, 2);
  }

  lemma ForkedKeeps(m0: Mem, ts: Tables, u0: set<nat>, m: Mem, t: Tables, g: Pages)
    requires Forked(m0, ts, u0, m, t, g)
    ensures Wf(m, t) && forall f :: f in u0 ==> f < |m| && m[f] == m0[f]
  {}

  // ----- isolation -----

  /** A store through a mapped page of an address space: page, word index, value. */
  datatype Store = Store(page: Path, index: nat, value: Word)

  /** Stores through the pages of `frames`; a store to another page changes nothing. */
  ghost function Stores(m: Mem, frames: Pages, ops: seq<Store>): (r: Mem)
    ensures |r| == |m|
  {
    if ops == [] then m
    else
      var op := ops[|ops| - 1];
      var r := Stores(m, frames, ops[..|ops| - 1]);
      if op.page in frames && frames[op.page] < |m| && op.index < 512
      then Put(r, frames[op.page], op.index, op.value) else r
  }

  lemma {:induction false} StoresLocal(m: Mem, frames: Pages, ops: seq<Store>, f: nat)
    requires f < |m| && f !in frames.Values
    ensures Stores(m, frames, ops)[f] == m[f]
  {
    if ops != [] {
      StoresLocal(m, frames, ops[..|ops| - 1], f);
      var op := ops[|ops| - 1];
      if op.page in frames { assert frames[op.page] in frames.Values; }
    }
  }

  /** The frames of the lower-half pages of the source. */
  ghost predicate SourcePages(m0: Mem, ts: Tables, gs: Pages)
    requires Wf(m0, ts)
  {
    && (forall q :: q in gs <==> InTables(q) && q.i < 256 && Present(Pte(m0, ts, q)))
    && (forall q :: q in gs ==> gs[q] == FrameOf(Pte(m0, ts, q)))
  }

  /** Whatever is stored through the lower half of the copy, the source keeps its mapping and the
      contents of every page. */
  lemma StoresInCopyInvisible(m0: Mem, ts: Tables, u0: set<nat>, m: Mem, t: Tables, g: Pages, gs: Pages,
                              ops: seq<Store>)
    requires Forked(m0, ts, u0, m, t, g) && SourcePages(m0, ts, gs)
    ensures var m' := Stores(m, g, ops);
            && Wf(m', ts) && SameView(m0, ts, m', ts)
            && forall q :: q in gs ==> gs[q] < |m'| && m'[gs[q]] == m0[gs[q]]
  {
    hide FrameOf, FlagsOf, Present, Linked, Pte, Pde, Put;
    var m' := Stores(m, g, ops);
    forall f | f in u0 ensures f < |m'| && m'[f] == m0[f] {
      assert f !in g.Values;
      StoresLocal(m, g, ops, f);
    }
    forall n | n in ts ensures ts[n] in ts.Values {}
    Stable(m0, m', ts);
  }

  /** Whatever is stored through the lower half of the source, the copy keeps its mapping and the contents
      of every page, provided no page of the source is itself one of its tables. */
  lemma StoresInSourceInvisible(m0: Mem, ts: Tables, u0: set<nat>, m: Mem, t: Tables, g: Pages, gs: Pages,
                                ops: seq<Store>)
    requires Forked(m0, ts, u0, m, t, g) && SourcePages(m0, ts, gs) && gs.Values !! ts.Values
    ensures var m' := Stores(m, gs, ops);
            && Wf(m', t) && SameView(m, t, m', t)
            && forall q :: q in g ==> m'[g[q]] == m[g[q]]
  {
    hide FrameOf, FlagsOf, Present, Linked, Pte, Pde, Put;
    var m' := Stores(m, gs, ops);
    assert gs.Values <= u0;
    forall n | n in t ensures m'[t[n]] == m[t[n]] {
      if !n.L4? && n.i >= 256 { assert ts[n] in ts.Values; }
      StoresLocal(m, gs, ops, t[n]);
    }
    forall q | q in g ensures m'[g[q]] == m[g[q]] { StoresLocal(m, gs, ops, g[q]); }
    Stable(m, m', t);
  }

  // ----- stores on both sides -----

  /** A store through the lower half of the source, or of the copy. */
  datatype Either = InSource(store: Store) | InCopy(store: Store)

  /** Memory after stores through both lower halves, in the order given. */
  ghost function Mixed(m: Mem, gs: Pages, g: Pages, ops: seq<Either>): (r: Mem)
    ensures |r| == |m|
  {
    if ops == [] then m
    else
      var op := ops[|ops| - 1];
      Stores(Mixed(m, gs, g, ops[..|ops| - 1]), if op.InSource? then gs else g, [op.store])
  }

  /** The stores of one side, in order. */
  ghost function Own(ops: seq<Either>, source: bool): seq<Store> {
    if ops == [] then []
    else
      var op := ops[|ops| - 1];
      Own(ops[..|ops| - 1], source) + if op.InSource? == source then [op.store] else []
  }

  lemma StoreLast(m: Mem, frames: Pages, ops: seq<Store>, op: Store)
    ensures Stores(m, frames, ops + [op]) == Stores(Stores(m, frames, ops), frames, [op])
  {
    assert (ops + [op])[..|ops|] == ops && [op][..0] == [];
    var r := Stores(m, frames, ops);
    assert Stores(r, frames, []) == r;
  }

  /** What a store leaves in a frame depends on that frame alone. */
  lemma StoreSame(m: Mem, m': Mem, frames: Pages, op: Store, f: nat)
    requires |m'| == |m| && f < |m| && m'[f] == m[f]
    ensures Stores(m', frames, [op])[f] == Stores(m, frames, [op])[f]
  {
    assert [op][..0] == [] && Stores(m, frames, []) == m && Stores(m', frames, []) == m';
  }

  lemma {:induction false} StoresSame(m: Mem, m': Mem, frames: Pages, ops: seq<Store>, f: nat)
    requires |m'| == |m| && f < |m| && m'[f] == m[f]
    ensures Stores(m', frames, ops)[f] == Stores(m, frames, ops)[f]
  {
    if ops != [] {
      var front, op := ops[..|ops| - 1], ops[|ops| - 1];
      assert ops == front + [op];
      StoresSame(m, m', frames, front, f);
      StoreLast(m, frames, front, op);
      StoreLast(m', frames, front, op);
      StoreSame(Stores(m, frames, front), Stores(m', frames, front), frames, op, f);
    }
  }

  /** A frame that one side cannot reach holds what the other side's stores leave in it. */
  lemma {:induction false} MixedAt(m: Mem, gs: Pages, g: Pages, ops: seq<Either>, f: nat)
    requires f < |m|
    ensures f !in g.Values ==> Mixed(m, gs, g, ops)[f] == Stores(m, gs, Own(ops, true))[f]
    ensures f !in gs.Values ==> Mixed(m, gs, g, ops)[f] == Stores(m, g, Own(ops, false))[f]
  {
    if ops != [] {
      var front, op := ops[..|ops| - 1], ops[|ops| - 1];
      var r, source := Mixed(m, gs, g, front), Own(front, true);
      var copy := Own(front, false);
      MixedAt(m, gs, g, front, f);
      assert source + [] == source && copy + [] == copy;
      hide Stores, Mixed;
      if op.InSource? {
        StoreLast(m, gs, source, op.store);
        if f !in g.Values { StoreSame(Stores(m, gs, source), r, gs, op.store, f); }
        if f !in gs.Values { StoresLocal(r, gs, [op.store], f); }
      } else {
        StoreLast(m, g, copy, op.store);
        if f !in gs.Values { StoreSame(Stores(m, g, copy), r, g, op.store, f); }
        if f !in g.Values { StoresLocal(r, g, [op.store], f); }
      }
    }
  }

  /** After a fork, whatever both sides store and in whatever order, each side keeps its mapping and reads the
      contents at the fork under its own stores, provided no page of the source is itself one of its tables. */
  lemma SidesIndependent(m0: Mem, ts: Tables, u0: set<nat>, m: Mem, t: Tables, g: Pages, gs: Pages,
                         ops: seq<Either>)
    requires Forked(m0, ts, u0, m, t, g) && SourcePages(m0, ts, gs) && gs.Values !! ts.Values
    ensures var m' := Mixed(m, gs, g, ops);
            && Wf(m', ts) && SameView(m0, ts, m', ts) && Wf(m', t) && SameView(m, t, m', t)
            && (forall q :: q in gs ==> gs[q] < |m0| && m'[gs[q]] == Stores(m0, gs, Own(ops, true))[gs[q]])
            && (forall q :: q in g ==> g[q] < |m| && m'[g[q]] == Stores(m, g, Own(ops, false))[g[q]])
  {
    hide FrameOf, FlagsOf, Present, Linked, Pte, Pde, Stores, Mixed, Own;
    var m' := Mixed(m, gs, g, ops);
    assert gs.Values <= u0;
    assert g.Values !! u0;
    forall f | f in u0 ensures f < |m'| && m'[f] == Stores(m0, gs, Own(ops, true))[f] {
      MixedAt(m, gs, g, ops, f);
      StoresSame(m0, m, gs, Own(ops, true), f);
    }
    forall q | q in g ensures m'[g[q]] == Stores(m, g, Own(ops, false))[g[q]] {
      assert g[q] in g.Values;
      MixedAt(m, gs, g, ops, g[q]);
    }
    forall n | n in ts ensures m'[ts[n]] == m0[ts[n]] {
      assert ts[n] in ts.Values;
      StoresLocal(m0, gs, Own(ops, true), ts[n]);
    }
    forall n | n in t ensures m'[t[n]] == m[t[n]] {
      assert t[n] in t.Values;
      if !n.L4? && n.i >= 256 { assert ts[n] in ts.Values; }
      MixedAt(m, gs, g, ops, t[n]);
      StoresLocal(m, g, Own(ops, false), t[n]);
    }
    Stable(m0, m', ts);
    Stable(m, m', t);
  }
}
