/** Mapping, unmapping and translation of kernel/mem/vmm.c over physical memory
    and the frame allocator. A table pointer is the number of the frame it
    points to; the byte address is that number times PAGE_SIZE. */
module AddressSpaces {
  import opened Bits
  import opened FrameAllocator
  import opened PageEntries
  import opened PageTables

  /** The tables on the way to a page, below the root. */
  ghost function Spine(p: Path): set<Node> {
    {L3(p.i), L2(p.i, p.j), L1(p.i, p.j, p.k)}
  }

  /** The tree `t` grew to `t'` by linking newly allocated frames at nodes of `nodes`;
      nothing outside the tree was written. */
  ghost predicate Extends(m: Mem, t: Tables, used: set<nat>, m': Mem, t': Tables, used': set<nat>, nodes: set<Node>) {
    && |m'| == |m|
    && t.Keys <= t'.Keys <= t.Keys + nodes
    && (forall n :: n in t ==> t'[n] == t[n])
    && (forall n :: n in t' && n !in t ==> t'[n] !in used)
    && used' == used + t'.Values
    && (forall f :: 0 <= f < |m| && f !in t'.Values ==> m'[f] == m[f])
  }

  /** `Extends` with a well-formed tree before and after, and the same flat view. */
  ghost predicate Grew(m: Mem, t: Tables, used: set<nat>, m': Mem, t': Tables, used': set<nat>, nodes: set<Node>) {
    && Wf(m, t) && t.Values <= used && Wf(m', t')
    && SameView(m, t, m', t')
    && Extends(m, t, used, m', t', used', nodes)
  }

  lemma ExtendsTwice(m: Mem, t: Tables, u: set<nat>, m1: Mem, t1: Tables, u1: set<nat>,
                     m2: Mem, t2: Tables, u2: set<nat>, nodes: set<Node>, nodes': set<Node>)
    requires Extends(m, t, u, m1, t1, u1, nodes) && Extends(m1, t1, u1, m2, t2, u2, nodes')
    ensures Extends(m, t, u, m2, t2, u2, nodes + nodes')
  {
    assert t1.Values <= t2.Values by {
      forall f | f in t1.Values ensures f in t2.Values {
        var n :| n in t1 && t1[n] == f;
        assert t2[n] == f;
      }
    }
  }

  lemma GrewTwice(m: Mem, t: Tables, u: set<nat>, m1: Mem, t1: Tables, u1: set<nat>,
                  m2: Mem, t2: Tables, u2: set<nat>, nodes: set<Node>, nodes': set<Node>)
    requires Grew(m, t, u, m1, t1, u1, nodes) && Grew(m1, t1, u1, m2, t2, u2, nodes')
    ensures Grew(m, t, u, m2, t2, u2, nodes + nodes')
  {
    ExtendsTwice(m, t, u, m1, t1, u1, m2, t2, u2, nodes, nodes');
  }

  lemma GrewNone(m: Mem, t: Tables, u: set<nat>, nodes: set<Node>)
    requires Wf(m, t) && t.Values <= u
    ensures Grew(m, t, u, m, t, u, nodes)
  {
    assert u + t.Values == u;
  }

  /** Linking the newly allocated, zeroed frame `c` below node `n`. */
  lemma LinkFresh(m: Mem, t: Tables, used: set<nat>, m1: Mem, n: Node, x: nat, c: nat)
    requires Wf(m, t) && t.Values <= used && |m| <= FRAMES
    requires n in t && !n.L1? && x < 512 && !Present(m[t[n]][x])
    requires c < |m| && c !in used && |m1| == |m|
    requires forall f :: 0 <= f < |m| ==> m1[f] == if c <= f < c + 1 then ZERO else m[f]
    ensures Grew(m, t, used, Put(m1, t[n], x, c * 0x1000 + 7), t[Kid(n, x) := c], used + Run(c, 1), {Kid(n, x)})
  {
    hide FrameOf, Present, Large, Pte, Pde, Extends;
    LinkedHere(m, t, n, x);
    Stable(m, m1, t);
    TableWordFields(c);
    AddTable(m1, t, n, x, c, c * 0x1000 + 7);
    LinkFreshExtends(m, t, used, m1, n, x, c);
  }

  lemma LinkedHere(m: Mem, t: Tables, n: Node, x: nat)
    requires Wf(m, t) && n in t && !n.L1? && x < 512
    ensures t[n] in t.Values && Linked(m, t, n, x)
  {}

  lemma LinkFreshExtends(m: Mem, t: Tables, used: set<nat>, m1: Mem, n: Node, x: nat, c: nat)
    requires t.Values <= used && |m1| == |m|
    requires n in t && t[n] < |m| && !n.L1? && x < 512 && Kid(n, x) !in t
    requires c < |m| <= FRAMES && c !in used
    requires forall f :: 0 <= f < |m| ==> m1[f] == if c <= f < c + 1 then ZERO else m[f]
    ensures Extends(m, t, used, Put(m1, t[n], x, c * 0x1000 + 7), t[Kid(n, x) := c], used + Run(c, 1), {Kid(n, x)})
  {
    hide Kid;
    var t' := t[Kid(n, x) := c];
    assert t'[Kid(n, x)] == c && c in t'.Values;
    assert t'.Values <= t.Values + {c};
    assert t'[n] == t[n] && t[n] in t'.Values;
    assert used + Run(c, 1) == used + t'.Values;
  }

  /** Entry `x` of the table in frame `f` links the table in frame `c`: present, writable, open to the user. */
  ghost predicate OpenLink(m: Mem, f: nat, x: nat, c: nat) { f < |m| && x < 512 && m[f][x] == c * 0x1000 + 7 }

  lemma GrewIsSpace(m: Mem, t: Tables, u: set<nat>, m': Mem, t': Tables, u': set<nat>, nodes: set<Node>)
    requires Grew(m, t, u, m', t', u', nodes)
    ensures Wf(m', t') && t'.Values <= u' && t'[L4] == t[L4] && |m'| == |m|
    ensures forall n :: n in t ==> n in t' && t'[n] == t[n]
    ensures forall n :: n in t' ==> t'[n] < |m'|
  {}

  lemma GrewNotLarge(m: Mem, t: Tables, u: set<nat>, m': Mem, t': Tables, u': set<nat>, nodes: set<Node>, p: Path)
    requires Grew(m, t, u, m', t', u', nodes) && InTables(p) && L2(p.i, p.j) in t' && Pde(m, t, p) == 0
    ensures Wf(m', t') && t'.Values <= u' && t'[L4] == t[L4] && !Large(m'[t'[L2(p.i, p.j)]][p.k])
  {
    assert Pde(m', t', p) == 0;
  }

  /** Pages `base`, ..., `base + n - 1` are mapped to consecutive frames from `phys`
      with the given permissions; every other word of the flat view is as before. */
  ghost predicate SmallMapped(m: Mem, t: Tables, m': Mem, t': Tables, base: nat, n: nat, phys: nat, permissions: Word) {
    && Wf(m, t) && Wf(m', t')
    && forall q :: InTables(q) ==>
         && Pde(m', t', q) == Pde(m, t, q)
         && Pte(m', t', q) == if base <= PageAt(q) < base + n
                              then LeafWord(phys + (PageAt(q) - base) * 0x1000, permissions, VMM_PRESENT)
                              else Pte(m, t, q)
  }

  /** Storing the leaf word into the bottom table the walk has reached. */
  lemma StoreLeaf(m: Mem, t: Tables, u: set<nat>, m1: Mem, t1: Tables, u1: set<nat>, p: Path, phys: nat,
                  permissions: Word)
    requires Grew(m, t, u, m1, t1, u1, Spine(p)) && InTables(p) && L1(p.i, p.j, p.k) in t1
    requires LeafWord(phys, permissions, VMM_PRESENT) < TWO64
    ensures var m' := Put(m1, t1[L1(p.i, p.j, p.k)], p.l, LeafWord(phys, permissions, VMM_PRESENT));
            && Wf(m', t1) && t1.Values <= u1 && t1[L4] == t[L4]
            && SmallMapped(m, t, m', t1, PageAt(p), 1, phys, permissions)
            && Extends(m, t, u, m', t1, u1, Spine(p))
  {
    hide LeafWord, Pde, Pte, PageAt;
    SetLeaf(m1, t1, p, LeafWord(phys, permissions, VMM_PRESENT));
    var m' := Put(m1, t1[L1(p.i, p.j, p.k)], p.l, LeafWord(phys, permissions, VMM_PRESENT));
    forall q | InTables(q) ensures PageAt(p) <= PageAt(q) < PageAt(p) + 1 <==> q == p {
      PathOfPage(p);
      PathOfPage(q);
    }
    assert t1[L1(p.i, p.j, p.k)] in t1.Values;
  }

  /** The same for 2 MiB pages, numbered by region; they replace what covered their region. */
  ghost predicate LargeMapped(m: Mem, t: Tables, m': Mem, t': Tables, base: nat, n: nat, phys: nat, permissions: Word) {
    && Wf(m, t) && Wf(m', t')
    && forall q :: InTables(q) ==>
         && Pde(m', t', q) == (if base <= RegionAt(q) < base + n
                               then LargeWord(phys + (RegionAt(q) - base) * 0x20_0000, permissions)
                               else Pde(m, t, q))
         && Pte(m', t', q) == if base <= RegionAt(q) < base + n then 0 else Pte(m, t, q)
  }

  ghost predicate Mapped(huge: bool, m: Mem, t: Tables, m': Mem, t': Tables, base: nat, n: nat, phys: nat,
                         permissions: Word) {
    if huge then LargeMapped(m, t, m', t', base, n, phys, permissions)
    else SmallMapped(m, t, m', t', base, n, phys, permissions)
  }

  /** Only table frames, old or newly allocated, were written. */
  ghost predicate Kept(m: Mem, t: Tables, used: set<nat>, m': Mem, t': Tables, used': set<nat>) {
    && |m'| == |m| && used <= used'
    && t'.Values <= t.Values + (used' - used)
    && forall f :: 0 <= f < |m| && f !in t.Values && (f in used || f !in used') ==> m'[f] == m[f]
  }

  lemma StoreLarge(m: Mem, t: Tables, u: set<nat>, m1: Mem, t1: Tables, u1: set<nat>, p: Path, phys: nat,
                   permissions: Word)
    requires Grew(m, t, u, m1, t1, u1, {L3(p.i), L2(p.i, p.j)}) && InTables(p) && L2(p.i, p.j) in t1
    requires var e := LargeWord(phys, permissions); e < TWO64 && Present(e) && Large(e)
    ensures var m', t' := Put(m1, t1[L2(p.i, p.j)], p.k, LargeWord(phys, permissions)), t1 - {L1(p.i, p.j, p.k)};
            && Wf(m', t') && t'.Values <= u1 && t'[L4] == t[L4]
            && LargeMapped(m, t, m', t', PageAt(p) / 512, 1, phys, permissions)
            && Kept(m, t, u, m', t', u1)
  {
    hide LargeWord, Pde, Pte, Kept, Extends, Wf, SameView, LargeMapped, SameLarge;
    var e, n, t' := LargeWord(phys, permissions), L2(p.i, p.j), t1 - {L1(p.i, p.j, p.k)};
    GrewIsSpace(m, t, u, m1, t1, u1, {L3(p.i), n});
    SetLarge(m1, t1, p, e);
    LargeView(m, t, m1, t1, Put(m1, t1[n], p.k, e), t', p, phys, permissions);
    StoreKept(m, t, u, m1, t1, u1, {L3(p.i), n}, n, p.k, e, t');
  }

  lemma LargeView(m: Mem, t: Tables, m1: Mem, t1: Tables, m': Mem, t': Tables, p: Path, phys: nat, permissions: Word)
    requires Wf(m, t) && Wf(m1, t1) && Wf(m', t') && SameView(m, t, m1, t1) && InTables(p)
    requires forall q :: InTables(q) ==>
               && Pte(m', t', q) == (if SameLarge(p, q) then 0 else Pte(m1, t1, q))
               && Pde(m', t', q) == (if SameLarge(p, q) then LargeWord(phys, permissions) else Pde(m1, t1, q))
    ensures LargeMapped(m, t, m', t', PageAt(p) / 512, 1, phys, permissions)
  {
    hide LargeWord, Pde, Pte, RegionAt, Wf, SameLarge, InTables;
    forall q | InTables(q) ensures RegionAt(p) <= RegionAt(q) < RegionAt(p) + 1 <==> SameLarge(p, q) {
      SameRegion(p, q);
    }
    SameRegion(p, p);
  }

  lemma StoreKept(m: Mem, t: Tables, u: set<nat>, m1: Mem, t1: Tables, u1: set<nat>, nodes: set<Node>,
                  n: Node, x: nat, e: Word, t': Tables)
    requires t.Values <= u && Extends(m, t, u, m1, t1, u1, nodes)
    requires n in t1 && t1[n] < |m1| && x < 512
    requires t'.Keys <= t1.Keys && forall n :: n in t' ==> t'[n] == t1[n]
    ensures t'.Values <= u1 && Kept(m, t, u, Put(m1, t1[n], x, e), t', u1)
  {
    forall n | n in t1 ensures t1[n] in t.Values + (u1 - u) {
      assert t1[n] in t1.Values;
      if n in t { assert t[n] in t.Values; }
    }
  }

  lemma SameRegion(p: Path, q: Path)
    requires InTables(p) && InTables(q)
    ensures RegionAt(p) == RegionAt(q) <==> SameLarge(p, q)
    ensures PageAt(p) / 512 == RegionAt(p)
  {}

  lemma KeptTwice(m: Mem, t: Tables, u: set<nat>, m1: Mem, t1: Tables, u1: set<nat>, m2: Mem, t2: Tables, u2: set<nat>)
    requires Kept(m, t, u, m1, t1, u1) && Kept(m1, t1, u1, m2, t2, u2)
    ensures Kept(m, t, u, m2, t2, u2)
  {}

  // ----- ranges of pages -----

  /** The page or region number where a mapping starts, and how many there are. */
  function Base(addr: Word, huge: bool): nat { if huge then PageOf(addr) / 512 else PageOf(addr) }

  function Limit(huge: bool): nat { if huge then PAGES / 512 else PAGES }

  function PageStep(huge: bool): nat { if huge then 0x20_0000 else 0x1000 }

  /** The range stays inside the 48-bit space and its frames inside the address field. */
  ghost predicate InRange(addr: Word, phys: nat, size: nat, huge: bool) {
    && phys % 0x1000 == 0 && phys + size * PageStep(huge) <= FRAMES * 0x1000
    && Base(addr, huge) + size <= Limit(huge)
  }

  lemma StepInRange(addr: Word, phys: nat, size: nat, huge: bool, n: nat)
    requires InRange(addr, phys, size, huge) && n < size
    ensures (Base(addr, huge) + n) % Limit(huge) == Base(addr, huge) + n < Limit(huge)
    ensures var f := phys + n * PageStep(huge); f % 0x1000 == 0 && f / 0x1000 < FRAMES
  {
    hide PageOf;
    SmallMod(Base(addr, huge) + n, Limit(huge));
    if huge { FrameStep(phys, n, 512); } else { FrameStep(phys, n, 1); }
  }

  lemma FrameStep(phys: nat, n: nat, k: nat)
    requires phys % 0x1000 == 0 && (k == 1 || k == 512) && phys + n * (k * 0x1000) < FRAMES * 0x1000
    ensures var f := phys + n * (k * 0x1000); f % 0x1000 == 0 && f / 0x1000 < FRAMES
  {
    assert phys + n * (k * 0x1000) == (phys / 0x1000 + n * k) * 0x1000;
  }

  lemma NextBase(a: Word, huge: bool)
    ensures Base((a + PageStep(huge)) % TWO64, huge) == (Base(a, huge) + 1) % Limit(huge)
  {
    NextPage(a, PageStep(huge) / 0x1000);
    if huge { NextRegion(PageOf(a)); }
  }

  lemma NextPage(a: Word, n: nat)
    requires n <= 512
    ensures PageOf((a + n * 0x1000) % TWO64) == (PageOf(a) + n) % PAGES
  {
    var x, r, c := a / 0x1000, a % 0x1000, a + n * 0x1000;
    WrappedSum(x, n);
    if c < TWO64 {
      SmallMod(c, TWO64);
      Quotient(c, x + n, r, 0x1000);
    } else {
      Quotient(c, 1, c - TWO64, TWO64);
      Quotient(c - TWO64, x + n - 0x1_0000 * PAGES, r, 0x1000);
      WholeTurns(x + n - 0x1_0000 * PAGES, 0x1_0000);
    }
  }

  lemma WrappedSum(x: nat, n: nat)
    ensures (x % PAGES + n) % PAGES == (x + n) % PAGES
  {
    WholeTurns(x % PAGES + n, x / PAGES);
  }

  lemma WholeTurns(y: nat, k: nat)
    ensures (y + k * PAGES) % PAGES == y % PAGES
  {
    Quotient(y + k * PAGES, y / PAGES + k, y % PAGES, PAGES);
  }

  lemma NextRegion(v: nat)
    requires v < PAGES
    ensures (v + 512) % PAGES / 512 == (v / 512 + 1) % (PAGES / 512)
  {
    assert (v + 512) / 512 == v / 512 + 1;
    if v + 512 < PAGES { SmallMod(v + 512, PAGES); } else { SmallMod(v + 512 - PAGES, PAGES); }
    SmallMod(v / 512, PAGES / 512);
  }

  lemma SmallMod(x: nat, d: nat)
    requires x < d
    ensures x % d == x
  {}

  /** The tables on the way to `n` consecutive pages. */
  ghost function Spines(base: nat, n: nat): set<Node> {
    if n == 0 then {}
    else Spines(base, n - 1) + if base + n - 1 < PAGES then Spine(PathOf(base + n - 1)) else {}
  }

  /** What a mapping of `n` pages does to memory and to the tree beside the view. */
  ghost predicate Touched(huge: bool, m: Mem, t: Tables, u: set<nat>, m': Mem, t': Tables, u': set<nat>, base: nat,
                          n: nat) {
    && Wf(m', t') && t'.Values <= u' && L4 in t && t'[L4] == t[L4]
    && if huge then Kept(m, t, u, m', t', u') else Extends(m, t, u, m', t', u', Spines(base, n))
  }

  lemma TouchedNext(huge: bool, m: Mem, t: Tables, u: set<nat>, m1: Mem, t1: Tables, u1: set<nat>,
                    m2: Mem, t2: Tables, u2: set<nat>, base: nat, n: nat)
    requires Touched(huge, m, t, u, m1, t1, u1, base, n)
    requires Touched(huge, m1, t1, u1, m2, t2, u2, base + n, 1)
    ensures Touched(huge, m, t, u, m2, t2, u2, base, n + 1)
  {
    hide Wf, Kept, Extends;
    if huge {
      KeptTwice(m, t, u, m1, t1, u1, m2, t2, u2);
    } else {
      ExtendsTwice(m, t, u, m1, t1, u1, m2, t2, u2, Spines(base, n), Spines(base + n, 1));
      assert Spines(base + n, 1) == if base + n < PAGES then Spine(PathOf(base + n)) else {};
      assert Spines(base, n) + Spines(base + n, 1) == Spines(base, n + 1);
    }
  }

  lemma TouchedIsSpace(huge: bool, m: Mem, t: Tables, u: set<nat>, m': Mem, t': Tables, u': set<nat>, base: nat, n: nat)
    requires Touched(huge, m, t, u, m', t', u', base, n)
    ensures Wf(m', t') && t'.Values <= u' && L4 in t' && L4 in t && t'[L4] == t[L4]
  {}

  lemma MappedNone(huge: bool, m: Mem, t: Tables, u: set<nat>, base: nat, phys: nat, permissions: Word)
    requires Wf(m, t) && t.Values <= u
    ensures Mapped(huge, m, t, m, t, base, 0, phys, permissions)
    ensures Touched(huge, m, t, u, m, t, u, base, 0)
  {
    assert u + t.Values == u;
  }

  lemma MappedNext(huge: bool, m: Mem, t: Tables, m1: Mem, t1: Tables, m2: Mem, t2: Tables,
                   base: nat, n: nat, phys: nat, permissions: Word)
    requires Mapped(huge, m, t, m1, t1, base, n, phys, permissions)
    requires Mapped(huge, m1, t1, m2, t2, base + n, 1, phys + n * PageStep(huge), permissions)
    ensures Mapped(huge, m, t, m2, t2, base, n + 1, phys, permissions)
  {
    hide Pte, Pde, LeafWord, LargeWord, PageAt, RegionAt, Wf;
  }

  lemma StillSmall(m: Mem, t: Tables, m1: Mem, t1: Tables, base: nat, n: nat, phys: nat, permissions: Word)
    requires Mapped(false, m, t, m1, t1, base, n, phys, permissions) && base + n < PAGES
    requires Pde(m, t, PathOf(base + n)) == 0
    ensures Pde(m1, t1, PathOf(base + n)) == 0
  {}

  class Vmm {
    const pmm: Pmm
    var mem: Mem

    constructor (pmm: Pmm)
      requires pmm.Valid() && pmm.bitmap.Length <= FRAMES
      ensures Valid() && this.pmm == pmm
    {
      this.pmm := pmm;
      mem := seq(pmm.bitmap.Length, x => ZERO);
    }

    ghost predicate Valid()
      reads this, pmm, pmm.bitmap
    {
      pmm.Valid() && |mem| == pmm.bitmap.Length <= FRAMES
    }

    /** A table tree of this machine: well formed, and its frames are allocated. */
    ghost predicate Space(t: Tables)
      reads this, pmm, pmm.bitmap
    {
      Valid() && Wf(mem, t) && t.Values <= pmm.Used()
    }

    /** `pmm_alloc`: the run is zeroed; when no run fits, the result is 0 and
        the frames at physical address 0 are zeroed instead. */
    method PmmAlloc(count: nat) returns (f: nat)
      requires Valid()
      modifies this`mem, pmm, pmm.bitmap
      ensures Valid() && |mem| == |old(mem)|
      ensures pmm.Total() == old(pmm.Total())
      ensures forall x :: 0 <= x < |mem| ==> mem[x] == if f <= x < f + ClearedFrames(count) then ZERO else old(mem)[x]
      ensures f == 0 ==> pmm.Used() == old(pmm.Used()) && pmm.bitmap[..] == old(pmm.bitmap[..])
      ensures f == 0 && count > 0 ==> NoFitBelow(old(pmm.bitmap[..]), |mem|, count, 1)
      ensures f != 0 ==> count > 0 && f + count <= |mem|
      ensures f != 0 ==> Run(f, count) !! old(pmm.Used()) && pmm.Used() == old(pmm.Used()) + Run(f, count)
    {
      hide Run, UsedIn, Pmm.Valid, Pmm.Total, NoFitBelow;
      var addr := pmm.AllocAdvanced(count, 1);
      f := addr / PAGE_SIZE;
      var m, n := mem, ClearedFrames(count);
      mem := seq(|m|, x requires 0 <= x < |m| => if f <= x < f + n then ZERO else m[x]);
    }

    /** `vmm_get_or_alloc`; `ok` is false when the source hangs for want of a frame. */
    method GetOrAlloc(f: nat, x: nat, ghost t: Tables, ghost n: Node) returns (ok: bool, c: nat, ghost t': Tables)
      requires Space(t) && n in t && t[n] == f && !n.L1? && x < 512
      requires n.L2? ==> !Large(mem[f][x])
      modifies this`mem, pmm, pmm.bitmap
      ensures Valid()
      ensures !ok ==> AllUsed(pmm.bitmap[..])
      ensures ok ==> Grew(old(mem), t, old(pmm.Used()), mem, t', pmm.Used(), {Kid(n, x)})
      ensures ok ==> Kid(n, x) in t' && t'[Kid(n, x)] == c
      ensures ok && !old(Present(mem[f][x])) ==> OpenLink(mem, f, x, c)
      ensures ok ==> pmm.Total() == old(pmm.Total())
    {
      hide Grew, BitAnd;
      var e := mem[f][x];
      PresentMask(e);
      if BitAnd(e, VMM_PRESENT) == 0 {
        ok, c := LinkNew(f, x, t, n);
        t' := t[Kid(n, x) := c];
      } else {
        AddrMask(e);
        ok, c, t' := true, BitAnd(e, VMM_ADDR_MASK) / 0x1000, t;
        assert Linked(mem, t, n, x);
        GrewNone(mem, t, pmm.Used(), {Kid(n, x)});
      }
    }

    /** The branch of `vmm_get_or_alloc` that finds no table. */
    method LinkNew(f: nat, x: nat, ghost t: Tables, ghost n: Node) returns (ok: bool, c: nat)
      requires Space(t) && n in t && t[n] == f && !n.L1? && x < 512 && !Present(mem[f][x])
      modifies this`mem, pmm, pmm.bitmap
      ensures Valid()
      ensures !ok ==> AllUsed(pmm.bitmap[..])
      ensures ok ==> Grew(old(mem), t, old(pmm.Used()), mem, t[Kid(n, x) := c], pmm.Used(), {Kid(n, x)})
      ensures ok ==> OpenLink(mem, f, x, c)
      ensures ok ==> pmm.Total() == old(pmm.Total())
    {
      hide Grew, BitOr, FrameOf, Present, Large, Pmm.Used, Pmm.Total;
      c := PmmAlloc(1);
      if c == 0 {
        NoFrameFits(pmm.bitmap[..]);
        return false, 0;
      }
      assert c in Run(c, 1);
      LinkFresh(old(mem), t, old(pmm.Used()), mem, n, x, c);
      TableWord(c);
      mem := Put(mem, f, x, BitOr(c * 0x1000, BitOr(BitOr(VMM_WRITE, VMM_USER), VMM_PRESENT)));
      ok := true;
    }

    /** The two upper levels of a walk that creates what is missing. */
    method ReachDirectory(root: nat, p: Path, ghost t: Tables) returns (ok: bool, pd: nat, ghost t': Tables)
      requires Space(t) && t[L4] == root && InTables(p)
      modifies this`mem, pmm, pmm.bitmap
      ensures Valid()
      ensures !ok ==> AllUsed(pmm.bitmap[..])
      ensures ok ==> Grew(old(mem), t, old(pmm.Used()), mem, t', pmm.Used(), {L3(p.i), L2(p.i, p.j)})
      ensures ok ==> L2(p.i, p.j) in t' && t'[L2(p.i, p.j)] == pd
      ensures ok ==> pmm.Total() == old(pmm.Total())
    {
      hide Grew;
      var pdp;
      ghost var t1;
      ok, pdp, t1 := GetOrAlloc(root, p.i, t, L4);
      if !ok { return false, 0, t; }
      ghost var m1, u1 := mem, pmm.Used();
      GrewIsSpace(old(mem), t, old(pmm.Used()), m1, t1, u1, {L3(p.i)});
      ok, pd, t' := GetOrAlloc(pdp, p.j, t1, L3(p.i));
      if !ok { return false, 0, t; }
      GrewTwice(old(mem), t, old(pmm.Used()), m1, t1, u1, mem, t', pmm.Used(), {L3(p.i)}, {L2(p.i, p.j)});
      assert {L3(p.i)} + {L2(p.i, p.j)} == {L3(p.i), L2(p.i, p.j)};
    }

    /** The loop body of `vmm_map_advanced` for a 4 KiB page. */
    method MapSmall(root: nat, addr: Word, phys: nat, permissions: Word, ghost t: Tables)
      returns (ok: bool, ghost t': Tables)
      requires Space(t) && t[L4] == root
      requires phys % 0x1000 == 0 && phys / 0x1000 < FRAMES && FrameOf(permissions) == 0
      requires Pde(mem, t, PathOf(PageOf(addr))) == 0
      modifies this`mem, pmm, pmm.bitmap
      ensures Valid()
      ensures !ok ==> AllUsed(pmm.bitmap[..])
      ensures ok ==> Space(t') && t'[L4] == root
      ensures ok ==> SmallMapped(old(mem), t, mem, t', PageOf(addr), 1, phys, permissions)
      ensures ok ==> Extends(old(mem), t, old(pmm.Used()), mem, t', pmm.Used(), Spine(PathOf(PageOf(addr))))
      ensures ok ==> pmm.Total() == old(pmm.Total())
    {
      hide Grew, SmallMapped, Extends, BitOr, FrameOf, PathOf, PageOf, LeafWord, Linked, Pde, BitAnd, Pmm.Used,
        Pmm.Total, Pmm.Valid, OpenLink;
      var p := AddrOffsets(addr);
      OffsetsArePath(addr);
      var pd, pt;
      ghost var t2;
      ok, pd, t2 := ReachDirectory(root, p, t);
      if !ok { return false, t; }
      ghost var m2, u2 := mem, pmm.Used();
      GrewNotLarge(old(mem), t, old(pmm.Used()), m2, t2, u2, {L3(p.i), L2(p.i, p.j)}, p);
      ok, pt, t' := GetOrAlloc(pd, p.k, t2, L2(p.i, p.j));
      if !ok { return false, t; }
      GrewTwice(old(mem), t, old(pmm.Used()), m2, t2, u2, mem, t', pmm.Used(),
                {L3(p.i), L2(p.i, p.j)}, {L1(p.i, p.j, p.k)});
      assert {L3(p.i), L2(p.i, p.j)} + {L1(p.i, p.j, p.k)} == Spine(p);
      SmallWord(phys / 0x1000, permissions);
      assert phys / 0x1000 * 0x1000 == phys;
      PageOfPath(PageOf(addr));
      StoreLeaf(old(mem), t, old(pmm.Used()), mem, t', pmm.Used(), p, phys, permissions);
      mem := Put(mem, pt, p.l, LeafWord(phys, permissions, VMM_PRESENT));
    }

    /** The loop body of `vmm_map_advanced` for a 2 MiB page. */
    method MapLarge(root: nat, addr: Word, phys: nat, permissions: Word, ghost t: Tables)
      returns (ok: bool, ghost t': Tables)
      requires Space(t) && t[L4] == root
      requires phys % 0x1000 == 0 && phys / 0x1000 < FRAMES && FrameOf(permissions) == 0
      modifies this`mem, pmm, pmm.bitmap
      ensures Valid()
      ensures !ok ==> AllUsed(pmm.bitmap[..])
      ensures ok ==> Space(t') && t'[L4] == root
      ensures ok ==> LargeMapped(old(mem), t, mem, t', PageOf(addr) / 512, 1, phys, permissions)
      ensures ok ==> Kept(old(mem), t, old(pmm.Used()), mem, t', pmm.Used())
      ensures ok ==> pmm.Total() == old(pmm.Total())
    {
      hide Grew, LargeMapped, Kept, BitOr, FrameOf, PathOf, PageOf, LargeWord, Linked, Pde, BitAnd, Pmm.Used, Pmm.Total;
      var p := AddrOffsets(addr);
      OffsetsArePath(addr);
      var pd;
      ghost var t2;
      ok, pd, t2 := ReachDirectory(root, p, t);
      if !ok { return false, t; }
      GrewIsSpace(old(mem), t, old(pmm.Used()), mem, t2, pmm.Used(), {L3(p.i), L2(p.i, p.j)});
      PageOfPath(PageOf(addr));
      LargeWordFields(phys / 0x1000, permissions);
      assert phys / 0x1000 * 0x1000 == phys;
      StoreLarge(old(mem), t, old(pmm.Used()), mem, t2, pmm.Used(), p, phys, permissions);
      t' := t2 - {L1(p.i, p.j, p.k)};
      mem := Put(mem, pd, p.k, LargeWord(phys, permissions));
    }

    /** The loop body of `vmm_map_advanced`. */
    method MapOne(root: nat, addr: Word, phys: nat, permissions: Word, huge: bool, ghost t: Tables)
      returns (ok: bool, ghost t': Tables)
      requires Space(t) && t[L4] == root
      requires phys % 0x1000 == 0 && phys / 0x1000 < FRAMES && FrameOf(permissions) == 0
      requires !huge ==> Pde(mem, t, PathOf(PageOf(addr))) == 0
      modifies this`mem, pmm, pmm.bitmap
      ensures Valid()
      ensures !ok ==> AllUsed(pmm.bitmap[..])
      ensures ok ==> Mapped(huge, old(mem), t, mem, t', Base(addr, huge), 1, phys, permissions)
      ensures ok ==> Touched(huge, old(mem), t, old(pmm.Used()), mem, t', pmm.Used(), Base(addr, huge), 1)
      ensures ok ==> pmm.Total() == old(pmm.Total())
    {
      hide SmallMapped, LargeMapped, Extends, Kept, FrameOf, PathOf, PageOf, Pde, Linked;
      if huge {
        ok, t' := MapLarge(root, addr, phys, permissions, t);
      } else {
        ok, t' := MapSmall(root, addr, phys, permissions, t);
        assert Spines(PageOf(addr), 1) == Spine(PathOf(PageOf(addr)));
      }
    }

    /** `vmm_map_advanced`. `ok` is false when the source hangs for want of a table frame: no frame is free. */
    method MapAdvanced(root: nat, addr: Word, phys: nat, size: nat, permissions: Word, huge: bool, ghost t: Tables)
      returns (ok: bool, ghost t': Tables)
      requires Space(t) && t[L4] == root
      requires InRange(addr, phys, size, huge) && FrameOf(permissions) == 0
      requires !huge ==> forall v :: PageOf(addr) <= v < PageOf(addr) + size ==> Pde(mem, t, PathOf(v)) == 0
      modifies this`mem, pmm, pmm.bitmap
      ensures Valid()
      ensures !ok ==> AllUsed(pmm.bitmap[..])
      ensures ok ==> Mapped(huge, old(mem), t, mem, t', Base(addr, huge), size, phys, permissions)
      ensures ok ==> Touched(huge, old(mem), t, old(pmm.Used()), mem, t', pmm.Used(), Base(addr, huge), size)
      ensures ok ==> pmm.Total() == old(pmm.Total())
    {
      hide Mapped, SmallMapped, LargeMapped, Touched, FrameOf, PathOf, PageOf, Pde, Linked, InRange, Wf, Pmm.Used,
        Pmm.Total;
      ghost var base, m0, u0 := Base(addr, huge), mem, pmm.Used();
      var a: Word, f, left := addr, phys, size;
      var step := PageStep(huge);
      t' := t;
      MappedNone(huge, m0, t, u0, base, phys, permissions);
      while left > 0
        invariant 0 <= left <= size && Valid()
        invariant left > 0 ==> Base(a, huge) == base + (size - left)
        invariant f == phys + (size - left) * step
        invariant Mapped(huge, m0, t, mem, t', base, size - left, phys, permissions)
        invariant Touched(huge, m0, t, u0, mem, t', pmm.Used(), base, size - left)
        invariant pmm.Total() == old(pmm.Total())
      {
        ghost var n, m1, t1, u1 := size - left, mem, t', pmm.Used();
        StepInRange(addr, phys, size, huge, n);
        TouchedIsSpace(huge, m0, t, u0, m1, t1, u1, base, n);
        if !huge { StillSmall(m0, t, m1, t1, base, n, phys, permissions); }
        ok, t' := MapOne(root, a, f, permissions, huge, t1);
        if !ok { return false, t; }
        MappedNext(huge, m0, t, m1, t1, mem, t', base, n, phys, permissions);
        TouchedNext(huge, m0, t, u0, m1, t1, u1, mem, t', pmm.Used(), base, n);
        NextBase(a, huge);
        if n + 1 < size { StepInRange(addr, phys, size, huge, n + 1); }
        a, f, left := (a + step) % TWO64, f + step, left - 1;
      }
      ok := true;
    }
  }
}
