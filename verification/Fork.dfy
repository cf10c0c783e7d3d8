/** Copying an address space (`vmm_copy_pml4` in kernel/mem/vmm.c): the lower half is
    copied page by page into frames taken from pools of 4096, the upper half is shared. */
module Fork {
  import opened Bits
  import opened FrameAllocator
  import opened PageEntries
  import opened PageTables
  import opened AddressSpaces
  import opened Translation

  const POOL_SIZE := 4096
  const UNLOCKED := 1            // INIT_SPINLOCK(): taking a lock clears the bit
  const LOWER := 0x8_0000_0000   // number of lower-half pages, 256 * 2^27

  /** The frames that hold the 4 KiB pages of an address space. */
  type Pages = map<Path, nat>

  /** The frames of a pool that have not been handed out. */
  datatype Pool = Pool(start: nat, next: nat)

  ghost function Rest(pool: Pool): set<nat> {
    if pool.next <= POOL_SIZE then Run(pool.start + pool.next, POOL_SIZE - pool.next) else {}
  }

  /** A space to copy: its tables and its lower-half pages are allocated frames. */
  ghost predicate Source(m: Mem, t: Tables, used: set<nat>) {
    && Wf(m, t) && t.Values <= used && |m| <= FRAMES
    && (forall f :: f in used ==> f < |m|)
    && (forall q :: InTables(q) && q.i < 256 && Present(Pte(m, t, q)) ==> FrameOf(Pte(m, t, q)) in used)
  }

  /** `g` lists the pages of a lower-half space: all frames distinct, and none of them a table. */
  ghost predicate Private(m: Mem, t: Tables, g: Pages) {
    && Wf(m, t)
    && (forall n :: n in t ==> n.L4? || n.i < 256)
    && (forall q :: InTables(q) ==> Pde(m, t, q) == 0)
    && (forall q :: q in g <==> InTables(q) && Present(Pte(m, t, q)))
    && (forall q :: q in g ==> g[q] == FrameOf(Pte(m, t, q)) && g[q] < |m| && g[q] !in t.Values)
    && (forall q, q' :: q in g && q' in g && g[q] == g[q'] ==> q == q')
  }

  /** Page `q` of the copy has the flags and the contents of page `q` of the source. */
  ghost predicate Copied(m0: Mem, ts: Tables, m: Mem, t: Tables, g: Pages, q: Path)
    requires Wf(m0, ts) && Private(m, t, g) && InTables(q)
  {
    && q in g && FrameOf(Pte(m0, ts, q)) < |m0|
    && FlagsOf(Pte(m, t, q)) == FlagsOf(Pte(m0, ts, q))
    && m[g[q]] == m0[FrameOf(Pte(m0, ts, q))]
  }

  /** The lower-half pages below `pos` are copied, the rest are still empty. */
  ghost predicate CopiedBelow(m0: Mem, ts: Tables, m: Mem, t: Tables, g: Pages, pos: nat)
    requires Wf(m0, ts) && Private(m, t, g)
  {
    forall q :: InTables(q) && q.i < 256 ==>
      if PageAt(q) < pos && Present(Pte(m0, ts, q)) then Copied(m0, ts, m, t, g, q) else Pte(m, t, q) == 0
  }

  ghost predicate CopyInv(m0: Mem, ts: Tables, u0: set<nat>, m: Mem, t: Tables, g: Pages, pos: nat) {
    && Source(m0, ts, u0) && |m| == |m0|
    && (forall f :: f in u0 ==> m[f] == m0[f])
    && Private(m, t, g) && t.Values !! u0 && g.Values !! u0
    && CopiedBelow(m0, ts, m, t, g, pos)
  }

  /** Every frame allocated since `u0` is a table or a page of the copy, or still in the pool. */
  ghost predicate Accounted(u0: set<nat>, used: set<nat>, t: Tables, g: Pages, pool: Pool) {
    && pool.next <= POOL_SIZE
    && used == u0 + t.Values + g.Values + Rest(pool)
    && t.Values !! u0 && g.Values !! u0 && t.Values !! g.Values
    && Rest(pool) !! u0 + t.Values + g.Values
  }

  /** Writing to frames outside the copy and outside the old space. */
  lemma OutsideFrames(m0: Mem, ts: Tables, u0: set<nat>, m: Mem, t: Tables, g: Pages, pos: nat, m': Mem, run: set<nat>)
    requires CopyInv(m0, ts, u0, m, t, g, pos) && |m'| == |m|
    requires run !! u0 + t.Values + g.Values
    requires forall f :: 0 <= f < |m| && f !in run ==> m'[f] == m[f]
    ensures CopyInv(m0, ts, u0, m', t, g, pos)
    ensures SameView(m, t, m', t)
  {
    hide FrameOf, FlagsOf, Present, Pte, Pde, PageAt, InTables, Linked;
    forall n | n in t ensures t[n] in t.Values {}
    Stable(m, m', t);
    forall q | q in g ensures g[q] in g.Values {}
    assert Private(m', t, g);
    forall q | InTables(q) && q.i < 256 && Copied(m0, ts, m, t, g, q) ensures Copied(m0, ts, m', t, g, q) {}
  }

  /** `m1` maps the filled frame `np` at page `p`, the next page to copy, giving `m2` and `t2`. */
  ghost predicate MapStep(m1: Mem, t: Tables, used: set<nat>, m2: Mem, t2: Tables, used2: set<nat>,
                          p: Path, np: nat, flags: Word)
  {
    && InTables(p) && p.i < 256 && np < |m1| <= FRAMES && np in used && t.Values <= used
    && FrameOf(flags) == 0 && Present(flags)
    && SmallMapped(m1, t, m2, t2, PageAt(p), 1, np * 0x1000, flags)
    && Extends(m1, t, used, m2, t2, used2, Spine(p))
  }

  /** The new leaf, and all the others. */
  lemma MapStepView(m1: Mem, t: Tables, used: set<nat>, m2: Mem, t2: Tables, used2: set<nat>, p: Path, np: nat,
                    flags: Word)
    requires MapStep(m1, t, used, m2, t2, used2, p, np, flags)
    ensures Wf(m1, t) && Wf(m2, t2)
    ensures forall q :: InTables(q) ==> Pde(m2, t2, q) == Pde(m1, t, q)
    ensures forall q :: InTables(q) && q != p ==> Pte(m2, t2, q) == Pte(m1, t, q)
    ensures var e := Pte(m2, t2, p); Present(e) && FrameOf(e) == np && FlagsOf(e) == flags
  {
    hide FrameOf, FlagsOf, Pte, Pde, PageAt, LeafWord, Extends, Present, BitOr;
    SmallWord(np, flags);
    PresentFlag(flags);
    forall q | InTables(q) ensures PageAt(p) <= PageAt(q) < PageAt(p) + 1 <==> q == p {
      PathOfPage(p);
      PathOfPage(q);
    }
  }

  /** Adding the present flag to flags that have it changes nothing. */
  lemma PresentFlag(flags: Word)
    requires Present(flags)
    ensures BitOr(flags, VMM_PRESENT) == flags
  {
    hide BitOr;
    OrHalf(flags, 1);
    OrZero(flags / 2);
    OrSame(1);
  }

  lemma StepPrivate(m1: Mem, t: Tables, used: set<nat>, m2: Mem, t2: Tables, used2: set<nat>,
                    p: Path, np: nat, flags: Word, g: Pages)
    requires MapStep(m1, t, used, m2, t2, used2, p, np, flags)
    requires Private(m1, t, g) && p !in g && np !in t.Values + g.Values && g.Values <= used
    ensures Private(m2, t2, g[p := np])
  {
    hide FrameOf, FlagsOf, Pte, Pde, Present, MapStep, InTables, Wf;
    PagesNotTables(m1, t, used, m2, t2, used2, p, np, flags, g);
    StepTables(m1, t, used, m2, t2, used2, p, np, flags);
    MapStepView(m1, t, used, m2, t2, used2, p, np, flags);
    StepPages(m1, t, m2, t2, p, np, g);
    StepDistinct(p, np, g);
  }

  /** The pages of the copy with one more, where only the leaf of `p` changed. */
  lemma StepPages(m1: Mem, t: Tables, m2: Mem, t2: Tables, p: Path, np: nat, g: Pages)
    requires Wf(m1, t) && Wf(m2, t2) && |m1| == |m2| && InTables(p) && np < |m2|
    requires forall q :: InTables(q) && q != p ==> Pte(m2, t2, q) == Pte(m1, t, q)
    requires Present(Pte(m2, t2, p)) && FrameOf(Pte(m2, t2, p)) == np
    requires forall q :: q in g <==> InTables(q) && Present(Pte(m1, t, q))
    requires forall q :: q in g ==> g[q] == FrameOf(Pte(m1, t, q)) && g[q] < |m1|
    ensures var g' := g[p := np];
            && (forall q :: q in g' <==> InTables(q) && Present(Pte(m2, t2, q)))
            && (forall q :: q in g' ==> g'[q] == FrameOf(Pte(m2, t2, q)) && g'[q] < |m2|)
  {
    hide *;
  }

  lemma StepDistinct(p: Path, np: nat, g: Pages)
    requires np !in g.Values && forall q, q' :: q in g && q' in g && g[q] == g[q'] ==> q == q'
    ensures var g' := g[p := np]; forall q, q' :: q in g' && q' in g' && g'[q] == g'[q'] ==> q == q'
  {
    forall q | q in g ensures g[q] != np { assert g[q] in g.Values; }
  }

  lemma StepTables(m1: Mem, t: Tables, used: set<nat>, m2: Mem, t2: Tables, used2: set<nat>, p: Path, np: nat,
                   flags: Word)
    requires MapStep(m1, t, used, m2, t2, used2, p, np, flags)
    requires forall n :: n in t ==> n.L4? || n.i < 256
    ensures forall n :: n in t2 ==> n.L4? || n.i < 256
    ensures InTables(p) && np < |m1| == |m2|
  {
    hide FrameOf, Present, SmallMapped, PageAt;
  }

  lemma PagesNotTables(m1: Mem, t: Tables, used: set<nat>, m2: Mem, t2: Tables, used2: set<nat>, p: Path, np: nat,
                       flags: Word, g: Pages)
    requires MapStep(m1, t, used, m2, t2, used2, p, np, flags)
    requires np !in t.Values && g.Values <= used && (forall q :: q in g ==> g[q] !in t.Values)
    ensures np !in t2.Values && forall q :: q in g ==> g[q] !in t2.Values
  {
    hide FrameOf, Present, SmallMapped, PageAt;
    NotNewTable(t, t2, used, np);
    forall q | q in g ensures g[q] !in t2.Values {
      assert g[q] in g.Values;
      NotNewTable(t, t2, used, g[q]);
    }
  }

  /** A frame that was in use and is not an old table is not a new table either. */
  lemma NotNewTable(t: Tables, t2: Tables, used: set<nat>, f: nat)
    requires t.Keys <= t2.Keys && (forall n :: n in t ==> t2[n] == t[n])
    requires (forall n :: n in t2 && n !in t ==> t2[n] !in used) && f in used && f !in t.Values
    ensures f !in t2.Values
  {}

  /** One page more: the invariant moves on by one. */
  lemma CopyStep(m0: Mem, ts: Tables, u0: set<nat>, m1: Mem, t: Tables, used: set<nat>,
                 m2: Mem, t2: Tables, used2: set<nat>, p: Path, np: nat, g: Pages)
    requires CopyInv(m0, ts, u0, m1, t, g, PageAt(p)) && InTables(p)
    requires MapStep(m1, t, used, m2, t2, used2, p, np, FlagsOf(Pte(m0, ts, p)))
    requires np !in u0 + t.Values + g.Values && g.Values <= used && u0 <= used
    requires Present(Pte(m0, ts, p)) && m1[np] == m0[FrameOf(Pte(m0, ts, p))]
    ensures CopyInv(m0, ts, u0, m2, t2, g[p := np], PageAt(p) + 1)
  {
    hide FrameOf, FlagsOf, Pte, Pde, Present, SmallMapped, Linked, PageAt, Private;
    var flags := FlagsOf(Pte(m0, ts, p));
    MapStepView(m1, t, used, m2, t2, used2, p, np, flags);
    NotYet(m0, ts, m1, t, g, p);
    StepPrivate(m1, t, used, m2, t2, used2, p, np, flags, g);
    StepFrames(m1, t, used, m2, t2, used2, p, np, flags, g, u0);
    StepCopied(m0, ts, m1, t, used, m2, t2, used2, p, np, flags, g);
  }

  lemma NotYet(m0: Mem, ts: Tables, m: Mem, t: Tables, g: Pages, p: Path)
    requires Wf(m0, ts) && Private(m, t, g) && InTables(p) && p.i < 256 && CopiedBelow(m0, ts, m, t, g, PageAt(p))
    ensures p !in g
  {
    assert !Present(0);
  }

  /** Old frames are untouched, and the new ones are new. */
  lemma StepFrames(m1: Mem, t: Tables, used: set<nat>, m2: Mem, t2: Tables, used2: set<nat>,
                   p: Path, np: nat, flags: Word, g: Pages, u0: set<nat>)
    requires MapStep(m1, t, used, m2, t2, used2, p, np, flags)
    requires np !in u0 + t.Values + g.Values && g.Values <= used && u0 <= used
    requires t.Values !! u0 && g.Values !! u0 && Private(m1, t, g)
    ensures |m2| == |m1| && t2.Values !! u0 && g[p := np].Values !! u0
    ensures forall f :: f in u0 && f < |m1| ==> m2[f] == m1[f]
    ensures forall q :: q in g ==> g[q] < |m1| && m2[g[q]] == m1[g[q]]
    ensures np !in t2.Values && m2[np] == m1[np]
  {
    hide SmallMapped, PageAt, FrameOf, Present, Pte, Pde, Linked;
    forall f | f in u0 ensures f !in t2.Values { NotNewTable(t, t2, used, f); }
    NotNewTable(t, t2, used, np);
    forall q | q in g ensures g[q] !in t2.Values {
      assert g[q] in g.Values;
      NotNewTable(t, t2, used, g[q]);
    }
    var g2 := g[p := np];
    forall f | f in g2.Values ensures f !in u0 {
      var q :| q in g2 && g2[q] == f;
      if q != p { assert g[q] in g.Values; }
    }
  }

  lemma StepCopied(m0: Mem, ts: Tables, m1: Mem, t: Tables, used: set<nat>, m2: Mem, t2: Tables, used2: set<nat>,
                   p: Path, np: nat, flags: Word, g: Pages)
    requires Wf(m0, ts) && MapStep(m1, t, used, m2, t2, used2, p, np, flags)
    requires Private(m1, t, g) && Private(m2, t2, g[p := np])
    requires CopiedBelow(m0, ts, m1, t, g, PageAt(p))
    requires flags == FlagsOf(Pte(m0, ts, p)) && FrameOf(Pte(m0, ts, p)) < |m0| && Present(Pte(m0, ts, p))
    requires m2[np] == m0[FrameOf(Pte(m0, ts, p))]
    requires forall q :: q in g ==> g[q] < |m1| && m2[g[q]] == m1[g[q]]
    ensures CopiedBelow(m0, ts, m2, t2, g[p := np], PageAt(p) + 1)
  {
    hide FrameOf, FlagsOf, Pte, Pde, Present, SmallMapped, Wf, PageAt, Extends;
    MapStepView(m1, t, used, m2, t2, used2, p, np, flags);
    var g2 := g[p := np];
    forall q | InTables(q) && q.i < 256
      ensures if PageAt(q) < PageAt(p) + 1 && Present(Pte(m0, ts, q)) then Copied(m0, ts, m2, t2, g2, q)
              else Pte(m2, t2, q) == 0
    {
      PathOfPage(p);
      PathOfPage(q);
      if q != p {
        assert PageAt(q) != PageAt(p);
        assert PageAt(q) < PageAt(p) && Present(Pte(m0, ts, q)) ==> Copied(m0, ts, m1, t, g, q);
      }
    }
  }

  /** Pages that the source does not have are skipped. */
  lemma Skip(m0: Mem, ts: Tables, u0: set<nat>, m: Mem, t: Tables, g: Pages, pos: nat, pos': nat)
    requires CopyInv(m0, ts, u0, m, t, g, pos) && pos <= pos'
    requires forall q :: InTables(q) && pos <= PageAt(q) < pos' ==> !Present(Pte(m0, ts, q))
    ensures CopyInv(m0, ts, u0, m, t, g, pos')
  {
    hide FrameOf, FlagsOf, Pte, Pde, Present, Wf, PageAt, Private;
  }

  // ----- accounting for frames -----

  /** The frame taken from the pool becomes a page, the frames just allocated become tables. */
  lemma StepAccounted(u0: set<nat>, used: set<nat>, t: Tables, g: Pages, pool: Pool,
                      m: Mem, m2: Mem, t2: Tables, used2: set<nat>, p: Path)
    requires Accounted(u0, used, t, g, pool) && pool.next < POOL_SIZE && p !in g
    requires Extends(m, t, used, m2, t2, used2, Spine(p))
    ensures Accounted(u0, used2, t2, g[p := pool.start + pool.next], Pool(pool.start, pool.next + 1))
  {
    hide Run;
    var np := pool.start + pool.next;
    assert Rest(pool) == {np} + Rest(Pool(pool.start, pool.next + 1));
    ValuesAdd(g, p, np);
    ValuesGrow(m, t, used, m2, t2, used2, Spine(p));
    SplitFrames(u0, t.Values, g.Values, Rest(pool), t2.Values, np, Rest(Pool(pool.start, pool.next + 1)));
  }

  /** Which frame belongs where, as sets: `np` moves from the pool to the pages. */
  lemma SplitFrames(u: set<nat>, t: set<nat>, g: set<nat>, r: set<nat>, t2: set<nat>, np: nat, r2: set<nat>)
    requires t !! u && g !! u && t !! g && r !! u + t + g
    requires r == {np} + r2 && np !in r2 && t <= t2 && t2 - t !! u + t + g + r
    ensures u + t + g + r + t2 == u + t2 + (g + {np}) + r2
    ensures t2 !! u && g + {np} !! u && t2 !! g + {np}
    ensures r2 !! u + t2 + (g + {np})
  {}

  lemma ValuesAdd(g: Pages, p: Path, np: nat)
    requires p !in g
    ensures g[p := np].Values == g.Values + {np}
  {
    var g2 := g[p := np];
    assert g2[p] == np;
    forall f | f in g.Values ensures f in g2.Values {
      var q :| q in g && g[q] == f;
      assert g2[q] == f;
    }
  }

  lemma ValuesGrow(m: Mem, t: Tables, used: set<nat>, m2: Mem, t2: Tables, used2: set<nat>, nodes: set<Node>)
    requires Extends(m, t, used, m2, t2, used2, nodes)
    ensures t.Values <= t2.Values && t2.Values - t.Values !! used && used2 == used + t2.Values
  {
    forall f | f in t.Values ensures f in t2.Values {
      var n :| n in t && t[n] == f;
      assert t2[n] == f;
    }
  }

  /** A used-up pool is replaced by a newly allocated one. */
  lemma RefillAccounted(u0: set<nat>, used: set<nat>, t: Tables, g: Pages, pool: Pool, start: nat)
    requires Accounted(u0, used, t, g, pool) && pool.next == POOL_SIZE
    requires Run(start, POOL_SIZE) !! used
    ensures Accounted(u0, used + Run(start, POOL_SIZE), t, g, Pool(start, 0))
  {
    hide Run;
    assert Rest(pool) == {};
  }

  /** What stays the same while the loops run: memory, tables and used frames when they start. */
  datatype Job = Job(m0: Mem, ts: Tables, u0: set<nat>)

  /** The tables and pages of the copy so far. */
  datatype Copy = Copy(t: Tables, g: Pages)

  ghost predicate Copying(v: Vmm, job: Job, c: Copy, pool: Pool, dst: nat, pos: nat)
    reads v, v.pmm, v.pmm.bitmap
  {
    && v.Valid()
    && CopyInv(job.m0, job.ts, job.u0, v.mem, c.t, c.g, pos) && c.t[L4] == dst
    && Accounted(job.u0, v.pmm.Used(), c.t, c.g, pool)
    && 0 < pool.start && pool.start + POOL_SIZE <= |v.mem|
  }

  /** There is no room for another pool. */
  ghost predicate NoPool(v: Vmm)
    reads v.pmm, v.pmm.bitmap
  {
    NoFitBelow(v.pmm.bitmap[..], v.pmm.bitmap.Length, POOL_SIZE, 1)
  }

  /** The pool step of the innermost loop: a new pool when the current one is used up. */
  method Refill(v: Vmm, pool: Pool, dst: nat, ghost job: Job, ghost c: Copy, ghost pos: nat)
    returns (ok: bool, pool': Pool)
    requires Copying(v, job, c, pool, dst, pos)
    modifies v`mem, v.pmm, v.pmm.bitmap
    ensures v.Valid() && (!ok ==> NoPool(v))
    ensures ok ==> Copying(v, job, c, pool', dst, pos) && pool'.next < POOL_SIZE
    ensures ok ==> v.pmm.Total() == old(v.pmm.Total())
  {
    hide Accounted, Run, Rest, Private, CopiedBelow, Source, Pmm.Used, Pmm.Total;
    pool' := pool;
    ok := true;
    AccountedPool(job.u0, v.pmm.Used(), c.t, c.g, pool);
    if pool.next == POOL_SIZE {
      ghost var m, used := v.mem, v.pmm.Used();
      var start := v.PmmAlloc(POOL_SIZE);
      if start == 0 { return false, pool; }
      pool' := Pool(start, 0);
      RefillAccounted(job.u0, used, c.t, c.g, pool, start);
      assert Run(start, POOL_SIZE) !! job.u0 + c.t.Values + c.g.Values;
      OutsideFrames(job.m0, job.ts, job.u0, m, c.t, c.g, pos, v.mem, Run(start, POOL_SIZE));
    }
  }

  lemma AccountedPool(u0: set<nat>, used: set<nat>, t: Tables, g: Pages, pool: Pool)
    requires Accounted(u0, used, t, g, pool)
    ensures pool.next <= POOL_SIZE && u0 + t.Values + g.Values <= used && Rest(pool) <= used
    ensures Rest(pool) !! u0 + t.Values + g.Values
  {}

  /** A source page and what the copy loop reads from its entry. */
  lemma SourcePage(m0: Mem, ts: Tables, u0: set<nat>, m: Mem, t: Tables, g: Pages, p: Path)
    requires CopyInv(m0, ts, u0, m, t, g, PageAt(p)) && InTables(p) && p.i < 256 && Present(Pte(m0, ts, p))
    ensures var e := Pte(m0, ts, p);
            && FrameOf(e) < |m| && FrameOf(e) in u0 && m[FrameOf(e)] == m0[FrameOf(e)]
            && FrameOf(FlagsOf(e)) == 0 && Present(FlagsOf(e))
    ensures p !in g && Pde(m, t, p) == 0 && L4 in t && Wf(m, t) && |m| <= FRAMES
  {
    hide FrameOf, FlagsOf, Pde, PageAt, Linked;
    var e := Pte(m0, ts, p);
    NotYet(m0, ts, m, t, g, p);
    FlagFields(e);
    PresentInLow(e);
    PresentInLow(FlagsOf(e));
  }

  /** The body of the innermost loop: copy one page and map the copy. */
  method CopyLeaf(v: Vmm, dst: nat, p: Path, e: Word, pool: Pool, ghost job: Job, ghost c: Copy)
    returns (ok: bool, pool': Pool, ghost c': Copy)
    requires InTables(p) && p.i < 256 && Copying(v, job, c, pool, dst, PageAt(p))
    requires e == Pte(job.m0, job.ts, p) && Present(e)
    modifies v`mem, v.pmm, v.pmm.bitmap
    ensures v.Valid() && (!ok ==> NoPool(v))
    ensures ok ==> Copying(v, job, c', pool', dst, PageAt(p) + 1)
    ensures ok ==> v.pmm.Total() == old(v.pmm.Total())
  {
    hide Private, CopiedBelow, Source, Accounted, Run, Rest, PageAt, FrameOf, FlagsOf, Present, Pte, Pde, BitAnd, BitOr,
      SmallMapped, Extends, Wf, PathOf, EntriesToVirtAddr, PageOf, MapStep, Spines, Pmm.Used, Pmm.Total;
    c' := c;
    ok, pool' := Refill(v, pool, dst, job, c, PageAt(p));
    if !ok { return; }
    ghost var t, g, m, used := c.t, c.g, v.mem, v.pmm.Used();
    AccountedPool(job.u0, used, t, g, pool');
    SourcePage(job.m0, job.ts, job.u0, m, t, g, p);
    var newPage := pool'.start + pool'.next;
    PoolFrame(v, pool', used);
    AddrMask(e);
    v.mem := v.mem[newPage := v.mem[BitAnd(e, VMM_ADDR_MASK) / 0x1000]];
    ghost var m1 := v.mem;
    OutsideFrames(job.m0, job.ts, job.u0, m, t, g, PageAt(p), m1, {newPage});
    SourcePage(job.m0, job.ts, job.u0, m1, t, g, p);
    AddressRoundTrip(p);
    PathOfPage(p);
    PageOfStart(PageAt(p));
    FlagMask(e);
    OnePage(EntriesToVirtAddr(p), PageAt(p), newPage);
    ghost var t2;
    ok, t2 := v.MapAdvanced(dst, EntriesToVirtAddr(p), newPage * 0x1000, 1, BitAnd(e, VMM_FLAG_MASK), false, t);
    if !ok {
      AllUsedNoFit(v.pmm.bitmap[..], POOL_SIZE);
      return;
    }
    MappedOne(m1, t, used, v.mem, t2, v.pmm.Used(), p, newPage, FlagsOf(e));
    CopyStep(job.m0, job.ts, job.u0, m1, t, used, v.mem, t2, v.pmm.Used(), p, newPage, g);
    StepAccounted(job.u0, used, t, g, pool', m1, v.mem, t2, v.pmm.Used(), p);
    c', pool' := Copy(t2, g[p := newPage]), Pool(pool'.start, pool'.next + 1);
  }

  lemma PoolFrame(v: Vmm, pool: Pool, used: set<nat>)
    requires v.Valid() && used == v.pmm.Used() && Rest(pool) <= used && pool.next < POOL_SIZE
    ensures pool.start + pool.next in Rest(pool) && pool.start + pool.next < |v.mem|
  {
    hide Run;
  }

  lemma OnePage(addr: Word, v: nat, f: nat)
    requires v < PAGES && f < FRAMES && PageOf(addr) == v
    ensures InRange(addr, f * 0x1000, 1, false) && Base(addr, false) == v
  {
    hide PageOf;
  }

  lemma MappedOne(m1: Mem, t: Tables, used: set<nat>, m2: Mem, t2: Tables, used2: set<nat>, p: Path, np: nat,
                  flags: Word)
    requires Mapped(false, m1, t, m2, t2, PageAt(p), 1, np * 0x1000, flags)
    requires Touched(false, m1, t, used, m2, t2, used2, PageAt(p), 1)
    requires InTables(p) && p.i < 256 && np < |m1| <= FRAMES && np in used && t.Values <= used
    requires FrameOf(flags) == 0 && Present(flags)
    ensures MapStep(m1, t, used, m2, t2, used2, p, np, flags) && Extends(m1, t, used, m2, t2, used2, Spine(p))
    ensures t2[L4] == t[L4]
  {
    hide SmallMapped, PageAt, Wf, FrameOf, Present, PathOf;
    PathOfPage(p);
    assert Spines(PageAt(p), 1) == Spine(p);
  }

  // ----- the four nested loops -----

  /** The source tree seen through the memory of the running copy. */
  lemma SourceStable(v: Vmm, job: Job, c: Copy, pool: Pool, dst: nat, pos: nat)
    requires Copying(v, job, c, pool, dst, pos)
    ensures v.Valid() && Wf(v.mem, job.ts) && SameView(job.m0, job.ts, v.mem, job.ts)
    ensures Wf(job.m0, job.ts) && L4 in job.ts
    ensures forall n :: n in job.ts ==> job.ts[n] < |v.mem| && v.mem[job.ts[n]] == job.m0[job.ts[n]]
  {
    hide FrameOf, FlagsOf, Present, Pte, Pde, PageAt, Private, CopiedBelow, Accounted, Linked;
    forall n | n in job.ts ensures job.ts[n] in job.ts.Values {}
    Stable(job.m0, v.mem, job.ts);
  }

  /** No table, no pages: the part of the address range below a missing table is empty. */
  lemma NoPages(m: Mem, t: Tables, n: Node, first: nat, size: nat)
    requires Wf(m, t) && Indexed(n) && n !in t
    requires match n
             case L4 => false
             case L3(i) => first == i * 0x800_0000 && size == 0x800_0000
             case L2(i, j) => first == (i * 512 + j) * 0x4_0000 && size == 0x4_0000
             case L1(i, j, k) => first == ((i * 512 + j) * 512 + k) * 512 && size == 512
    ensures forall q :: InTables(q) && first <= PageAt(q) < first + size ==> !Present(Pte(m, t, q))
  {
    hide Linked, Pde, FrameOf, Large;
    forall q | InTables(q) && first <= PageAt(q) < first + size ensures L1(q.i, q.j, q.k) !in t {
      var l1, l2 := L1(q.i, q.j, q.k), L2(q.i, q.j);
      assert Parent(l1) == l2 && Parent(l2) == L3(q.i);
    }
  }

  datatype CopyResult = Success | NoMemory | LargePage

  method CopyPt(v: Vmm, dst: nat, i: nat, j: nat, k: nat, pt: nat, pool: Pool, ghost job: Job, ghost c: Copy)
    returns (r: CopyResult, pool': Pool, ghost c': Copy)
    requires i < 256 && j < 512 && k < 512 && L1(i, j, k) in job.ts && job.ts[L1(i, j, k)] == pt
    requires Copying(v, job, c, pool, dst, ((i * 512 + j) * 512 + k) * 512)
    modifies v`mem, v.pmm, v.pmm.bitmap
    ensures v.Valid() && r != LargePage && (r.NoMemory? ==> NoPool(v))
    ensures r.Success? ==> Copying(v, job, c', pool', dst, ((i * 512 + j) * 512 + k + 1) * 512)
    ensures r.Success? ==> v.pmm.Total() == old(v.pmm.Total())
  {
    hide Copying, BitAnd, Present, Pte, PageAt, Pmm.Used, Pmm.Total;
    ghost var first := ((i * 512 + j) * 512 + k) * 512;
    SourceStable(v, job, c, pool, dst, first);
    pool', c' := pool, c;
    for l := 0 to 512
      invariant v.Valid() && Copying(v, job, c', pool', dst, first + l)
      invariant v.pmm.Total() == old(v.pmm.Total())
    {
      var p := Path(i, j, k, l);
      assert PageAt(p) == first + l by { PageAtIs(p); }
      SourceStable(v, job, c', pool', dst, first + l);
      var e := v.mem[pt][l];
      assert e == Pte(job.m0, job.ts, p) by { PteIs(job.m0, job.ts, p); }
      PresentMask(e);
      if BitAnd(e, 0x1) != 0 {
        var ok;
        ok, pool', c' := CopyLeaf(v, dst, p, e, pool', job, c');
        if !ok { return NoMemory, pool', c'; }
      } else {
        SkipOne(v, job, c', pool', dst, p);
      }
    }
    r := Success;
  }

  lemma PageAtIs(p: Path)
    ensures PageAt(p) == ((p.i * 512 + p.j) * 512 + p.k) * 512 + p.l
  {}

  lemma PteIs(m: Mem, t: Tables, p: Path)
    requires Wf(m, t) && InTables(p) && L1(p.i, p.j, p.k) in t
    ensures Pte(m, t, p) == m[t[L1(p.i, p.j, p.k)]][p.l]
  {}

  lemma SkipOne(v: Vmm, job: Job, c: Copy, pool: Pool, dst: nat, p: Path)
    requires InTables(p) && Copying(v, job, c, pool, dst, PageAt(p))
    requires Wf(job.m0, job.ts) && !Present(Pte(job.m0, job.ts, p))
    ensures Copying(v, job, c, pool, dst, PageAt(p) + 1)
  {
    hide CopyInv, Accounted, Pte, PageAt, Present;
    forall q | InTables(q) && PageAt(q) == PageAt(p) ensures q == p {
      PathOfPage(p);
      PathOfPage(q);
    }
    Skip(job.m0, job.ts, job.u0, v.mem, c.t, c.g, PageAt(p), PageAt(p) + 1);
  }

  lemma SkipTable(v: Vmm, job: Job, c: Copy, pool: Pool, dst: nat, n: Node, first: nat, size: nat)
    requires Copying(v, job, c, pool, dst, first) && Indexed(n) && n !in job.ts
    requires match n
             case L4 => false
             case L3(i) => first == i * 0x800_0000 && size == 0x800_0000
             case L2(i, j) => first == (i * 512 + j) * 0x4_0000 && size == 0x4_0000
             case L1(i, j, k) => first == ((i * 512 + j) * 512 + k) * 512 && size == 512
    ensures Copying(v, job, c, pool, dst, first + size)
  {
    hide CopyInv, Accounted, Pte, PageAt, Present;
    SourceStable(v, job, c, pool, dst, first);
    NoPages(job.m0, job.ts, n, first, size);
    Skip(job.m0, job.ts, job.u0, v.mem, c.t, c.g, first, first + size);
  }

  method CopyPd(v: Vmm, dst: nat, i: nat, j: nat, pd: nat, pool: Pool, ghost job: Job, ghost c: Copy)
    returns (r: CopyResult, pool': Pool, ghost c': Copy)
    requires i < 256 && j < 512 && L2(i, j) in job.ts && job.ts[L2(i, j)] == pd
    requires Copying(v, job, c, pool, dst, (i * 512 + j) * 0x4_0000)
    modifies v`mem, v.pmm, v.pmm.bitmap
    ensures v.Valid() && (r.NoMemory? ==> NoPool(v))
    ensures r.Success? ==> Copying(v, job, c', pool', dst, (i * 512 + j + 1) * 0x4_0000)
    ensures r.Success? ==> v.pmm.Total() == old(v.pmm.Total())
    ensures r.Success? ==> NoLargeAt(job.m0, job.ts, L2(i, j), 512)
    ensures r.LargePage? ==> HasLarge(job.m0, job.ts)
  {
    hide Copying, BitAnd, Present, Pte, PageAt, GetOrNull, HasLarge, NoLargeAt, Pmm.Used, Pmm.Total;
    ghost var first := (i * 512 + j) * 0x4_0000;
    SourceStable(v, job, c, pool, dst, first);
    NoLargeNone(job.m0, job.ts, L2(i, j));
    pool', c' := pool, c;
    for k := 0 to 512
      invariant v.Valid() && Copying(v, job, c', pool', dst, first + k * 512)
      invariant NoLargeAt(job.m0, job.ts, L2(i, j), k)
      invariant v.pmm.Total() == old(v.pmm.Total())
    {
      SourceStable(v, job, c', pool', dst, first + k * 512);
      var e := v.mem[pd][k];
      LargeMask(e);
      if BitAnd(e, VMM_LARGE) != 0 {
        LargeFound(job.m0, job.ts, i, j, k);
        return LargePage, pool', c';
      }
      NotLarge(job.m0, job.ts, i, j, k);
      WalkStep(v.mem, job.ts, L2(i, j), k);
      var pt := GetOrNull(v.mem, pd, k);
      if pt.Some? {
        r, pool', c' := CopyPt(v, dst, i, j, k, pt.value, pool', job, c');
        if !r.Success? { return; }
      } else {
        SkipTable(v, job, c', pool', dst, L1(i, j, k), first + k * 512, 512);
      }
    }
    r := Success;
  }

  /** A lower-half 2 MiB leaf. */
  ghost predicate HasLarge(m: Mem, t: Tables)
    requires Wf(m, t)
  {
    exists q :: InTables(q) && q.i < 256 && Pde(m, t, q) != 0
  }

  /** No 2 MiB leaf below the first `limit` entries of table `n`. */
  ghost predicate NoLargeAt(m: Mem, t: Tables, n: Node, limit: nat)
    requires Wf(m, t)
  {
    match n
    case L4 => forall q :: InTables(q) && q.i < limit ==> Pde(m, t, q) == 0
    case L3(i) => forall q :: InTables(q) && q.i == i && q.j < limit ==> Pde(m, t, q) == 0
    case L2(i, j) => forall q :: InTables(q) && q.i == i && q.j == j && q.k < limit ==> Pde(m, t, q) == 0
    case L1(_, _, _) => true
  }

  lemma NoLargeNone(m: Mem, t: Tables, n: Node)
    requires Wf(m, t)
    ensures NoLargeAt(m, t, n, 0)
  {}

  lemma NotLarge(m: Mem, t: Tables, i: nat, j: nat, k: nat)
    requires Wf(m, t) && L2(i, j) in t && k < 512 && !Large(m[t[L2(i, j)]][k]) && NoLargeAt(m, t, L2(i, j), k)
    ensures NoLargeAt(m, t, L2(i, j), k + 1)
  {
    hide Linked;
  }

  lemma NoDirectory(m: Mem, t: Tables, n: Node)
    requires Wf(m, t) && n !in t && (n.L2? || n.L3?)
    ensures NoLargeAt(m, t, n, 512)
  {
    hide Linked;
    if n.L3? {
      forall q | InTables(q) && q.i == n.i ensures L2(q.i, q.j) !in t {
        assert Parent(L2(q.i, q.j)) == n;
      }
    }
  }

  lemma NoLargeNext(m: Mem, t: Tables, n: Node, x: nat)
    requires Wf(m, t) && (n.L4? || n.L3?) && NoLargeAt(m, t, n, x) && NoLargeAt(m, t, Kid(n, x), 512)
    ensures NoLargeAt(m, t, n, x + 1)
  {
    hide Linked, Pde;
  }

  lemma NoneLarge(m: Mem, t: Tables)
    requires Wf(m, t) && NoLargeAt(m, t, L4, 256)
    ensures !HasLarge(m, t)
  {
    hide Linked, Pde;
  }

  lemma LargeFound(m: Mem, t: Tables, i: nat, j: nat, k: nat)
    requires Wf(m, t) && i < 256 && j < 512 && k < 512 && L2(i, j) in t && Large(m[t[L2(i, j)]][k])
    ensures HasLarge(m, t)
  {
    LargeIsNotZero(m[t[L2(i, j)]][k]);
    assert Pde(m, t, Path(i, j, k, 0)) != 0;
  }

  method CopyPdp(v: Vmm, dst: nat, i: nat, pdp: nat, pool: Pool, ghost job: Job, ghost c: Copy)
    returns (r: CopyResult, pool': Pool, ghost c': Copy)
    requires i < 256 && L3(i) in job.ts && job.ts[L3(i)] == pdp
    requires Copying(v, job, c, pool, dst, i * 0x800_0000)
    modifies v`mem, v.pmm, v.pmm.bitmap
    ensures v.Valid() && (r.NoMemory? ==> NoPool(v))
    ensures r.Success? ==> Copying(v, job, c', pool', dst, (i + 1) * 0x800_0000)
    ensures r.Success? ==> v.pmm.Total() == old(v.pmm.Total())
    ensures r.Success? ==> NoLargeAt(job.m0, job.ts, L3(i), 512)
    ensures r.LargePage? ==> HasLarge(job.m0, job.ts)
  {
    hide Copying, BitAnd, Present, Pte, PageAt, GetOrNull, HasLarge, NoLargeAt, Pmm.Used, Pmm.Total;
    ghost var first := i * 0x800_0000;
    SourceStable(v, job, c, pool, dst, first);
    NoLargeNone(job.m0, job.ts, L3(i));
    pool', c' := pool, c;
    for j := 0 to 512
      invariant v.Valid() && Copying(v, job, c', pool', dst, first + j * 0x4_0000)
      invariant NoLargeAt(job.m0, job.ts, L3(i), j)
      invariant v.pmm.Total() == old(v.pmm.Total())
    {
      SourceStable(v, job, c', pool', dst, first + j * 0x4_0000);
      WalkStep(v.mem, job.ts, L3(i), j);
      var pd := GetOrNull(v.mem, pdp, j);
      if pd.Some? {
        r, pool', c' := CopyPd(v, dst, i, j, pd.value, pool', job, c');
        if !r.Success? { return; }
      } else {
        SkipTable(v, job, c', pool', dst, L2(i, j), first + j * 0x4_0000, 0x4_0000);
        NoDirectory(job.m0, job.ts, L2(i, j));
      }
      NoLargeNext(job.m0, job.ts, L3(i), j);
    }
    r := Success;
  }

  method CopyLower(v: Vmm, root: nat, dst: nat, pool: Pool, ghost job: Job, ghost c: Copy)
    returns (r: CopyResult, pool': Pool, ghost c': Copy)
    requires L4 in job.ts && job.ts[L4] == root && Copying(v, job, c, pool, dst, 0)
    modifies v`mem, v.pmm, v.pmm.bitmap
    ensures v.Valid() && (r.NoMemory? ==> NoPool(v))
    ensures r.Success? ==> Copying(v, job, c', pool', dst, LOWER)
    ensures r.Success? ==> v.pmm.Total() == old(v.pmm.Total())
    ensures r.Success? ==> !HasLarge(job.m0, job.ts)
    ensures r.LargePage? ==> HasLarge(job.m0, job.ts)
  {
    hide Copying, BitAnd, Present, Pte, PageAt, GetOrNull, HasLarge, NoLargeAt, Pmm.Used, Pmm.Total;
    SourceStable(v, job, c, pool, dst, 0);
    NoLargeNone(job.m0, job.ts, L4);
    pool', c' := pool, c;
    for i := 0 to 256
      invariant v.Valid() && Copying(v, job, c', pool', dst, i * 0x800_0000)
      invariant NoLargeAt(job.m0, job.ts, L4, i)
      invariant v.pmm.Total() == old(v.pmm.Total())
    {
      SourceStable(v, job, c', pool', dst, i * 0x800_0000);
      WalkStep(v.mem, job.ts, L4, i);
      var pdp := GetOrNull(v.mem, root, i);
      if pdp.Some? {
        r, pool', c' := CopyPdp(v, dst, i, pdp.value, pool', job, c');
        if !r.Success? { return; }
      } else {
        SkipTable(v, job, c', pool', dst, L3(i), i * 0x800_0000, 0x800_0000);
        NoDirectory(job.m0, job.ts, L3(i));
      }
      NoLargeNext(job.m0, job.ts, L4, i);
    }
    NoneLarge(job.m0, job.ts);
    r := Success;
  }

  // ----- the shared upper half -----

  /** The tables of the upper half. */
  ghost function Upper(t: Tables): Tables {
    map n | n in t && !n.L4? && n.i >= 256 :: t[n]
  }

  /** The root frame of the copy once words 256 to 511 are taken over from the source. */
  function JoinedRoot(lower: Frame, upper: Frame): Frame {
    lower[..256] + upper[256..]
  }

  /** A finished copy, first its tables: those of the lower half are new, those of the upper half
      are the source's, and so are words 256 to 511 of the root and every upper-half leaf. */
  ghost predicate ForkedTables(m0: Mem, ts: Tables, u0: set<nat>, m: Mem, t: Tables)
    requires Wf(m0, ts)
  {
    && Wf(m, t) && |m| == |m0|
    && (forall f :: f in u0 ==> f < |m| && m[f] == m0[f])
    && (forall n :: n in t && (n.L4? || n.i < 256) ==> t[n] !in u0)
    && (forall n :: n in t && !n.L4? && n.i >= 256 ==> n in ts && ts[n] == t[n])
    && (forall i :: 256 <= i < 512 ==> m[t[L4]][i] == m0[ts[L4]][i])
    && (forall q :: InTables(q) && q.i >= 256 ==> Pte(m, t, q) == Pte(m0, ts, q) && Pde(m, t, q) == Pde(m0, ts, q))
  }

  /** Then its lower-half pages: the same pages as in the source, with the same flags and contents,
      in frames `g` that are new, distinct and not tables. */
  ghost predicate ForkedPages(m0: Mem, ts: Tables, u0: set<nat>, m: Mem, t: Tables, g: Pages)
    requires Wf(m0, ts) && Wf(m, t)
  {
    && (forall q :: InTables(q) && q.i < 256 ==>
          Pde(m, t, q) == 0 && (Present(Pte(m, t, q)) <==> Present(Pte(m0, ts, q))))
    && (forall q :: q in g <==> InTables(q) && q.i < 256 && Present(Pte(m0, ts, q)))
    && (forall q :: q in g ==>
          && g[q] == FrameOf(Pte(m, t, q)) && g[q] !in u0 + t.Values && g[q] < |m|
          && FlagsOf(Pte(m, t, q)) == FlagsOf(Pte(m0, ts, q))
          && FrameOf(Pte(m0, ts, q)) < |m0| && m[g[q]] == m0[FrameOf(Pte(m0, ts, q))])
    && (forall q, q' :: q in g && q' in g && g[q] == g[q'] ==> q == q')
  }

  ghost predicate Forked(m0: Mem, ts: Tables, u0: set<nat>, m: Mem, t: Tables, g: Pages) {
    && Source(m0, ts, u0)
    && ForkedTables(m0, ts, u0, m, t)
    && ForkedPages(m0, ts, u0, m, t, g)
  }

  /** Which nodes the joined tree has. */
  lemma JoinedNodes(ts: Tables, t: Tables)
    requires forall n :: n in t ==> n.L4? || n.i < 256
    ensures var t' := t + Upper(ts);
            && (forall n :: n in t' <==> if n.L4? || n.i < 256 then n in t else n in ts)
            && (forall n :: n in t' ==> t'[n] == if n.L4? || n.i < 256 then t[n] else ts[n])
  {}

  /** The part of the invariant that joining the halves needs. */
  ghost predicate Joining(m0: Mem, ts: Tables, u0: set<nat>, m: Mem, t: Tables, m': Mem) {
    && Wf(m0, ts) && Wf(m, t) && |m| == |m0|
    && (forall n :: n in ts ==> ts[n] in u0)
    && (forall n :: n in t ==> t[n] !in u0 && (n.L4? || n.i < 256))
    && (forall f :: f in u0 ==> f < |m| && m[f] == m0[f])
    && m' == m[t[L4] := JoinedRoot(m[t[L4]], m0[ts[L4]])]
  }

  lemma JoinLinked(m0: Mem, ts: Tables, u0: set<nat>, m: Mem, t: Tables, m': Mem, n: Node, x: nat)
    requires Joining(m0, ts, u0, m, t, m') && n in t + Upper(ts) && !n.L1? && x < 512
    ensures (t + Upper(ts))[n] < |m'| && Linked(m', t + Upper(ts), n, x)
  {
    hide FrameOf, Present, Large, Upper;
    JoinedNodes(ts, t);
    if n in t {
      assert Linked(m, t, n, x);
      if n.L4? {
        assert Linked(m0, ts, L4, x);
      } else {
        assert t[n] != t[L4];
      }
    } else {
      assert Linked(m0, ts, n, x);
    }
  }

  lemma JoinWf(m0: Mem, ts: Tables, u0: set<nat>, m: Mem, t: Tables, m': Mem)
    requires Joining(m0, ts, u0, m, t, m')
    ensures Wf(m', t + Upper(ts))
  {
    hide Linked, Upper;
    var t' := t + Upper(ts);
    JoinedNodes(ts, t);
    forall n, x: nat | n in t' && !n.L1? && x < 512 ensures t'[n] < |m'| && Linked(m', t', n, x) {
      JoinLinked(m0, ts, u0, m, t, m', n, x);
    }
  }

  lemma JoinView(m0: Mem, ts: Tables, u0: set<nat>, m: Mem, t: Tables, m': Mem, q: Path)
    requires Joining(m0, ts, u0, m, t, m') && Wf(m', t + Upper(ts)) && InTables(q)
    ensures var t' := t + Upper(ts);
            if q.i < 256 then Pte(m', t', q) == Pte(m, t, q) && Pde(m', t', q) == Pde(m, t, q)
            else Pte(m', t', q) == Pte(m0, ts, q) && Pde(m', t', q) == Pde(m0, ts, q)
  {
    hide Large, Linked, Upper;
    JoinedNodes(ts, t);
    var t' := t + Upper(ts);
    var l1, l2 := L1(q.i, q.j, q.k), L2(q.i, q.j);
    if q.i < 256 {
      assert l1 in t' <==> l1 in t;
      assert l2 in t' <==> l2 in t;
      assert l1 in t ==> t[l1] != t[L4];
      assert l2 in t ==> t[l2] != t[L4];
    } else {
      assert l1 in t' <==> l1 in ts;
      assert l2 in t' <==> l2 in ts;
    }
  }

  lemma Join(m0: Mem, ts: Tables, u0: set<nat>, m: Mem, t: Tables, g: Pages, m': Mem)
    requires CopyInv(m0, ts, u0, m, t, g, LOWER)
    requires m' == m[t[L4] := JoinedRoot(m[t[L4]], m0[ts[L4]])]
    ensures Forked(m0, ts, u0, m', t + Upper(ts), g)
  {
    hide FrameOf, FlagsOf, Present, Large, PageAt, Linked, Pte, Pde, CopiedBelow, ForkedTables, ForkedPages;
    forall n | n in t ensures t[n] in t.Values {}
    forall n | n in ts ensures ts[n] in ts.Values {}
    assert Joining(m0, ts, u0, m, t, m');
    JoinTables(m0, ts, u0, m, t, m');
    JoinPages(m0, ts, u0, m, t, g, m');
  }

  lemma JoinTables(m0: Mem, ts: Tables, u0: set<nat>, m: Mem, t: Tables, m': Mem)
    requires Joining(m0, ts, u0, m, t, m')
    ensures Wf(m', t + Upper(ts)) && ForkedTables(m0, ts, u0, m', t + Upper(ts))
  {
    hide Linked, Pte, Pde, Upper;
    var t' := t + Upper(ts);
    JoinWf(m0, ts, u0, m, t, m');
    JoinedNodes(ts, t);
    forall q | InTables(q) && q.i >= 256 ensures Pte(m', t', q) == Pte(m0, ts, q) && Pde(m', t', q) == Pde(m0, ts, q) {
      JoinView(m0, ts, u0, m, t, m', q);
    }
  }

  lemma JoinPages(m0: Mem, ts: Tables, u0: set<nat>, m: Mem, t: Tables, g: Pages, m': Mem)
    requires Joining(m0, ts, u0, m, t, m') && Wf(m', t + Upper(ts))
    requires Private(m, t, g) && g.Values !! u0 && CopiedBelow(m0, ts, m, t, g, LOWER)
    ensures ForkedPages(m0, ts, u0, m', t + Upper(ts), g)
  {
    hide FrameOf, FlagsOf, Present, Pte, Pde, Upper, CopiedBelow, Wf, InTables;
    var t' := t + Upper(ts);
    AllCopied(m0, ts, m, t, g);
    forall q | InTables(q) && q.i < 256 ensures Pte(m', t', q) == Pte(m, t, q) && Pde(m', t', q) == Pde(m, t, q) {
      JoinView(m0, ts, u0, m, t, m', q);
    }
    PagesApart(ts, u0, t, g);
    PagesUnwritten(m0, ts, u0, m, t, g, m');
  }

  /** Joining the halves writes the root only. */
  lemma PagesUnwritten(m0: Mem, ts: Tables, u0: set<nat>, m: Mem, t: Tables, g: Pages, m': Mem)
    requires Joining(m0, ts, u0, m, t, m') && forall q :: q in g ==> g[q] !in t.Values
    ensures |m'| == |m| && forall q :: q in g && g[q] < |m| ==> m'[g[q]] == m[g[q]]
  {
    assert t[L4] in t.Values;
  }

  /** The pages of the copy are neither old frames nor tables of the joined tree. */
  lemma PagesApart(ts: Tables, u0: set<nat>, t: Tables, g: Pages)
    requires forall n :: n in t ==> n.L4? || n.i < 256
    requires (forall n :: n in ts ==> ts[n] in u0) && g.Values !! u0 && (forall q :: q in g ==> g[q] !in t.Values)
    ensures forall q :: q in g ==> g[q] !in u0 + (t + Upper(ts)).Values
  {
    hide Upper;
    JoinedNodes(ts, t);
    forall q | q in g ensures g[q] !in u0 + (t + Upper(ts)).Values {
      assert g[q] in g.Values;
    }
  }

  /** At the end of the loops every lower-half page of the source has its copy, and no more. */
  lemma AllCopied(m0: Mem, ts: Tables, m: Mem, t: Tables, g: Pages)
    requires Wf(m0, ts) && Private(m, t, g) && CopiedBelow(m0, ts, m, t, g, LOWER)
    ensures forall q :: InTables(q) && q.i < 256 ==>
              if Present(Pte(m0, ts, q)) then Copied(m0, ts, m, t, g, q)
              else Pte(m, t, q) == 0 && !Present(Pte(m, t, q))
    ensures forall q :: q in g ==> q.i < 256 && Present(Pte(m0, ts, q))
  {
    hide FrameOf, FlagsOf, Large, PageAt, Linked, Pde;
    forall q | InTables(q) && q.i < 256 ensures PageAt(q) < LOWER { LowerPage(q); }
    forall q | InTables(q) && q.i >= 256 ensures Pte(m, t, q) == 0 {}
  }

  lemma LowerPage(q: Path)
    requires InTables(q) && q.i < 256
    ensures PageAt(q) < LOWER
  {}

  // ----- the whole copy -----

  /** A root frame of zeros is a space without pages. */
  lemma Begin(m0: Mem, ts: Tables, u0: set<nat>, m: Mem, root: nat)
    requires Source(m0, ts, u0) && |m| == |m0| && root < |m| && root !in u0
    requires forall x :: 0 <= x < 512 ==> m[root][x] == 0
    requires forall f :: f in u0 ==> m[f] == m0[f]
    ensures CopyInv(m0, ts, u0, m, map[L4 := root], map[], 0)
  {
    var t: Tables := map[L4 := root];
    assert !Present(0);
    forall n, x: nat | n in t && !n.L1? && x < 512 ensures Linked(m, t, n, x) {}
    assert t[L4] == root && t.Values == {root};
    assert Private(m, t, map[]);
  }

  lemma BeginAccounted(u0: set<nat>, used: set<nat>, pool: nat, root: nat)
    requires Run(pool, POOL_SIZE) !! u0 && root !in u0 + Run(pool, POOL_SIZE)
    requires used == u0 + Run(pool, POOL_SIZE) + Run(root, 1)
    ensures Accounted(u0, used, map[L4 := root], map[], Pool(pool, 0))
  {
    hide Run;
    var t: Tables := map[L4 := root];
    assert t.Values == {root} == Run(root, 1) by { assert t[L4] == root; }
  }

  /** The frames private to a space: its root, its lower-half tables and pages, and the two frames of its `pt_t`. */
  ghost function LowerTables(t: Tables): Tables {
    map n | n in t && (n.L4? || n.i < 256) :: t[n]
  }

  ghost function Frames(t: Tables, g: Pages, header: nat): set<nat> {
    LowerTables(t).Values + g.Values + Run(header, 2)
  }

  /** The two frames allocated by kmalloc for the `pt_t`: its header page, then the structure with the root
      and a free lock. */
  ghost predicate HoldsPt(m: Mem, header: nat, root: nat) {
    && header + 1 < |m|
    && m[header][0] == 1 && m[header][1] == 8
    && m[header + 1][0] == root * 0x1000 && m[header + 1][1] == UNLOCKED
  }

  /** Freeing the rest of the last pool leaves exactly the tables and pages of the copy. */
  lemma FinishAccounted(u0: set<nat>, used: set<nat>, t: Tables, ts: Tables, g: Pages, pool: Pool)
    requires Accounted(u0, used, t, g, pool)
    requires forall n :: n in t ==> n.L4? || n.i < 256
    ensures Run(pool.start + pool.next, POOL_SIZE - pool.next) <= used
    ensures used - Run(pool.start + pool.next, POOL_SIZE - pool.next) ==
            u0 + LowerTables(t + Upper(ts)).Values + g.Values
    ensures LowerTables(t + Upper(ts)).Values !! u0 + g.Values && g.Values !! u0
  {
    hide Run;
    JoinedNodes(ts, t);
    assert LowerTables(t + Upper(ts)) == t;
  }

  /** The source is not disturbed by writing to frames it does not use. */
  lemma SourceLater(m: Mem, t: Tables, used: set<nat>, m': Mem, used': set<nat>)
    requires Source(m, t, used) && |m'| == |m| && used <= used' && (forall f :: f in used' ==> f < |m|)
    requires forall f :: f in used ==> m'[f] == m[f]
    ensures Source(m', t, used') && SameView(m, t, m', t)
  {
    hide FrameOf, Present, Pte, Pde;
    forall n | n in t ensures t[n] in t.Values {}
    Stable(m, m', t);
  }

  /** So a copy made from the later memory is a copy of the earlier one. */
  lemma Rebase(m: Mem, ts: Tables, used: set<nat>, m1: Mem, used1: set<nat>, m': Mem, t: Tables, g: Pages)
    requires Source(m, ts, used) && |m1| == |m| && used <= used1 && (forall f :: f in used ==> m1[f] == m[f])
    requires Forked(m1, ts, used1, m', t, g) && SameView(m, ts, m1, ts)
    ensures Forked(m, ts, used, m', t, g)
  {
    hide FrameOf, FlagsOf, Present, Pte, Pde, Linked;
    forall n | n in ts ensures ts[n] in ts.Values {}
  }

  /** The allocations before the loops, in the order of the source: pool, `pt_t`, root. */
  method AllocateParts(v: Vmm) returns (ok: bool, start: nat, header: nat, newRoot: nat)
    requires v.Valid()
    modifies v`mem, v.pmm, v.pmm.bitmap
    ensures v.Valid() && |v.mem| == |old(v.mem)| && (!ok ==> NoPool(v))
    ensures ok ==> v.pmm.Used() == old(v.pmm.Used()) + Run(start, POOL_SIZE) + Run(header, 2) + Run(newRoot, 1)
    ensures ok ==>
              && Run(start, POOL_SIZE) !! old(v.pmm.Used())
              && Run(header, 2) !! old(v.pmm.Used()) + Run(start, POOL_SIZE)
              && Run(newRoot, 1) !! old(v.pmm.Used()) + Run(start, POOL_SIZE) + Run(header, 2)
    ensures ok ==> 0 < start && start + POOL_SIZE <= |v.mem| && header + 2 <= |v.mem| && newRoot < |v.mem|
    ensures ok ==> forall f :: f in old(v.pmm.Used()) && f < |v.mem| ==> v.mem[f] == old(v.mem)[f]
    ensures ok ==> v.mem[newRoot] == ZERO
    ensures ok ==> v.pmm.Total() == old(v.pmm.Total())
  {
    hide Run, Pmm.Used, Pmm.Total;
    header, newRoot := 0, 0;
    start := v.PmmAlloc(POOL_SIZE);
    if start == 0 { return false, start, header, newRoot; }
    header := v.PmmAlloc(2);
    if header == 0 {
      LongerNoFit(v.pmm.bitmap[..], 2, POOL_SIZE);
      return false, start, header, newRoot;
    }
    newRoot := v.PmmAlloc(1);
    ok := newRoot != 0;
    if !ok { LongerNoFit(v.pmm.bitmap[..], 1, POOL_SIZE); }
  }

  method Prepare(v: Vmm, ghost ts: Tables) returns (ok: bool, pool: Pool, header: nat, newRoot: nat)
    requires v.Valid() && Source(v.mem, ts, v.pmm.Used())
    modifies v`mem, v.pmm, v.pmm.bitmap
    ensures v.Valid() && (!ok ==> NoPool(v))
    ensures ok ==> |v.mem| == |old(v.mem)|
    ensures ok ==> forall f :: f in old(v.pmm.Used()) ==> f < |v.mem| && v.mem[f] == old(v.mem)[f]
    ensures ok ==> Run(header, 2) !! old(v.pmm.Used()) && HoldsPt(v.mem, header, newRoot)
    ensures ok ==>
              var job := Job(v.mem, ts, old(v.pmm.Used()) + Run(header, 2));
              Copying(v, job, Copy(map[L4 := newRoot], map[]), pool, newRoot, 0)
    ensures ok ==> v.pmm.Total() == old(v.pmm.Total())
  {
    hide CopyInv, Accounted, Source, SameView, HoldsPt, Run, Pmm.Used, Pmm.Total, Wf;
    ghost var m0, u0 := v.mem, v.pmm.Used();
    var start;
    pool := Pool(0, 0);
    ok, start, header, newRoot := AllocateParts(v);
    if !ok { return; }
    SourceFrames(m0, ts, u0);
    assert newRoot in Run(newRoot, 1) && header in Run(header, 2) && header + 1 in Run(header, 2);
    WriteHeader(v, header, newRoot);
    ghost var u1 := u0 + Run(header, 2);
    SourceLater(m0, ts, u0, v.mem, u1);
    Begin(v.mem, ts, u1, v.mem, newRoot);
    BeginAccounted(u1, v.pmm.Used(), start, newRoot);
    pool := Pool(start, 0);
  }

  /** The stores of kmalloc into its header page, then those of the copy into the `pt_t`. */
  method WriteHeader(v: Vmm, header: nat, root: nat)
    requires v.Valid() && header + 2 <= |v.mem| && root < |v.mem|
    modifies v`mem
    ensures v.Valid() && HoldsPt(v.mem, header, root) && |v.mem| == |old(v.mem)|
    ensures forall f :: 0 <= f < |v.mem| && f !in Run(header, 2) ==> v.mem[f] == old(v.mem)[f]
  {
    hide Run;
    v.mem := Put(v.mem, header, 0, 1);
    v.mem := Put(v.mem, header, 1, 8);
    v.mem := Put(v.mem, header + 1, 0, root * 0x1000);
    v.mem := Put(v.mem, header + 1, 1, UNLOCKED);
  }

  lemma SourceFrames(m: Mem, t: Tables, used: set<nat>)
    requires Source(m, t, used)
    ensures |m| <= FRAMES && forall f :: f in used ==> f < |m|
  {}

  /** `vmm_copy_pml4`. The result names the frame of the kmalloc header and the new root. `NoMemory` is
      the case of a failed allocation, when no further pool fits, `LargePage` that of a lower-half 2 MiB
      leaf; what the source does then is outside this model. */
  method CopyPml4(v: Vmm, root: nat, ghost ts: Tables)
    returns (r: CopyResult, header: nat, newRoot: nat, ghost t: Tables, ghost g: Pages)
    requires v.Valid() && Source(v.mem, ts, v.pmm.Used()) && ts[L4] == root
    modifies v`mem, v.pmm, v.pmm.bitmap
    ensures v.Valid() && (r.NoMemory? ==> NoPool(v))
    ensures r.Success? ==> Forked(old(v.mem), ts, old(v.pmm.Used()), v.mem, t, g) && t[L4] == newRoot
    ensures r.Success? ==> HoldsPt(v.mem, header, newRoot)
    ensures r.Success? ==> header + 1 < |v.mem| && v.mem[header + 1][0] == newRoot * 0x1000 && v.mem[header + 1][1] == 1
    ensures r.Success? ==>
              && v.pmm.Used() == old(v.pmm.Used()) + Frames(t, g, header)
              && Frames(t, g, header) !! old(v.pmm.Used())
              && LowerTables(t).Values !! g.Values && Run(header, 2) !! LowerTables(t).Values + g.Values
    ensures r.Success? ==> v.pmm.Total() == old(v.pmm.Total())
    ensures r.Success? ==> !HasLarge(old(v.mem), ts)
    ensures r.LargePage? ==> HasLarge(old(v.mem), ts)
  {
    hide Source, CopyInv, Accounted, Forked, Run, Rest, Wf, HasLarge, HoldsPt, SameView, Pmm.Used, Pmm.Total,
      LowerTables, Upper, JoinedRoot;
    t, g, r := map[], map[], NoMemory;
    ghost var m0, u0 := v.mem, v.pmm.Used();
    var ok, pool;
    ok, pool, header, newRoot := Prepare(v, ts);
    if !ok { return; }
    ghost var m1, u1 := v.mem, u0 + Run(header, 2);
    ghost var job := Job(m1, ts, u1);
    SourceRoot(m0, ts, u0);
    CopyingFrames(v, job, Copy(map[L4 := newRoot], map[]), pool, newRoot, 0);
    SourceLater(m0, ts, u0, m1, u1);
    SourceRoot(m1, ts, u1);
    ghost var c;
    r, pool, c := CopyLower(v, root, newRoot, pool, job, Copy(map[L4 := newRoot], map[]));
    LargeEarlier(m0, m1, ts);
    if !r.Success? { return; }
    t, g := c.t + Upper(ts), c.g;
    Finish(v, root, newRoot, header, pool, job, c);
    Rebase(m0, ts, u0, m1, u1, v.mem, t, g);
    HeaderApart(u0, header, LowerTables(t).Values, g.Values);
    PtWords(v.mem, header, newRoot);
  }

  lemma PtWords(m: Mem, header: nat, root: nat)
    requires HoldsPt(m, header, root)
    ensures header + 1 < |m| && m[header + 1][0] == root * 0x1000 && m[header + 1][1] == 1
  {}

  lemma HeaderApart(u0: set<nat>, header: nat, tables: set<nat>, pages: set<nat>)
    requires Run(header, 2) !! u0 && tables !! u0 + Run(header, 2) && pages !! u0 + Run(header, 2)
    ensures tables !! u0 && pages !! u0 && Run(header, 2) !! tables + pages
    ensures u0 + Run(header, 2) + tables + pages == u0 + (tables + pages + Run(header, 2))
    ensures tables + pages + Run(header, 2) !! u0
  {
    hide Run;
  }

  /** The end of the copy: the rest of the pool is freed and the upper half is shared. */
  method Finish(v: Vmm, root: nat, newRoot: nat, header: nat, pool: Pool, ghost job: Job, ghost c: Copy)
    requires L4 in job.ts && job.ts[L4] == root && Copying(v, job, c, pool, newRoot, LOWER)
    requires Run(header, 2) <= job.u0 && HoldsPt(job.m0, header, newRoot)
    modifies v`mem, v.pmm, v.pmm.bitmap
    ensures v.Valid()
    ensures var t := c.t + Upper(job.ts);
            && Forked(job.m0, job.ts, job.u0, v.mem, t, c.g) && t[L4] == newRoot
            && v.pmm.Used() == job.u0 + LowerTables(t).Values + c.g.Values
            && LowerTables(t).Values !! job.u0 + c.g.Values && c.g.Values !! job.u0
    ensures HoldsPt(v.mem, header, newRoot)
    ensures v.pmm.Total() == old(v.pmm.Total())
  {
    hide Source, CopyInv, Accounted, Forked, HoldsPt, Run, Rest, Linked, LowerTables, Upper, JoinedRoot, Pte, Pde,
      Pmm.Used, Pmm.Total;
    CopyingFrames(v, job, c, pool, newRoot, LOWER);
    FinishAccounted(job.u0, v.pmm.Used(), c.t, job.ts, c.g, pool);
    JoinedNodes(job.ts, c.t);
    v.pmm.Free((pool.start + pool.next) * 0x1000, POOL_SIZE - pool.next);
    SourceRootIn(job, c, v.mem);
    ghost var m' := v.mem[newRoot := JoinedRoot(v.mem[newRoot], job.m0[root])];
    Join(job.m0, job.ts, job.u0, v.mem, c.t, c.g, m');
    ShareUpper(v, root, newRoot);
    SamePt(job.m0, v.mem, header, newRoot, job.u0);
  }

  lemma SamePt(m: Mem, m': Mem, header: nat, root: nat, u: set<nat>)
    requires HoldsPt(m, header, root) && |m'| == |m| && Run(header, 2) <= u
    requires forall f :: f in u && f < |m| ==> m'[f] == m[f]
    ensures HoldsPt(m', header, root)
  {
    hide Run;
    assert header in Run(header, 2) && header + 1 in Run(header, 2);
  }

  lemma SourceRootIn(job: Job, c: Copy, m: Mem)
    requires CopyInv(job.m0, job.ts, job.u0, m, c.t, c.g, LOWER)
    ensures L4 in job.ts && job.ts[L4] < |m| && job.ts[L4] in job.u0 && m[job.ts[L4]] == job.m0[job.ts[L4]]
  {
    SourceRoot(job.m0, job.ts, job.u0);
  }

  /** What the loops leave behind. */
  lemma CopyingFrames(v: Vmm, job: Job, c: Copy, pool: Pool, dst: nat, pos: nat)
    requires Copying(v, job, c, pool, dst, pos)
    ensures v.Valid() && CopyInv(job.m0, job.ts, job.u0, v.mem, c.t, c.g, pos)
    ensures Accounted(job.u0, v.pmm.Used(), c.t, c.g, pool)
    ensures pool.next <= POOL_SIZE && 0 < pool.start && pool.start + POOL_SIZE <= |v.mem| == |job.m0|
    ensures L4 in c.t && c.t[L4] == dst && dst < |v.mem| && dst !in job.u0
    ensures forall n :: n in c.t ==> n.L4? || n.i < 256
    ensures forall f :: f in job.u0 ==> f < |v.mem| && v.mem[f] == job.m0[f]
  {
    hide Linked, Pte, Pde, CopiedBelow, Run, Rest;
    assert c.t[L4] in c.t.Values;
  }

  lemma LargeEarlier(m0: Mem, m1: Mem, t: Tables)
    requires Wf(m0, t) && Wf(m1, t) && SameView(m0, t, m1, t)
    ensures HasLarge(m0, t) <==> HasLarge(m1, t)
  {
    hide Pde, Pte, Wf;
  }

  /** The last loop: words 256 to 511 of the root are taken over from the source. */
  method ShareUpper(v: Vmm, root: nat, newRoot: nat)
    requires v.Valid() && root < |v.mem| && newRoot < |v.mem| && root != newRoot
    modifies v`mem
    ensures v.Valid() && v.mem == old(v.mem)[newRoot := JoinedRoot(old(v.mem)[newRoot], old(v.mem)[root])]
  {
    ghost var m := v.mem;
    for i := 256 to 512
      invariant |v.mem| == |m|
      invariant forall f :: 0 <= f < |m| && f != newRoot ==> v.mem[f] == m[f]
      invariant forall x :: 0 <= x < 512 ==> v.mem[newRoot][x] == if 256 <= x < i then m[root][x] else m[newRoot][x]
    {
      v.mem := Put(v.mem, newRoot, i, v.mem[root][i]);
    }
    assert v.mem[newRoot] == JoinedRoot(m[newRoot], m[root]);
  }

  lemma SourceRoot(m: Mem, t: Tables, used: set<nat>)
    requires Source(m, t, used)
    ensures Wf(m, t) && L4 in t && t[L4] < |m| && t[L4] in used
  {
    assert t[L4] in t.Values;
  }
}
