/** The 2 MiB branch of `vmm_copy_pml4` (kernel/mem/vmm.c): 512 frames are allocated anywhere, filled from the
    source and mapped with one 2 MiB leaf. */
module LargeCopy {
  import opened Bits
  import opened FrameAllocator
  import opened PageEntries
  import opened PageTables
  import opened AddressSpaces
  import opened Translation
  import opened Fork

  // ----- the leaf word -----

  /** Setting a bit that is set changes nothing. */
  lemma {:induction false} OrBit(a: nat, b: nat, k: nat)
    requires b == Pow2(k) && High(a, k) % 2 == 1
    ensures BitOr(a, b) == a
    decreases k
  {
    OrHalf(a, b);
    if k == 0 {
      hide BitOr;
      OrZero(a / 2);
      OrSame(1);
    } else {
      assert b == 2 * Pow2(k - 1) && High(a / 2, k - 1) % 2 == 1;
      hide BitOr, Pow2, High;
      OrBit(a / 2, b / 2, k - 1);
      OrZero(a % 2);
    }
  }

  /** The leaf of the copy has the flags of the leaf of the source. */
  lemma LargeFlags(frame: nat, flags: Word)
    requires frame < FRAMES && FrameOf(flags) == 0 && FlagsOf(flags) == flags && Present(flags) && Large(flags)
    ensures var e := LargeWord(frame * 0x1000, flags); e < TWO64 && FrameOf(e) == frame && FlagsOf(e) == flags
  {
    hide BitOr, FrameOf, FlagsOf, Present, Pow2, High;
    SmallWord(frame, flags);
    PresentFlag(flags);
    var w := LeafWord(frame * 0x1000, flags, VMM_PRESENT);
    LowOfFlags(w, flags);
    LargeInLow(w);
    LargeInLow(flags);
    Powers();
    CutAt(w, 7, 0x80);
    OrBit(w, VMM_LARGE, 7);
  }

  lemma LowOfFlags(w: Word, flags: Word)
    requires FlagsOf(w) == flags
    ensures w % 0x1000 == flags % 0x1000
  {
    FlagFields(w);
  }

  // ----- the frames -----

  /** memcpy of `n` frames. */
  function CopyRun(m: Mem, from: nat, to: nat, n: nat): (r: Mem)
    requires from + n <= |m| && to + n <= |m|
    ensures |r| == |m| && r[to..to + n] == m[from..from + n]
    ensures forall x :: 0 <= x < |m| && !(to <= x < to + n) ==> r[x] == m[x]
  {
    m[..to] + m[from..from + n] + m[to + n..]
  }

  /** The region of `p` starts on a 2 MiB boundary. */
  lemma RegionAddress(p: Path, f: nat)
    requires InTables(p) && p.l == 0 && f + 512 <= FRAMES
    ensures var a := EntriesToVirtAddr(p);
            && a == RegionAt(p) * 0x20_0000 < TWO64 && a % 0x20_0000 == 0 && PageOf(a) == PageAt(p)
            && InRange(a, f * 0x1000, 1, true) && Base(a, true) == PageAt(p) / 512 == RegionAt(p)
  {
    hide PathOf, PageOf, EntriesToVirtAddr, AddrOffsets, RegionAt, PageAt;
    AddressRoundTrip(p);
    RegionPage(p);
    PathOfPage(p);
    PageOfStart(PageAt(p));
    SameRegion(p, p);
    Quotient(RegionAt(p) * 0x20_0000, RegionAt(p), 0, 0x20_0000);
    Quotient(f * 0x1000, f, 0, 0x1000);
  }

  lemma RegionPage(p: Path)
    requires InTables(p) && p.l == 0
    ensures RegionAt(p) < PAGES / 512 && PageAt(p) * 0x1000 == RegionAt(p) * 0x20_0000
  {
  }

  /** A 2 MiB leaf of the source: its frames are in use. */
  ghost predicate LargeSource(used: set<nat>, e: Word) {
    Present(e) && Large(e) && forall x :: FrameOf(e) <= x < FrameOf(e) + 512 ==> x in used
  }

  /** What the branch promises: the region of `p` has one 2 MiB leaf with the flags of `e`, over frames from `f`
      on that were free, that hold the bytes of the source and that the source does not share. */
  ghost predicate LargeCopied(m: Mem, t: Tables, u: set<nat>, m': Mem, t': Tables, p: Path, e: Word, f: nat)
    requires Wf(m, t) && Wf(m', t') && InTables(p)
  {
    && LargeMapped(m, t, m', t', RegionAt(p), 1, f * 0x1000, FlagsOf(e))
    && FrameOf(Pde(m', t', p)) == f && FlagsOf(Pde(m', t', p)) == FlagsOf(e)
    && f + 512 <= |m'| == |m| && FrameOf(e) + 512 <= |m|
    && Run(f, 512) !! u + t'.Values
    && m'[f..f + 512] == m[FrameOf(e)..FrameOf(e) + 512]
    && (forall x :: x in u && x < |m| && x !in t.Values ==> m'[x] == m[x])
  }

  /** The table word that `vmm_map_huge` left for the region. */
  lemma LargeLeaf(m: Mem, t: Tables, m': Mem, t': Tables, p: Path, flags: Word, f: nat)
    requires LargeMapped(m, t, m', t', RegionAt(p), 1, f * 0x1000, flags) && InTables(p) && f < FRAMES
    requires FrameOf(flags) == 0 && FlagsOf(flags) == flags && Present(flags) && Large(flags)
    ensures FrameOf(Pde(m', t', p)) == f && FlagsOf(Pde(m', t', p)) == flags
  {
    hide Wf, Pde, Pte, LargeWord, FrameOf, FlagsOf, Present, Large, RegionAt;
    LargeFlags(f, flags);
  }

  /** Tables that the mapping adds are not among the frames just filled. */
  lemma RunApart(m: Mem, t: Tables, u: set<nat>, m': Mem, t': Tables, u': set<nat>, run: set<nat>)
    requires Kept(m, t, u, m', t', u') && run <= u && run !! t.Values
    ensures run !! t'.Values
  {
  }

  /** The run is cleared and then filled from frames in use. */
  lemma FilledRun(m: Mem, u: set<nat>, cleared: Mem, from: nat, f: nat)
    requires |cleared| == |m| && from + 512 <= |m| && f + 512 <= |m| && Run(f, 512) !! u
    requires forall x :: from <= x < from + 512 ==> x in u
    requires forall x :: 0 <= x < |m| && !(f <= x < f + 512) ==> cleared[x] == m[x]
    ensures cleared[from..from + 512] == m[from..from + 512]
  {
    hide Run;
    forall x | from <= x < from + 512 ensures cleared[x] == m[x] {
      assert x !in Run(f, 512);
    }
  }

  /** The mapping leaves the filled run and the frames in use alone. */
  lemma CopiedFrames(m: Mem, t: Tables, u: set<nat>, m1: Mem, m': Mem, t': Tables, u': set<nat>, f: nat)
    requires |m1| == |m| && f + 512 <= |m| && t.Values <= u && Run(f, 512) !! u
    requires forall x :: 0 <= x < |m| && !(f <= x < f + 512) ==> m1[x] == m[x]
    requires Kept(m1, t, u + Run(f, 512), m', t', u')
    ensures |m'| == |m| && Run(f, 512) !! u + t'.Values && m'[f..f + 512] == m1[f..f + 512]
    ensures forall x :: x in u && x < |m| && x !in t.Values ==> m'[x] == m[x]
  {
    hide Run;
    RunApart(m1, t, u + Run(f, 512), m', t', u', Run(f, 512));
    forall x | f <= x < f + 512 ensures m'[x] == m1[x] {
      assert x in Run(f, 512);
    }
    forall x | x in u && x < |m| && x !in t.Values ensures m'[x] == m[x] {
      assert x !in Run(f, 512);
    }
  }

  /** The 2 MiB branch. `vmm_get_phys` on the copy gives the place of every byte if and only if the run found is
      aligned to 2 MiB and the leaf is executable. */
  method CopyLarge(v: Vmm, dst: nat, p: Path, e: Word, ghost t: Tables)
    returns (ok: bool, f: nat, ghost t': Tables)
    requires v.Space(t) && t[L4] == dst && InTables(p) && p.l == 0
    requires LargeSource(v.pmm.Used(), e)
    modifies v`mem, v.pmm, v.pmm.bitmap
    ensures v.Valid() && (!ok ==> NoFitBelow(v.pmm.bitmap[..], v.pmm.bitmap.Length, 512, 1))
    ensures ok ==> v.Space(t') && t'[L4] == dst && v.pmm.Total() == old(v.pmm.Total())
    ensures ok ==> LargeCopied(old(v.mem), t, old(v.pmm.Used()), v.mem, t', p, e, f)
    ensures ok ==> ((forall o: nat :: o < 0x20_0000 ==> TranslatesAt(v.mem, t', EntriesToVirtAddr(p), o, f * 0x1000))
                    <==> f % 512 == 0 && e < VMM_NX)
  {
    hide Wf, Pde, Pte, LargeMapped, FrameOf, FlagsOf, Present, Large, BitAnd, Run, Pmm.Used, Pmm.Total, Pmm.Valid,
      EntriesToVirtAddr, PageOf, InRange, TranslatesAt, Kept, NoFitBelow, CopyRun, SameView, RegionAt, PageAt;
    ghost var m, u := v.mem, v.pmm.Used();
    LargeInMemory(v, e);
    f := v.PmmAlloc(0x200);
    t' := t;
    if f == 0 {
      return false, 0, t;
    }
    AddrMask(e);
    FilledRun(m, u, v.mem, FrameOf(e), f);
    v.mem := CopyRun(v.mem, BitAnd(e, VMM_ADDR_MASK) / 0x1000, f, 0x200);
    ghost var m1 := v.mem;
    FreshRun(m, t, u, m1, f);
    FlagMask(e);
    LargeFlagFields(e);
    RegionAddress(p, f);
    ok, t' := v.MapAdvanced(dst, EntriesToVirtAddr(p), f * 0x1000, 1, BitAnd(e, VMM_FLAG_MASK), true, t);
    if !ok {
      AllUsedNoFit(v.pmm.bitmap[..], 512);
      return;
    }
    CopiedFrames(m, t, u, m1, v.mem, t', v.pmm.Used(), f);
    MappedFrom(m, t, m1, v.mem, t', RegionAt(p), f * 0x1000, FlagsOf(e));
    LargeLeaf(m, t, v.mem, t', p, FlagsOf(e), f);
    LargeTranslatesIff(m1, t, v.mem, t', EntriesToVirtAddr(p), 1, f * 0x1000, FlagsOf(e));
    AlignedRun(e, f);
  }

  lemma LargeInMemory(v: Vmm, e: Word)
    requires v.Valid() && LargeSource(v.pmm.Used(), e)
    ensures FrameOf(e) + 512 <= |v.mem|
  {
    hide FrameOf;
    assert FrameOf(e) + 511 in v.pmm.Used();
  }

  /** Filling a run of free frames changes no table. */
  lemma FreshRun(m: Mem, t: Tables, u: set<nat>, m1: Mem, f: nat)
    requires Wf(m, t) && t.Values <= u && Run(f, 512) !! u && |m1| == |m|
    requires forall x :: 0 <= x < |m| && !(f <= x < f + 512) ==> m1[x] == m[x]
    ensures Wf(m1, t) && SameView(m, t, m1, t)
  {
    hide Run, Pte, Pde;
    forall n | n in t ensures m1[t[n]] == m[t[n]] {
      assert t[n] in t.Values;
    }
    Stable(m, m1, t);
  }

  lemma LargeFlagFields(e: Word)
    requires Present(e) && Large(e)
    ensures var flags := FlagsOf(e);
            FrameOf(flags) == 0 && FlagsOf(flags) == flags && Present(flags) && Large(flags)
  {
    hide FrameOf, FlagsOf, Present, Large;
    FlagFields(e);
    PresentInLow(e);
    PresentInLow(FlagsOf(e));
    LargeInLow(e);
    LargeInLow(FlagsOf(e));
  }

  lemma MappedFrom(m: Mem, t: Tables, m1: Mem, m': Mem, t': Tables, base: nat, phys: nat, permissions: Word)
    requires Wf(m, t) && Wf(m1, t) && SameView(m, t, m1, t) && LargeMapped(m1, t, m', t', base, 1, phys, permissions)
    ensures LargeMapped(m, t, m', t', base, 1, phys, permissions)
  {
    hide Wf, Pte, Pde, LargeWord, RegionAt;
  }

  lemma AlignedRun(e: Word, f: nat)
    ensures f * 0x1000 % 0x20_0000 == 0 <==> f % 512 == 0
    ensures FlagsOf(e) < VMM_NX <==> e < VMM_NX
  {
    Quotient(f * 0x1000, f / 512, f % 512 * 0x1000, 0x20_0000);
    FlagFields(e);
  }
}
