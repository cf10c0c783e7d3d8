/** Address translation by software walk (`vmm_get_phys` in kernel/mem/vmm.c),
    and what it returns after a mapping. */
module Translation {
  import opened Bits
  import opened Common
  import opened PageEntries
  import opened PageTables
  import opened AddressSpaces

  const NOT_OFFSET := 0xFFFF_FFFF_FFFF_F000   // ~0xFFF, sign-extended to 64 bits
  const LARGE_OFFSET := 0x1F_FFFF

  /** `vmm_get_or_null`. */
  function GetOrNull(m: Mem, f: nat, x: nat): Option<nat>
    requires f < |m| && x < 512
  {
    var e := m[f][x];
    if BitAnd(e, VMM_PRESENT) == 0 then None else Some(BitAnd(e, VMM_ADDR_MASK) / 0x1000)
  }

  /** One level of the walk goes where the tree says. */
  lemma WalkStep(m: Mem, t: Tables, n: Node, x: nat)
    requires Wf(m, t) && n in t && !n.L1? && x < 512
    requires n.L2? ==> !Large(m[t[n]][x])
    ensures GetOrNull(m, t[n], x) == if Kid(n, x) in t then Some(t[Kid(n, x)]) else None
  {
    hide BitAnd;
    assert Linked(m, t, n, x);
    PresentMask(m[t[n]][x]);
    AddrMask(m[t[n]][x]);
  }

  /** `vmm_get_phys`; 0 stands for NULL. */
  function GetPhys(m: Mem, root: nat, addr: Word, ghost t: Tables): nat
    requires Wf(m, t) && t[L4] == root
  {
    var o := AddrOffsets(addr);
    OffsetsArePath(addr);
    WalkStep(m, t, L4, o.i);
    match GetOrNull(m, root, o.i)
    case None => 0
    case Some(pdp) =>
      WalkStep(m, t, L3(o.i), o.j);
      match GetOrNull(m, pdp, o.j)
      case None => 0
      case Some(pd) =>
        var pde := m[pd][o.k];
        LargeMask(pde);
        if BitAnd(pde, VMM_LARGE) != 0 then
          BitOr(BitAnd(pde, NOT_OFFSET), BitAnd(addr, LARGE_OFFSET))
        else
          WalkStep(m, t, L2(o.i, o.j), o.k);
          match GetOrNull(m, pd, o.k)
          case None => 0
          case Some(pt) => BitOr(BitAnd(m[pt][o.l], NOT_OFFSET), BitAnd(addr, 0xFFF))
  }

  /** The walk, in terms of the flat view. */
  ghost function PhysOf(m: Mem, t: Tables, addr: Word): nat
    requires Wf(m, t)
  {
    var p := PathOf(PageOf(addr));
    if Pde(m, t, p) != 0 then BitOr(BitAnd(Pde(m, t, p), NOT_OFFSET), BitAnd(addr, LARGE_OFFSET))
    else if L1(p.i, p.j, p.k) in t then BitOr(BitAnd(Pte(m, t, p), NOT_OFFSET), BitAnd(addr, 0xFFF))
    else 0
  }

  lemma WalkIsView(m: Mem, root: nat, addr: Word, t: Tables)
    requires Wf(m, t) && t[L4] == root
    ensures GetPhys(m, root, addr, t) == PhysOf(m, t, addr)
  {
    hide BitAnd, BitOr, PathOf, PageOf, GetOrNull, Present, Large, FrameOf;
    var p := PathOf(PageOf(addr));
    OffsetsArePath(addr);
    WalkStep(m, t, L4, p.i);
    if L3(p.i) in t {
      WalkStep(m, t, L3(p.i), p.j);
      if L2(p.i, p.j) in t {
        var e := m[t[L2(p.i, p.j)]][p.k];
        assert Linked(m, t, L2(p.i, p.j), p.k);
        LargeMask(e);
        LargeIsNotZero(e);
        if !Large(e) { WalkStep(m, t, L2(p.i, p.j), p.k); }
      } else {
        assert L1(p.i, p.j, p.k) in t ==> Parent(L1(p.i, p.j, p.k)) in t;
      }
    } else {
      assert L2(p.i, p.j) in t ==> Parent(L2(p.i, p.j)) in t;
      assert L1(p.i, p.j, p.k) in t ==> Parent(L1(p.i, p.j, p.k)) in t;
    }
  }

  lemma LargeIsNotZero(e: Word)
    ensures Large(e) ==> e != 0
  {}

  // ----- the two ors of the walk -----

  lemma OffsetOr(e: Word, addr: Word)
    ensures BitOr(BitAnd(e, NOT_OFFSET), BitAnd(addr, 0xFFF)) == e - e % 0x1000 + addr % 0x1000
  {
    hide BitAnd, BitOr, Pow2;
    Powers();
    AndField(e, NOT_OFFSET, 12, 0x1000, 52, 0x10_0000_0000_0000);
    OffsetMask(addr);
    OrDisjoint(e / 0x1000 * 0x1000, addr % 0x1000, 12, 0x1000);
  }

  lemma LargeOr(e: Word, addr: Word)
    requires FrameOf(e) % 512 == 0
    ensures BitOr(BitAnd(e, NOT_OFFSET), BitAnd(addr, LARGE_OFFSET)) == e - e % 0x1000 + addr % 0x20_0000
  {
    hide BitAnd, BitOr, Pow2, FrameOf;
    Powers();
    AndField(e, NOT_OFFSET, 12, 0x1000, 52, 0x10_0000_0000_0000);
    AndLowBits(addr, 21, 0x20_0000);
    HighPart(e);
    WholeRegions(FrameOf(e), e / VMM_NX);
    OrDisjoint(e / 0x1000 * 0x1000, addr % 0x20_0000, 21, 0x20_0000);
  }

  lemma WholeRegions(f: nat, top: nat)
    requires f % 512 == 0
    ensures (f * 0x1000 + top * VMM_NX) % 0x20_0000 == 0
  {
    Quotient(f * 0x1000 + top * VMM_NX, f / 512 + top * 0x400_0000_0000, 0, 0x20_0000);
  }

  /** A word without its low 12 bits: the frame address, and the top bit. */
  lemma HighPart(e: Word)
    ensures e - e % 0x1000 == FrameOf(e) * 0x1000 + e / VMM_NX * VMM_NX
  {
    Fields(e);
  }

  // ----- translation after a mapping -----

  lemma ByteInRange(addr: Word, size: nat, o: nat)
    requires addr % 0x1000 == 0 && PageOf(addr) + size <= PAGES && o < size * 0x1000
    ensures addr + o < TWO64
    ensures PageOf(addr + o) == PageOf(addr) + o / 0x1000 && (addr + o) % 0x1000 == o % 0x1000
  {
    var x := addr / 0x1000;
    assert addr == x * 0x1000 && x == x / PAGES * PAGES + PageOf(addr);
    assert (addr + o) / 0x1000 == x / PAGES * PAGES + (PageOf(addr) + o / 0x1000);
  }

  /** After `vmm_map`, every byte of the range translates to `phys` plus its offset, with the
      no-execute bit of the permissions left in bit 63. */
  lemma SmallTranslates(m: Mem, t: Tables, m': Mem, t': Tables, addr: Word, size: nat, phys: nat, permissions: Word,
                        o: nat)
    requires SmallMapped(m, t, m', t', PageOf(addr), size, phys, permissions)
    requires InRange(addr, phys, size, false) && FrameOf(permissions) == 0 && addr % 0x1000 == 0
    requires forall v :: PageOf(addr) <= v < PageOf(addr) + size ==> Pde(m, t, PathOf(v)) == 0
    requires o < size * 0x1000
    ensures addr + o < TWO64
    ensures GetPhys(m', t'[L4], addr + o, t') == phys + o + permissions / VMM_NX * VMM_NX
  {
    hide PathOf, PageOf, BitAnd, BitOr, FrameOf, FlagsOf, GetPhys, Linked, LeafWord, PageAt;
    ByteInRange(addr, size, o);
    var a: Word := addr + o;
    WalkIsView(m', t'[L4], a, t');
    var v, f := PageOf(a), phys / 0x1000 + o / 0x1000;
    var p := PathOf(v);
    PageOfPath(v);
    assert phys + (v - PageOf(addr)) * 0x1000 == f * 0x1000;
    assert f < FRAMES;
    SmallWord(f, permissions);
    var e := LeafWord(f * 0x1000, permissions, VMM_PRESENT);
    assert Pte(m', t', p) == e && Pde(m', t', p) == 0;
    OffsetOr(e, a);
    HighPart(e);
    TopOfSmall(f, permissions);
  }

  lemma TopOfSmall(f: nat, permissions: Word)
    requires f < FRAMES && FrameOf(permissions) == 0
    ensures var e := LeafWord(f * 0x1000, permissions, VMM_PRESENT);
            e < TWO64 && e / VMM_NX == permissions / VMM_NX
  {
    hide BitAnd, BitOr, FrameOf;
    OrTop(f * 0x1000, permissions);
    OrTop(BitOr(f * 0x1000, permissions), VMM_PRESENT);
    OrZero(permissions / VMM_NX);
  }

  /** So `vmm_get_phys` gives the physical address exactly when the page is executable. */
  lemma SmallTranslatesIff(m: Mem, t: Tables, m': Mem, t': Tables, addr: Word, size: nat, phys: nat,
                           permissions: Word, o: nat)
    requires SmallMapped(m, t, m', t', PageOf(addr), size, phys, permissions)
    requires InRange(addr, phys, size, false) && FrameOf(permissions) == 0 && addr % 0x1000 == 0
    requires forall v :: PageOf(addr) <= v < PageOf(addr) + size ==> Pde(m, t, PathOf(v)) == 0
    requires o < size * 0x1000 && addr + o < TWO64
    ensures GetPhys(m', t'[L4], addr + o, t') == phys + o <==> permissions < VMM_NX
  {
    hide PathOf, PageOf, FrameOf, GetPhys, SmallMapped, InRange, Pde;
    SmallTranslates(m, t, m', t', addr, size, phys, permissions, o);
  }

  lemma LargeByteInRange(addr: Word, size: nat, o: nat)
    requires addr % 0x20_0000 == 0 && PageOf(addr) / 512 + size <= PAGES / 512 && o < size * 0x20_0000
    ensures addr + o < TWO64
    ensures PageOf(addr + o) / 512 == PageOf(addr) / 512 + o / 0x20_0000 && (addr + o) % 0x20_0000 == o % 0x20_0000
  {
    hide PageOf;
    RegionStart(addr);
    ByteInRange(addr, size * 512, o);
    AddMultiple(PageOf(addr), o / 0x1000, 512);
    AddMultiple(addr, o, 0x20_0000);
    assert o / 0x1000 / 512 == o / 0x20_0000;
  }

  lemma RegionStart(addr: Word)
    requires addr % 0x20_0000 == 0
    ensures addr % 0x1000 == 0 && PageOf(addr) % 512 == 0
  {
    var y := addr / 0x20_0000;
    Quotient(addr, y * 512, 0, 0x1000);
    FirstOfRegion(y);
  }

  lemma FirstOfRegion(y: nat)
    ensures y * 512 % PAGES % 512 == 0
  {
    var x := y % 0x800_0000;
    Quotient(y * 512, y / 0x800_0000, x * 512, PAGES);
    Quotient(x * 512, x, 0, 512);
  }

  lemma FrameOfRegion(phys: nat, n: nat)
    requires phys % 0x20_0000 == 0
    ensures (phys / 0x1000 + n * 512) % 512 == 0
  {
    assert phys / 0x1000 == phys / 0x20_0000 * 512;
    assert phys / 0x1000 + n * 512 == (phys / 0x20_0000 + n) * 512;
  }

  lemma AddMultiple(v: nat, y: nat, d: nat)
    requires d > 0 && v % d == 0
    ensures (v + y) / d == v / d + y / d && (v + y) % d == y % d
  {
    assert v + y == (v / d + y / d) * d + y % d;
    Quotient(v + y, v / d + y / d, y % d, d);
  }

  /** The word of the 2 MiB leaf under byte `o` of a `vmm_map_huge` range, and what the walk makes of it. */
  lemma LargeLookup(m: Mem, t: Tables, m': Mem, t': Tables, addr: Word, size: nat, phys: nat, permissions: Word, o: nat)
    requires LargeMapped(m, t, m', t', PageOf(addr) / 512, size, phys, permissions)
    requires InRange(addr, phys, size, true) && FrameOf(permissions) == 0 && addr % 0x20_0000 == 0
    requires o < size * 0x20_0000
    ensures addr + o < TWO64
    ensures var e := LargeWord(phys + o / 0x20_0000 * 0x20_0000, permissions);
            && e < TWO64 && FrameOf(e) == phys / 0x1000 + o / 0x20_0000 * 512
            && e - e % 0x1000 == phys + o / 0x20_0000 * 0x20_0000 + permissions / VMM_NX * VMM_NX
            && GetPhys(m', t'[L4], addr + o, t') == BitOr(BitAnd(e, NOT_OFFSET), BitAnd(addr + o, LARGE_OFFSET))
  {
    hide PathOf, PageOf, BitAnd, BitOr, FrameOf, FlagsOf, GetPhys, Linked, LargeWord, RegionAt, Present;
    LargeByteInRange(addr, size, o);
    var a: Word := addr + o;
    WalkIsView(m', t'[L4], a, t');
    var f := phys / 0x1000 + o / 0x20_0000 * 512;
    var p := PathOf(PageOf(a));
    PageOfPath(PageOf(a));
    SameRegion(p, p);
    assert phys + (RegionAt(p) - PageOf(addr) / 512) * 0x20_0000 == f * 0x1000;
    LargeWordFields(f, permissions);
    LargeIsNotZero(LargeWord(f * 0x1000, permissions));
    HighPart(LargeWord(f * 0x1000, permissions));
    assert Pde(m', t', p) == LargeWord(f * 0x1000, permissions);
  }

  /** After `vmm_map_huge` of a 2 MiB-aligned physical range, every byte translates to its place. */
  lemma LargeTranslates(m: Mem, t: Tables, m': Mem, t': Tables, addr: Word, size: nat, phys: nat, permissions: Word,
                        o: nat)
    requires LargeMapped(m, t, m', t', PageOf(addr) / 512, size, phys, permissions)
    requires InRange(addr, phys, size, true) && FrameOf(permissions) == 0 && addr % 0x20_0000 == 0
    requires phys % 0x20_0000 == 0 && o < size * 0x20_0000
    ensures addr + o < TWO64
    ensures GetPhys(m', t'[L4], addr + o, t') == phys + o + permissions / VMM_NX * VMM_NX
  {
    hide PathOf, PageOf, BitAnd, BitOr, FrameOf, GetPhys, LargeWord, LargeMapped, InRange;
    LargeLookup(m, t, m', t', addr, size, phys, permissions, o);
    var e := LargeWord(phys + o / 0x20_0000 * 0x20_0000, permissions);
    FrameOfRegion(phys, o / 0x20_0000);
    LargeOr(e, addr + o);
    AddMultiple(addr, o, 0x20_0000);
  }

  /** With a physical start that is not 2 MiB-aligned, some byte of the range translates wrongly:
      the walk ors the offset into the frame address instead of adding it. */
  lemma LargeMisaligned(m: Mem, t: Tables, m': Mem, t': Tables, addr: Word, size: nat, phys: nat, permissions: Word)
    requires LargeMapped(m, t, m', t', PageOf(addr) / 512, size, phys, permissions)
    requires InRange(addr, phys, size, true) && FrameOf(permissions) == 0 && addr % 0x20_0000 == 0
    requires phys % 0x20_0000 != 0 && size > 0
    ensures var o := phys % 0x20_0000;
            && o < size * 0x20_0000 && addr + o < TWO64
            && GetPhys(m', t'[L4], addr + o, t') != phys + o + permissions / VMM_NX * VMM_NX
  {
    hide PathOf, PageOf, BitAnd, BitOr, FrameOf, GetPhys, LargeWord, LargeMapped, InRange, Pow2;
    var o := phys % 0x20_0000;
    LargeLookup(m, t, m', t', addr, size, phys, permissions, o);
    assert o / 0x20_0000 == 0;
    var e := LargeWord(phys, permissions);
    Powers();
    AndField(e, NOT_OFFSET, 12, 0x1000, 52, 0x10_0000_0000_0000);
    AndLowBits(addr + o, 21, 0x20_0000);
    AddMultiple(addr, o, 0x20_0000);
    AddMultiple(permissions / VMM_NX * VMM_NX, phys, 0x20_0000);
    OrOwnLow(e / 0x1000 * 0x1000, o);
  }

  lemma OrOwnLow(b: nat, o: nat)
    requires b % 0x20_0000 == o
    ensures BitOr(b, o) == b
  {
    hide BitOr, High, Low, Pow2;
    Powers();
    OrCut(b, o, 21);
    CutAt(b, 21, 0x20_0000);
    CutAt(o, 21, 0x20_0000);
    CutAt(BitOr(b, o), 21, 0x20_0000);
    OrSame(o);
    OrZero(b / 0x20_0000);
  }

  /** The walk takes `addr + o` to `phys + o`. */
  ghost predicate TranslatesAt(m: Mem, t: Tables, addr: Word, o: nat, phys: nat)
    requires Wf(m, t)
  {
    addr + o < TWO64 && GetPhys(m, t[L4], addr + o, t) == phys + o
  }

  /** The first byte of a `vmm_map_huge` range translates to `phys` with the no-execute bit kept. */
  lemma LargeFirst(m: Mem, t: Tables, m': Mem, t': Tables, addr: Word, size: nat, phys: nat, permissions: Word)
    requires LargeMapped(m, t, m', t', PageOf(addr) / 512, size, phys, permissions)
    requires InRange(addr, phys, size, true) && FrameOf(permissions) == 0 && addr % 0x20_0000 == 0 && size > 0
    ensures GetPhys(m', t'[L4], addr, t') == phys + permissions / VMM_NX * VMM_NX
  {
    hide PathOf, PageOf, BitAnd, BitOr, FrameOf, GetPhys, LargeWord, LargeMapped, InRange, Pow2;
    LargeLookup(m, t, m', t', addr, size, phys, permissions, 0);
    var e := LargeWord(phys, permissions);
    Powers();
    AndField(e, NOT_OFFSET, 12, 0x1000, 52, 0x10_0000_0000_0000);
    AndLowBits(addr, 21, 0x20_0000);
    OrZero(e / 0x1000 * 0x1000);
  }

  /** A `vmm_map_huge` range translates correctly at every byte exactly when `phys` is 2 MiB-aligned and the
      no-execute bit is clear. */
  lemma LargeTranslatesIff(m: Mem, t: Tables, m': Mem, t': Tables, addr: Word, size: nat, phys: nat, permissions: Word)
    requires Wf(m', t') && LargeMapped(m, t, m', t', PageOf(addr) / 512, size, phys, permissions)
    requires InRange(addr, phys, size, true) && FrameOf(permissions) == 0 && addr % 0x20_0000 == 0
    requires size > 0
    ensures phys % 0x20_0000 == 0 && permissions < VMM_NX <==>
            forall o: nat :: o < size * 0x20_0000 ==> TranslatesAt(m', t', addr, o, phys)
  {
    hide PathOf, PageOf, FrameOf, GetPhys, LargeMapped, InRange;
    if permissions >= VMM_NX {
      LargeFirst(m, t, m', t', addr, size, phys, permissions);
      assert !TranslatesAt(m', t', addr, 0, phys);
    } else if phys % 0x20_0000 == 0 {
      forall o: nat | o < size * 0x20_0000 ensures TranslatesAt(m', t', addr, o, phys) {
        LargeTranslates(m, t, m', t', addr, size, phys, permissions, o);
      }
    } else {
      LargeMisaligned(m, t, m', t', addr, size, phys, permissions);
      assert !TranslatesAt(m', t', addr, phys % 0x20_0000, phys);
    }
  }

  // ----- translation elsewhere -----

  /** An address whose leaf words did not change keeps its translation exactly if it is mapped, or at the
      start of a page, or no bottom table came or went over it. */
  lemma OthersKeepTranslation(m: Mem, t: Tables, m': Mem, t': Tables, addr: Word)
    requires Wf(m, t) && Wf(m', t')
    requires var p := PathOf(PageOf(addr)); Pte(m', t', p) == Pte(m, t, p) && Pde(m', t', p) == Pde(m, t, p)
    ensures var p := PathOf(PageOf(addr));
            GetPhys(m', t'[L4], addr, t') == GetPhys(m, t[L4], addr, t) <==>
            || Pte(m, t, p) != 0 || Pde(m, t, p) != 0 || addr % 0x1000 == 0
            || (L1(p.i, p.j, p.k) in t <==> L1(p.i, p.j, p.k) in t')
  {
    hide PathOf, PageOf, BitAnd, BitOr, GetPhys, Pte, Pde;
    var p := PathOf(PageOf(addr));
    if Pte(m, t, p) != 0 || Pde(m, t, p) != 0 {
      MappedTranslation(m, t, m', t', addr);
    } else {
      UnmappedTranslation(m, t, addr);
      UnmappedTranslation(m', t', addr);
    }
  }

  lemma MappedTranslation(m: Mem, t: Tables, m': Mem, t': Tables, addr: Word)
    requires Wf(m, t) && Wf(m', t')
    requires var p := PathOf(PageOf(addr)); Pte(m', t', p) == Pte(m, t, p) && Pde(m', t', p) == Pde(m, t, p)
    requires var p := PathOf(PageOf(addr)); Pte(m, t, p) != 0 || Pde(m, t, p) != 0
    ensures GetPhys(m', t'[L4], addr, t') == GetPhys(m, t[L4], addr, t)
  {
    hide PathOf, PageOf, BitAnd, BitOr, GetPhys;
    WalkIsView(m, t[L4], addr, t);
    WalkIsView(m', t'[L4], addr, t');
  }

  /** For an unmapped address the walk returns the offset in the page, not NULL, as soon as
      a bottom table covers the address. */
  lemma UnmappedTranslation(m: Mem, t: Tables, addr: Word)
    requires Wf(m, t)
    requires var p := PathOf(PageOf(addr)); Pte(m, t, p) == 0 && Pde(m, t, p) == 0
    ensures var p := PathOf(PageOf(addr));
            GetPhys(m, t[L4], addr, t) == if L1(p.i, p.j, p.k) in t then addr % 0x1000 else 0
  {
    hide PathOf, PageOf, BitAnd, BitOr, GetPhys;
    WalkIsView(m, t[L4], addr, t);
    OffsetOr(0, addr);
  }
}
