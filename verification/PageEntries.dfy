/** Page-table words of kernel/mem/vmm.c: the present and large bits, the
    address and flag fields, and the four 9-bit indices of a virtual address
    (section 4.5 of the Intel SDM, volume 3A). */
module PageEntries {
  import opened Bits

  const VMM_PRESENT := 0x1
  const VMM_WRITE := 0x2
  const VMM_USER := 0x4
  const VMM_LARGE := 0x80
  const VMM_NX := 0x8000_0000_0000_0000
  const VMM_FLAG_MASK := 0x8000_0000_0000_0FFF
  const VMM_ADDR_MASK := 0x7FFF_FFFF_FFFF_F000

  const FRAMES := 0x8_0000_0000_0000   // frame numbers that fit the address field
  const PAGES := 0x10_0000_0000        // virtual page numbers of a 48-bit address

  predicate Present(e: Word) { e % 2 == 1 }

  predicate Large(e: Word) { e / 0x80 % 2 == 1 }

  function FrameOf(e: Word): (f: nat)
    ensures f < FRAMES
  {
    e / 0x1000 % FRAMES
  }

  function FlagsOf(e: Word): Word { e % 0x1000 + e / VMM_NX * VMM_NX }

  /** The offset, address and top fields make up the word. */
  lemma Fields(e: Word)
    ensures e / VMM_NX < 2 && e % VMM_NX == FrameOf(e) * 0x1000 + e % 0x1000
    ensures e == FrameOf(e) * 0x1000 + FlagsOf(e)
  {}

  lemma FieldsOf(top: nat, frame: nat, low: nat)
    requires top < 2 && frame < FRAMES && low < 0x1000
    ensures var e := top * VMM_NX + frame * 0x1000 + low;
            e < TWO64 && e / VMM_NX == top && FrameOf(e) == frame && e % 0x1000 == low
  {
    var e := top * VMM_NX + frame * 0x1000 + low;
    assert e / 0x1000 == top * FRAMES + frame;
  }

  lemma FlagFields(e: Word)
    ensures FrameOf(FlagsOf(e)) == 0 && FlagsOf(FlagsOf(e)) == FlagsOf(e)
    ensures FlagsOf(e) % 0x1000 == e % 0x1000 && FlagsOf(e) / VMM_NX == e / VMM_NX
  {
    Fields(e);
    FieldsOf(e / VMM_NX, 0, e % 0x1000);
  }

  // ----- the masks of the code select exactly these fields -----

  lemma PresentMask(e: Word)
    ensures BitAnd(e, VMM_PRESENT) != 0 <==> Present(e)
  {
    hide BitAnd, BitOr, High, Low, Pow2;
    Powers();
    AndField(e, VMM_PRESENT, 0, 1, 1, 2);
  }

  lemma LargeMask(e: Word)
    ensures BitAnd(e, VMM_LARGE) != 0 <==> Large(e)
  {
    hide BitAnd, BitOr, High, Low, Pow2;
    Powers();
    AndField(e, VMM_LARGE, 7, 0x80, 1, 2);
  }

  lemma AddrMask(e: Word)
    ensures BitAnd(e, VMM_ADDR_MASK) == FrameOf(e) * 0x1000
  {
    hide BitAnd, BitOr, High, Low, Pow2;
    Powers();
    AndField(e, VMM_ADDR_MASK, 12, 0x1000, 51, FRAMES);
  }

  lemma FlagMask(e: Word)
    ensures BitAnd(e, VMM_FLAG_MASK) == FlagsOf(e)
  {
    hide BitAnd, BitOr, High, Low, Pow2;
    FlagMaskCut(e);
    OneBitMask(e / VMM_NX);
    OffsetMask(e % VMM_NX);
    LowOfLow(e);
  }

  lemma OneBitMask(a: nat)
    ensures BitAnd(a, 1) == a % 2
  {
    hide BitAnd, BitOr, High, Low, Pow2;
    Powers();
    AndLowBits(a, 1, 2);
  }

  lemma OffsetMask(a: nat)
    ensures BitAnd(a, 0xFFF) == a % 0x1000
  {
    hide BitAnd, BitOr, High, Low, Pow2;
    Powers();
    AndLowBits(a, 12, 0x1000);
  }

  lemma LowOfLow(e: Word)
    ensures e % VMM_NX % 0x1000 == e % 0x1000 && e / VMM_NX < 2
  {}

  lemma FlagMaskCut(e: Word)
    ensures BitAnd(e, VMM_FLAG_MASK) / VMM_NX == BitAnd(e / VMM_NX, 1)
    ensures BitAnd(e, VMM_FLAG_MASK) % VMM_NX == BitAnd(e % VMM_NX, 0xFFF)
  {
    hide BitAnd, BitOr, High, Low, Pow2;
    Powers();
    AndCut(e, VMM_FLAG_MASK, 63);
    CutAt(VMM_FLAG_MASK, 63, VMM_NX);
    CutAt(e, 63, VMM_NX);
    CutAt(BitAnd(e, VMM_FLAG_MASK), 63, VMM_NX);
  }

  lemma AndLowBits(a: nat, w: nat, q: nat)
    requires q == Pow2(w)
    ensures BitAnd(a, q - 1) == a % q
  {
    hide BitAnd, BitOr, High, Low, Pow2;
    AndLow(a, w);
    CutAt(a, w, q);
  }

  /** The word written for a leaf: `phys | permissions | extra`. */
  function LeafWord(phys: nat, permissions: Word, extra: Word): nat {
    BitOr(BitOr(phys, permissions), extra)
  }

  /** `|` works on the offset, frame and top-bit fields separately. */
  lemma OrOffset(a: Word, b: Word)
    ensures BitOr(a, b) % 0x1000 == BitOr(a % 0x1000, b % 0x1000)
    ensures BitOr(a, b) / 0x1000 == BitOr(a / 0x1000, b / 0x1000)
  {
    hide BitAnd, BitOr, High, Low, Pow2;
    Powers();
    OrCut(a, b, 12);
    CutAt(a, 12, 0x1000);
    CutAt(b, 12, 0x1000);
    CutAt(BitOr(a, b), 12, 0x1000);
  }

  lemma OrTop(a: Word, b: Word)
    ensures BitOr(a, b) < TWO64
    ensures BitOr(a, b) / VMM_NX == BitOr(a / VMM_NX, b / VMM_NX)
  {
    hide BitAnd, BitOr, High, Low, Pow2;
    Powers();
    OrCut(a, b, 63);
    CutAt(a, 63, VMM_NX);
    CutAt(b, 63, VMM_NX);
    CutAt(BitOr(a, b), 63, VMM_NX);
    OneBit(a / VMM_NX, b / VMM_NX);
  }

  lemma OneBit(a: nat, b: nat)
    requires a < 2 && b < 2
    ensures BitOr(a, b) < 2
  {}

  lemma OrFrame(a: Word, b: Word)
    ensures BitOr(a, b) < TWO64
    ensures FrameOf(BitOr(a, b)) == BitOr(FrameOf(a), FrameOf(b))
  {
    hide BitAnd, BitOr, High, Low, Pow2;
    OrOffset(a, b);
    OrTop(a, b);
    Powers();
    var x, y := a / 0x1000, b / 0x1000;
    OrCut(x, y, 51);
    CutAt(x, 51, FRAMES);
    CutAt(y, 51, FRAMES);
    CutAt(BitOr(x, y), 51, FRAMES);
  }

  lemma OrFlags(a: Word, b: Word)
    ensures BitOr(a, b) < TWO64
    ensures BitOr(FlagsOf(a), FlagsOf(b)) < TWO64
    ensures FlagsOf(BitOr(a, b)) == BitOr(FlagsOf(a), FlagsOf(b))
  {
    hide BitAnd, BitOr, High, Low, Pow2;
    OrOffset(a, b);
    OrTop(a, b);
    var s, t := FlagsOf(a), FlagsOf(b);
    FlagFields(a);
    FlagFields(b);
    OrOffset(s, t);
    OrFrame(s, t);
    OrTop(s, t);
    Fields(BitOr(s, t));
  }

  /** The word written for a 2 MiB leaf. */
  function LargeWord(phys: nat, permissions: Word): nat {
    BitOr(LeafWord(phys, permissions, VMM_PRESENT), VMM_LARGE)
  }

  lemma LeafWordFields(frame: nat, permissions: Word, extra: Word)
    requires frame < FRAMES && FrameOf(permissions) == 0 && FrameOf(extra) == 0
    ensures BitOr(permissions, extra) < TWO64
    ensures LeafWord(frame * 0x1000, permissions, extra) < TWO64
    ensures FrameOf(LeafWord(frame * 0x1000, permissions, extra)) == frame
    ensures FlagsOf(LeafWord(frame * 0x1000, permissions, extra)) == BitOr(permissions, extra)
  {
    hide BitAnd, BitOr, High, Low, Pow2;
    var e := frame * 0x1000;
    FieldsOf(0, frame, 0);
    OrZero(frame);
    OrZero(permissions);
    OrFrame(e, permissions);
    OrFlags(e, permissions);
    OnlyFlags(permissions);
    OnlyFlags(extra);
    var w := BitOr(e, permissions);
    OrFrame(w, extra);
    OrFlags(w, extra);
  }

  lemma OnlyFlags(e: Word)
    requires FrameOf(e) == 0
    ensures FlagsOf(e) == e
  {
    Fields(e);
  }

  /** A 4 KiB leaf is present, points to its frame and carries its permissions. */
  lemma SmallWord(frame: nat, permissions: Word)
    requires frame < FRAMES && FrameOf(permissions) == 0
    ensures BitOr(permissions, VMM_PRESENT) < TWO64
    ensures var e := LeafWord(frame * 0x1000, permissions, VMM_PRESENT);
            e < TWO64 && Present(e) && FrameOf(e) == frame && FlagsOf(e) == BitOr(permissions, VMM_PRESENT)
  {
    hide BitAnd, BitOr, High, Low, Pow2, FrameOf, FlagsOf;
    assert FrameOf(VMM_PRESENT) == 0 by { FieldsOf(0, 0, 1); }
    LeafWordFields(frame, permissions, VMM_PRESENT);
    assert frame * 0x1000 < TWO64;
    OrTop(frame * 0x1000, permissions);
    OrBits(BitOr(frame * 0x1000, permissions), VMM_PRESENT);
  }

  /** So does a 2 MiB leaf, which is also large. */
  lemma LargeWordFields(frame: nat, permissions: Word)
    requires frame < FRAMES && FrameOf(permissions) == 0
    ensures var e := LargeWord(frame * 0x1000, permissions);
            e < TWO64 && Present(e) && Large(e) && FrameOf(e) == frame && e / VMM_NX == permissions / VMM_NX
    ensures FlagsOf(LargeWord(frame * 0x1000, permissions)) == BitOr(BitOr(permissions, VMM_PRESENT), VMM_LARGE)
  {
    hide BitAnd, BitOr, High, Low, Pow2, FrameOf, FlagsOf, Large;
    SmallWord(frame, permissions);
    var w := LeafWord(frame * 0x1000, permissions, VMM_PRESENT);
    assert FrameOf(VMM_LARGE) == 0 by { FieldsOf(0, 0, 0x80); }
    LargeInLow(VMM_LARGE);
    OrBits(w, VMM_LARGE);
    OnlyFlags(VMM_LARGE);
    OrFlags(w, VMM_LARGE);
    OrFrame(w, VMM_LARGE);
    OrZero(frame);
    OrTop(w, VMM_LARGE);
    OrTop(frame * 0x1000, permissions);
    OrTop(BitOr(frame * 0x1000, permissions), VMM_PRESENT);
    OrZero(permissions / VMM_NX);
  }

  /** The word that links a table: `frame | WRITE | USER | PRESENT`. */
  lemma TableWord(frame: nat)
    requires frame < FRAMES
    ensures BitOr(frame * 0x1000, BitOr(BitOr(VMM_WRITE, VMM_USER), VMM_PRESENT)) == frame * 0x1000 + 7 < TWO64
  {
    hide BitAnd, BitOr, High, Low, Pow2;
    TableFlags();
    Powers();
    OrDisjoint(frame * 0x1000, 7, 12, 0x1000);
  }

  lemma TableWordFields(frame: nat)
    requires frame < FRAMES
    ensures frame * 0x1000 + 7 < TWO64
    ensures var e := frame * 0x1000 + 7; FrameOf(e) == frame && Present(e) && !Large(e)
  {
    hide *;
    var e := frame * 0x1000 + 7;
    FieldsOf(0, frame, 7);
    LargeInLow(e);
    PresentInLow(e);
  }

  lemma PresentInLow(e: Word)
    ensures Present(e) <==> e % 0x1000 % 2 == 1
  {
    var h, r := e / 0x1000, e % 0x1000;
    Quotient(e, 0x800 * h + r / 2, r % 2, 2);
  }

  lemma LargeInLow(e: Word)
    ensures Large(e) <==> e % 0x1000 / 0x80 % 2 == 1
  {
    var h, r := e / 0x1000, e % 0x1000;
    var x := r / 0x80;
    Quotient(e, 0x20 * h + x, r % 0x80, 0x80);
    Quotient(0x20 * h + x, 0x10 * h + x / 2, x % 2, 2);
  }

  lemma TableFlags()
    ensures BitOr(BitOr(VMM_WRITE, VMM_USER), VMM_PRESENT) == 7
  {}

  /** Single bits of an or. */
  lemma OrBits(a: Word, b: Word)
    ensures BitOr(a, b) < TWO64
    ensures Present(BitOr(a, b)) <==> Present(a) || Present(b)
    ensures Large(BitOr(a, b)) <==> Large(a) || Large(b)
  {
    hide BitAnd, BitOr, High, Low, Pow2;
    OrTop(a, b);
    OrCut(a, b, 7);
    Powers();
    CutAt(a, 7, 0x80);
    CutAt(b, 7, 0x80);
    CutAt(BitOr(a, b), 7, 0x80);
    OrOdd(a, b);
    OrOdd(a / 0x80, b / 0x80);
  }

  lemma OrOdd(a: nat, b: nat)
    ensures BitOr(a, b) % 2 == 1 <==> a % 2 == 1 || b % 2 == 1
  {}

  // ----- virtual addresses -----

  /** The four table indices of a virtual page, page-map level 4 first. */
  datatype Path = Path(i: nat, j: nat, k: nat, l: nat)

  ghost predicate InTables(p: Path) { p.i < 512 && p.j < 512 && p.k < 512 && p.l < 512 }

  /** The 36-bit virtual page number. */
  function PageOf(addr: Word): (v: nat)
    ensures v < PAGES
  {
    addr / 0x1000 % PAGES
  }

  function PathOf(v: nat): (p: Path)
    requires v < PAGES
    ensures InTables(p)
  {
    Path(v / 512 / 512 / 512, v / 512 / 512 % 512, v / 512 % 512, v % 512)
  }

  /** The number of the 2 MiB region of a page, and the number of the page. */
  function RegionAt(p: Path): nat { (p.i * 512 + p.j) * 512 + p.k }

  function PageAt(p: Path): nat { RegionAt(p) * 512 + p.l }

  lemma PageOfPath(v: nat)
    requires v < PAGES
    ensures PageAt(PathOf(v)) == v
  {}

  lemma PathOfPage(p: Path)
    requires InTables(p)
    ensures PageAt(p) < PAGES && PathOf(PageAt(p)) == p
  {
    assert PageAt(p) / 512 == RegionAt(p);
    assert PageAt(p) / 512 / 512 == p.i * 512 + p.j;
  }

  /** The masks and shifts of `get_addr_offsets`. */
  function AddrOffsets(addr: Word): Path {
    Path(BitAnd(addr, 0x1FF * 0x80_0000_0000) / 0x80_0000_0000,
         BitAnd(addr, 0x1FF * 0x4000_0000) / 0x4000_0000,
         BitAnd(addr, 0x1FF * 0x20_0000) / 0x20_0000,
         BitAnd(addr, 0x1FF * 0x1000) / 0x1000)
  }

  /** The shifts and ors of `vmm_entries_to_virt_addr`. */
  function EntriesToVirtAddr(p: Path): nat {
    BitOr(BitOr(BitOr(BitAnd(p.i, 0x1FF) * 0x80_0000_0000,
                      BitAnd(p.j, 0x1FF) * 0x4000_0000),
                BitAnd(p.k, 0x1FF) * 0x20_0000),
          BitAnd(p.l, 0x1FF) * 0x1000)
  }

  lemma OffsetsArePath(addr: Word)
    ensures AddrOffsets(addr) == PathOf(PageOf(addr))
  {
    hide BitAnd, BitOr, High, Low, Pow2;
    Powers();
    AndField(addr, 0x1FF * 0x80_0000_0000, 39, 0x80_0000_0000, 9, 512);
    AndField(addr, 0x1FF * 0x4000_0000, 30, 0x4000_0000, 9, 512);
    AndField(addr, 0x1FF * 0x20_0000, 21, 0x20_0000, 9, 512);
    AndField(addr, 0x1FF * 0x1000, 12, 0x1000, 9, 512);
    IndexFields(addr);
  }

  lemma IndexFields(addr: Word)
    ensures var p := PathOf(PageOf(addr));
            && p.i == addr / 0x80_0000_0000 % 512 && p.j == addr / 0x4000_0000 % 512
            && p.k == addr / 0x20_0000 % 512 && p.l == addr / 0x1000 % 512
  {
    var x := addr / 0x1000;
    assert addr / 0x20_0000 == x / 512;
    assert addr / 0x4000_0000 == addr / 0x20_0000 / 512;
    assert addr / 0x80_0000_0000 == addr / 0x4000_0000 / 512;
    Strip36(x);
    Strip27(x / 512);
    Strip18(x / 512 / 512);
  }

  lemma Strip36(x: nat)
    ensures x % PAGES / 512 == x / 512 % 0x800_0000 && x % PAGES % 512 == x % 512
  {}

  lemma Strip27(x: nat)
    ensures x % 0x800_0000 / 512 == x / 512 % 0x4_0000 && x % 0x800_0000 % 512 == x % 512
  {}

  lemma Strip18(x: nat)
    ensures x % 0x4_0000 / 512 == x / 512 % 512 && x % 0x4_0000 % 512 == x % 512
  {}

  lemma VirtAddrOfEntries(p: Path)
    requires InTables(p)
    ensures EntriesToVirtAddr(p) == PageAt(p) * 0x1000
  {
    hide BitAnd, BitOr, High, Low, Pow2;
    IndexMask(p.i);
    IndexMask(p.j);
    IndexMask(p.k);
    IndexMask(p.l);
    OrThree(p.i, p.j, p.k, p.l);
  }

  lemma IndexMask(x: nat)
    requires x < 512
    ensures BitAnd(x, 0x1FF) == x
  {
    hide BitAnd, BitOr, High, Low, Pow2;
    Powers();
    AndLowBits(x, 9, 512);
  }

  lemma OrThree(i: nat, j: nat, k: nat, l: nat)
    requires j < 512 && k < 512 && l < 512
    ensures BitOr(BitOr(BitOr(i * 0x80_0000_0000, j * 0x4000_0000), k * 0x20_0000), l * 0x1000)
            == (((i * 512 + j) * 512 + k) * 512 + l) * 0x1000
  {
    hide BitAnd, BitOr, High, Low, Pow2;
    Or39(i, j);
    Or30(i * 512 + j, k);
    Or21((i * 512 + j) * 512 + k, l);
  }

  lemma Or39(x: nat, y: nat)
    requires y < 512
    ensures BitOr(x * 0x80_0000_0000, y * 0x4000_0000) == (x * 512 + y) * 0x4000_0000
  {
    hide BitAnd, BitOr, High, Low, Pow2;
    Powers();
    OrIndex(x * 0x80_0000_0000, y, 30, 0x4000_0000, 0x80_0000_0000);
  }

  lemma Or30(x: nat, y: nat)
    requires y < 512
    ensures BitOr(x * 0x4000_0000, y * 0x20_0000) == (x * 512 + y) * 0x20_0000
  {
    hide BitAnd, BitOr, High, Low, Pow2;
    Powers();
    OrIndex(x * 0x4000_0000, y, 21, 0x20_0000, 0x4000_0000);
  }

  lemma Or21(x: nat, y: nat)
    requires y < 512
    ensures BitOr(x * 0x20_0000, y * 0x1000) == (x * 512 + y) * 0x1000
  {
    hide BitAnd, BitOr, High, Low, Pow2;
    Powers();
    OrIndex(x * 0x20_0000, y, 12, 0x1000, 0x20_0000);
  }

  lemma {:induction false} OrIndex(a: nat, y: nat, k: nat, p: nat, d: nat)
    requires y < 512 && p == Pow2(k) && d == 512 * p && d == Pow2(k + 9) && a % d == 0
    ensures BitOr(a, y * p) == a + y * p
  {
    hide BitAnd, BitOr, High, Low, Pow2;
    MulStep(y, 512, p);
    OrDisjoint(a, y * p, k + 9, d);
  }

  /** Splitting an address into indices and putting it together again are inverse:
      every index tuple comes back, and every page of a canonical address comes back. */
  lemma AddressRoundTrip(p: Path)
    requires InTables(p)
    ensures EntriesToVirtAddr(p) == PageAt(p) * 0x1000 < TWO64
    ensures AddrOffsets(EntriesToVirtAddr(p)) == p
  {
    hide BitAnd, BitOr, High, Low, Pow2;
    var v := PageAt(p);
    VirtAddrOfEntries(p);
    PathOfPage(p);
    PageOfStart(v);
    OffsetsArePath(v * 0x1000);
  }

  lemma PageRoundTrip(addr: Word)
    ensures EntriesToVirtAddr(AddrOffsets(addr)) == PageOf(addr) * 0x1000
  {
    hide BitAnd, BitOr, High, Low, Pow2;
    var v := PageOf(addr);
    OffsetsArePath(addr);
    VirtAddrOfEntries(PathOf(v));
    PageOfPath(v);
  }

  lemma PageOfStart(v: nat)
    requires v < PAGES
    ensures v * 0x1000 < TWO64 && PageOf(v * 0x1000) == v
  {}
}
