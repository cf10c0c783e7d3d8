/** The user stack of a new thread (kernel/tasking/thread.c): four frames with the image, mapped below the
    top of the lower half, above a guard page that is unmapped. */
module StackMapping {
  import opened Bits
  import opened ByteSeqs
  import opened FrameAllocator
  import opened PageEntries
  import opened PageTables
  import opened AddressSpaces
  import opened Translation
  import opened Unmapping
  import opened ExecStack
  import opened UserLoads

  // ----- where the stack is -----

  /** The number of the lowest page of the stack of thread `tid`; the page below it is the guard page. */
  function BottomPage(tid: nat): (v: nat)
    requires tid < 256
    ensures 0 < v < PAGES - 4
  {
    0x8_0000_0000 - 5 * tid - 4
  }

  /** The lowest user address of the stack. */
  function Bottom(tid: nat): (b: Word)
    requires tid < 256
  {
    BottomPage(tid) * 0x1000
  }

  /** The addresses of the source, computed from the top downward. */
  lemma SourceAddresses(tid: nat)
    requires tid < 256
    ensures var guard := STACK_LOCATION_TOP - (0x1000 * 4 + 0x1000) * (tid + 1);
            && guard >= 0 && guard + 0x1000 == Bottom(tid)
            && PageOf(guard) == BottomPage(tid) - 1 && PageOf(Bottom(tid)) == BottomPage(tid)
            && Bottom(tid) % 0x1000 == 0 && Bottom(tid) % 16 == 0 && Bottom(tid) + STACK_BYTES < TWO64
  {
    var guard := STACK_LOCATION_TOP - (0x1000 * 4 + 0x1000) * (tid + 1);
    assert guard == (BottomPage(tid) - 1) * 0x1000;
    assert Bottom(tid) == 16 * (BottomPage(tid) * 0x100);
  }

  /** The bottom table over the guard page. */
  ghost function GuardTable(tid: nat): Node
    requires tid < 256
  {
    var p := PathOf(BottomPage(tid) - 1);
    L1(p.i, p.j, p.k)
  }

  /** The guard page shares its bottom table with the stack, except for thread 204, whose stack starts a table. */
  lemma GuardShares(tid: nat)
    requires tid < 256 && tid != 204
    ensures var p := PathOf(BottomPage(tid)); GuardTable(tid) == L1(p.i, p.j, p.k)
  {
    var v := BottomPage(tid);
    assert v % 512 != 0;
    assert (v - 1) / 512 == v / 512;
  }

  lemma GuardApart()
    ensures GuardTable(204) !in Spines(BottomPage(204), 4)
  {
    hide Spine;
    var v := BottomPage(204);
    assert v == 0x7_FFFF_FC00;
    NotInSpine(204, v);
    NotInSpine(204, v + 1);
    NotInSpine(204, v + 2);
    NotInSpine(204, v + 3);
    hide PathOf;
    assert Spines(v, 1) == Spine(PathOf(v));
    assert Spines(v, 2) == Spines(v, 1) + Spine(PathOf(v + 1));
    assert Spines(v, 3) == Spines(v, 2) + Spine(PathOf(v + 2));
    assert Spines(v, 4) == Spines(v, 3) + Spine(PathOf(v + 3));
  }

  lemma NotInSpine(tid: nat, v: nat)
    requires tid < 256 && v < PAGES && v / 512 != (BottomPage(tid) - 1) / 512
    ensures GuardTable(tid) !in Spine(PathOf(v))
  {
  }

  // ----- the image in physical memory -----

  /** Memory with the four pages of `s` in the frames from `f` on. */
  function WithImage(m: Mem, f: nat, s: seq<Byte>): (r: Mem)
    requires |s| == STACK_BYTES && f + 4 <= |m|
    ensures |r| == |m| && forall x :: 0 <= x < |m| && !(f <= x < f + 4) ==> r[x] == m[x]
  {
    m[f := PageWords(s[..0x1000])][f + 1 := PageWords(s[0x1000..0x2000])]
     [f + 2 := PageWords(s[0x2000..0x3000])][f + 3 := PageWords(s[0x3000..])]
  }

  lemma ImageByte(m: Mem, f: nat, s: seq<Byte>, o: nat)
    requires |s| == STACK_BYTES && f + 4 <= |m| && o < STACK_BYTES
    ensures PhysByte(WithImage(m, f, s), f * 0x1000 + o) == s[o]
  {
    hide WordByte, PageWords, WithImage;
    var r, a, k := WithImage(m, f, s), f * 0x1000 + o, o / 0x1000;
    PlaceOf(f, o);
    var page := s[0x1000 * k..0x1000 * k + 0x1000];
    ImagePage(m, f, s, k);
    PageByte(page, o % 0x1000);
  }

  lemma PlaceOf(f: nat, o: nat)
    requires o < STACK_BYTES
    ensures var a := f * 0x1000 + o;
            a / 0x1000 == f + o / 0x1000 && a % 0x1000 == o % 0x1000 && a % 8 == o % 0x1000 % 8 && o / 0x1000 < 4
  {
    var a, q, r := f * 0x1000 + o, o / 0x1000, o % 0x1000;
    assert a == (f + q) * 0x1000 + r;
    Quotient(a, f + q, r, 0x1000);
    assert a == ((f + q) * 512 + r / 8) * 8 + r % 8;
    Quotient(a, (f + q) * 512 + r / 8, r % 8, 8);
  }

  lemma ImagePage(m: Mem, f: nat, s: seq<Byte>, k: nat)
    requires |s| == STACK_BYTES && f + 4 <= |m| && k < 4
    ensures WithImage(m, f, s)[f + k] == PageWords(s[0x1000 * k..0x1000 * k + 0x1000])
  {
    hide PageWords;
    assert s[0x3000..] == s[0x3000..0x4000];
    assert k == 0 || k == 1 || k == 2 || k == 3;
  }

  // ----- from the mapping to the program's view -----

  lemma BottomInRange(tid: nat, f: nat)
    requires tid < 256 && f + 4 <= FRAMES
    ensures InRange(Bottom(tid), f * 0x1000, 4, false) && Base(Bottom(tid), false) == BottomPage(tid) && FrameOf(7) == 0
  {
    SourceAddresses(tid);
  }

  /** Through the mapping, byte `o` above the bottom of the stack is byte `o` of the four frames. */
  lemma StackTranslates(m: Mem, t: Tables, m': Mem, t': Tables, tid: nat, f: nat, o: nat)
    requires tid < 256 && o < STACK_BYTES && f + 4 <= FRAMES
    requires SmallMapped(m, t, m', t', BottomPage(tid), 4, f * 0x1000, 7)
    requires NoLargeHere(m, t, tid)
    ensures Bottom(tid) + o < TWO64 && GetPhys(m', t'[L4], Bottom(tid) + o, t') == f * 0x1000 + o
  {
    hide Pde, PathOf, PageOf, FrameOf, SmallMapped, InRange, GetPhys;
    SourceAddresses(tid);
    BottomInRange(tid, f);
    SmallTranslates(m, t, m', t', Bottom(tid), 4, f * 0x1000, 7, o);
  }

  /** No 2 MiB page lies over the stack. */
  ghost predicate NoLargeHere(m: Mem, t: Tables, tid: nat)
    requires Wf(m, t) && tid < 256
  {
    forall v :: BottomPage(tid) <= v < BottomPage(tid) + 4 ==> Pde(m, t, PathOf(v)) == 0
  }

  /** The four frames hold the image: they are in memory, they are no tables, and their bytes are `s`. */
  ghost predicate HoldsImage(m: Mem, t: Tables, f: nat, s: seq<Byte>) {
    && f + 4 <= |m| <= FRAMES && |s| == STACK_BYTES
    && (forall x :: f <= x < f + 4 ==> x !in t.Values)
    && (forall o :: 0 <= o < STACK_BYTES ==> PhysByte(m, f * 0x1000 + o) == s[o])
  }

  /** Memory that differs only in tables still holds the image. */
  lemma ImageKept(m: Mem, t: Tables, m': Mem, t': Tables, f: nat, s: seq<Byte>)
    requires HoldsImage(m, t, f, s) && |m'| == |m| && (forall x :: f <= x < f + 4 ==> x !in t'.Values)
    requires forall x :: 0 <= x < |m| && x !in t'.Values ==> m'[x] == m[x]
    ensures HoldsImage(m', t', f, s)
  {
    hide WordByte;
    forall o | 0 <= o < STACK_BYTES ensures PhysByte(m', f * 0x1000 + o) == s[o] {
      var a := f * 0x1000 + o;
      assert PhysByte(m, a) == s[o];
      assert f <= a / 0x1000 < f + 4;
    }
  }

  /** Every byte of the stack translates to its place in the four frames. */
  ghost predicate TranslatesStack(m: Mem, t: Tables, tid: nat, f: nat)
    requires Wf(m, t) && tid < 256
  {
    forall o: nat :: o < STACK_BYTES ==> TranslatesAt(m, t, Bottom(tid), o, f * 0x1000)
  }

  /** A program whose stack translates to frames with the image sees the image. */
  lemma ImageShows(m: Mem, t: Tables, tid: nat, f: nat, s: seq<Byte>)
    requires Wf(m, t) && tid < 256 && HoldsImage(m, t, f, s) && TranslatesStack(m, t, tid, f)
    ensures Shows(m, t, Bottom(tid), s)
  {
    hide PhysByte, GetPhys, Wf;
    forall o | 0 <= o < |s| ensures LoadByte(m, t, Bottom(tid) + o) == s[o] {
      assert TranslatesAt(m, t, Bottom(tid), o, f * 0x1000);
    }
  }

  lemma MappedStack(m: Mem, t: Tables, m': Mem, t': Tables, tid: nat, f: nat)
    requires tid < 256 && f + 4 <= FRAMES
    requires SmallMapped(m, t, m', t', BottomPage(tid), 4, f * 0x1000, 7) && NoLargeHere(m, t, tid)
    ensures TranslatesStack(m', t', tid, f)
  {
    hide GetPhys, SmallMapped, NoLargeHere;
    MappedWf(m, t, m', t', tid, f);
    forall o: nat | o < STACK_BYTES ensures TranslatesAt(m', t', Bottom(tid), o, f * 0x1000) {
      StackTranslates(m, t, m', t', tid, f, o);
    }
  }

  lemma MappedWf(m: Mem, t: Tables, m': Mem, t': Tables, tid: nat, f: nat)
    requires tid < 256 && SmallMapped(m, t, m', t', BottomPage(tid), 4, f * 0x1000, 7)
    ensures Wf(m, t) && Wf(m', t')
  {
  }

  /** Clearing the guard page, or nothing, does not change the translation of the stack. */
  lemma ClearedStack(m: Mem, m': Mem, t: Tables, tid: nat, f: nat, limit: nat)
    requires tid < 256 && Wf(m, t) && Wf(m', t) && TranslatesStack(m, t, tid, f)
    requires Cleared(m, m', t, BottomPage(tid) - 1, limit) && limit <= BottomPage(tid)
    ensures TranslatesStack(m', t, tid, f)
  {
    hide GetPhys, Wf, Pte, Pde, PathOf, PageOf, PageAt;
    forall o: nat | o < STACK_BYTES ensures TranslatesAt(m', t, Bottom(tid), o, f * 0x1000) {
      StackPage(tid, o);
      PageOfPath(PageOf(Bottom(tid) + o));
      OthersKeepTranslation(m, t, m', t, Bottom(tid) + o);
      assert TranslatesAt(m, t, Bottom(tid), o, f * 0x1000);
    }
  }

  lemma StackPage(tid: nat, o: nat)
    requires tid < 256 && o < STACK_BYTES
    ensures Bottom(tid) + o < TWO64 && BottomPage(tid) <= PageOf(Bottom(tid) + o) < BottomPage(tid) + 4
  {
    assert (Bottom(tid) + o) / 0x1000 == BottomPage(tid) + o / 0x1000;
  }

  // ----- the guard page -----

  /** The unmapping of the guard page succeeds exactly if a bottom table covers the page. It is refused
      exactly if a 2 MiB page does. */
  lemma GuardDoneIff(r: Outcome, m: Mem, m': Mem, t: Tables, tid: nat, done: nat)
    requires tid < 256 && Wf(m, t) && Wf(m', t) && OnlyClears(m, m', t) && done <= 1
    requires Cleared(m, m', t, BottomPage(tid) - 1, BottomPage(tid) - 1 + done)
    requires Reached(m, t, BottomPage(tid) - 1, BottomPage(tid) - 1 + done)
    requires r == Done ==> done == 1
    requires r != Done ==> done == 0 && Stopped(r, m', t, PathOf(BottomPage(tid) - 1), 1)
    ensures r == Done <==> GuardTable(tid) in t
    ensures r == Refused <==> Pde(m, t, PathOf(BottomPage(tid) - 1)) != 0
  {
    hide Pte, Wf, PageAt, PathOf;
    var g := BottomPage(tid) - 1;
    PageOfPath(g);
    if Pde(m, t, PathOf(g)) != 0 {
      LargeReached(m, t, PathOf(g));
    }
    if GuardTable(tid) in t {
      TableNotLarge(m', t, PathOf(g));
    } else if r == Done {
      assert Pde(m, t, PathOf(g)) != 0;
      LargeNotCleared(m, m', t, g);
    }
  }

  /** Under a bottom table there is no 2 MiB leaf, and all upper tables are there. */
  lemma TableNotLarge(m: Mem, t: Tables, p: Path)
    requires Wf(m, t) && InTables(p) && L1(p.i, p.j, p.k) in t
    ensures Pde(m, t, p) == 0 && L3(p.i) in t && L2(p.i, p.j) in t
  {
    assert Parent(L1(p.i, p.j, p.k)) == L2(p.i, p.j) && Parent(L2(p.i, p.j)) == L3(p.i);
    assert Linked(m, t, L2(p.i, p.j), p.k);
  }

  /** Over a 2 MiB leaf all upper tables are there, and there is no bottom table. */
  lemma LargeReached(m: Mem, t: Tables, p: Path)
    requires Wf(m, t) && InTables(p) && Pde(m, t, p) != 0
    ensures L3(p.i) in t && L2(p.i, p.j) in t && L1(p.i, p.j, p.k) !in t
  {
    hide FrameOf, Present, Large;
    assert Parent(L2(p.i, p.j)) == L3(p.i);
    if L1(p.i, p.j, p.k) in t { TableNotLarge(m, t, p); }
  }

  /** A 2 MiB leaf cannot lose just one of its pages. */
  lemma LargeNotCleared(m: Mem, m': Mem, t: Tables, v: nat)
    requires Wf(m, t) && Wf(m', t) && 0 < v && v + 1 < PAGES && Pde(m, t, PathOf(v)) != 0
    ensures !Cleared(m, m', t, v, v + 1)
  {
    hide Pte, Wf, PageAt, PathOf, Pde;
    var u := if v % 512 == 0 then v + 1 else v - 1;
    if v % 512 == 0 {
      NextInRegion(m, t, v);
      NextInRegion(m', t, v);
    } else {
      NextInRegion(m, t, v - 1);
      NextInRegion(m', t, v - 1);
    }
    PageOfPath(u);
    PageOfPath(v);
    assert Pde(m, t, PathOf(u)) == Pde(m, t, PathOf(v)) && Pde(m', t, PathOf(u)) == Pde(m', t, PathOf(v));
  }

  /** Which bottom table covers the guard page once the stack is mapped. */
  lemma GuardAfterMap(m: Mem, t: Tables, u: set<nat>, m': Mem, t': Tables, u': set<nat>, tid: nat, f: nat)
    requires tid < 256 && f + 4 <= FRAMES
    requires SmallMapped(m, t, m', t', BottomPage(tid), 4, f * 0x1000, 7)
    requires Extends(m, t, u, m', t', u', Spines(BottomPage(tid), 4))
    ensures GuardTable(tid) in t' <==> tid != 204 || GuardTable(tid) in t
    ensures var p := PathOf(BottomPage(tid) - 1); L3(p.i) in t' && L2(p.i, p.j) in t'
    ensures var p := PathOf(BottomPage(tid) - 1); Wf(m, t) && Wf(m', t') && Pde(m', t', p) == Pde(m, t, p)
  {
    hide Wf, PathOf, Pde, LeafWord, FrameOf, Spines, PageAt;
    PageOfPath(BottomPage(tid) - 1);
    StackTable(m, t, m', t', tid, f);
    SameDirectory(tid);
    if tid == 204 {
      GuardApart();
    } else {
      GuardShares(tid);
    }
  }

  /** The mapped stack has its tables. */
  lemma StackTable(m: Mem, t: Tables, m': Mem, t': Tables, tid: nat, f: nat)
    requires tid < 256 && f + 4 <= FRAMES && SmallMapped(m, t, m', t', BottomPage(tid), 4, f * 0x1000, 7)
    ensures var p := PathOf(BottomPage(tid)); L3(p.i) in t' && L2(p.i, p.j) in t' && L1(p.i, p.j, p.k) in t'
  {
    hide Wf, PathOf, Pde, LeafWord, FrameOf, PageAt;
    var p := PathOf(BottomPage(tid));
    PageOfPath(BottomPage(tid));
    BottomInRange(tid, f);
    SmallWord(f, 7);
    assert Pte(m', t', p) == LeafWord(f * 0x1000, 7, VMM_PRESENT);
    TableNotLarge(m', t', p);
  }

  /** The guard page has the same upper tables as the stack. */
  lemma SameDirectory(tid: nat)
    requires tid < 256
    ensures var p, q := PathOf(BottomPage(tid) - 1), PathOf(BottomPage(tid)); p.i == q.i && p.j == q.j
  {
    var v := BottomPage(tid);
    DirectoryOf(v - 1);
    DirectoryOf(v);
  }

  lemma DirectoryOf(v: nat)
    requires 0x7_FFFC_0000 <= v < 0x8_0000_0000
    ensures PathOf(v).i == 255 && PathOf(v).j == 511
  {
    var x := v / 512;
    assert 0x3FF_FE00 <= x < 0x400_0000;
    assert x / 512 == 0x1_FFFF;
  }

  // ----- the whole -----

  /** `NoMemory` is a failed allocation. `GuardKept` is a refused unmapping of the guard page, which the source
      ignores; `GuardFault` is one that goes through a missing bottom table. */
  datatype StackResult = Created | NoMemory | GuardKept | GuardFault

  /** How the creation ends once the stack is mapped. */
  ghost function GuardEnd(m: Mem, t: Tables, tid: nat): StackResult
    requires Wf(m, t) && tid < 256
  {
    if tid != 204 || GuardTable(tid) in t then Created
    else if Pde(m, t, PathOf(BottomPage(tid) - 1)) != 0 then GuardKept
    else GuardFault
  }

  /** The guard page of every other thread lies in the 2 MiB region of its stack. */
  lemma GuardNotLarge(m: Mem, t: Tables, tid: nat)
    requires Wf(m, t) && tid < 256 && tid != 204 && NoLargeHere(m, t, tid)
    ensures Pde(m, t, PathOf(BottomPage(tid) - 1)) == 0
  {
    hide Wf;
    GuardShares(tid);
    assert Pde(m, t, PathOf(BottomPage(tid))) == 0;
  }

  /** The four pages of the stack lead to the four frames from `f` on, present, writable and open to the user. */
  ghost predicate StackLeaves(m: Mem, t: Tables, tid: nat, f: nat)
    requires Wf(m, t) && tid < 256
  {
    forall v :: BottomPage(tid) <= v < BottomPage(tid) + 4 ==>
      var e := Pte(m, t, PathOf(v));
      Present(e) && FrameOf(e) == f + (v - BottomPage(tid)) && FlagsOf(e) == 7
  }

  lemma UserFlags()
    ensures BitOr(7, VMM_PRESENT) == 7 && FrameOf(7) == 0
  {
    assert FrameOf(7) == 0;
    hide BitOr, FrameOf;
    OrHalf(7, 1);
    OrZero(3);
    OrSame(1);
  }

  /** The leaf of page `k` after the mapping, and after the guard page is cleared. */
  lemma StackLeaf(m: Mem, t: Tables, m1: Mem, t': Tables, m2: Mem, tid: nat, f: nat, done: nat, k: nat)
    requires tid < 256 && f + 4 <= FRAMES && k < 4 && done <= 1 && Wf(m1, t') && Wf(m2, t')
    requires SmallMapped(m, t, m1, t', BottomPage(tid), 4, f * 0x1000, 7)
    requires Cleared(m1, m2, t', BottomPage(tid) - 1, BottomPage(tid) - 1 + done)
    ensures var e := Pte(m2, t', PathOf(BottomPage(tid) + k)); Present(e) && FrameOf(e) == f + k && FlagsOf(e) == 7
  {
    hide Wf, PathOf, Pde, Pte, LeafWord, FrameOf, FlagsOf, Present, PageAt, BitOr;
    var p := PathOf(BottomPage(tid) + k);
    PageOfPath(BottomPage(tid) + k);
    UserFlags();
    SmallWord(f + k, 7);
    assert f * 0x1000 + k * 0x1000 == (f + k) * 0x1000;
    assert Pte(m2, t', p) == Pte(m1, t', p);
  }

  lemma LeavesAfter(m: Mem, t: Tables, m1: Mem, t': Tables, m2: Mem, tid: nat, f: nat, done: nat)
    requires tid < 256 && f + 4 <= FRAMES && done <= 1 && Wf(m1, t') && Wf(m2, t')
    requires SmallMapped(m, t, m1, t', BottomPage(tid), 4, f * 0x1000, 7)
    requires Cleared(m1, m2, t', BottomPage(tid) - 1, BottomPage(tid) - 1 + done)
    ensures StackLeaves(m2, t', tid, f)
  {
    hide Wf, PathOf, Pte, FrameOf, FlagsOf, Present, SmallMapped, Cleared;
    var b := BottomPage(tid);
    forall v | b <= v < b + 4
      ensures var e := Pte(m2, t', PathOf(v)); Present(e) && FrameOf(e) == f + (v - b) && FlagsOf(e) == 7
    {
      StackLeaf(m, t, m1, t', m2, tid, f, done, v - b);
    }
  }

  /** Frames in use that are no tables keep their contents. */
  ghost predicate UsedKept(m: Mem, t: Tables, used: set<nat>, m': Mem) {
    |m'| == |m| && forall x :: x in used && x < |m| && x !in t.Values ==> m'[x] == m[x]
  }

  /** New tables are not among the frames in use, so mapping and clearing leave those alone. */
  lemma UsedAfter(m: Mem, t: Tables, u: set<nat>, m1: Mem, t': Tables, u': set<nat>, m2: Mem, base: nat)
    requires Touched(false, m, t, u, m1, t', u', base, 4)
    requires |m2| == |m1| && forall x :: 0 <= x < |m2| && x !in t'.Values ==> m2[x] == m1[x]
    ensures UsedKept(m, t, u, m2) && u <= u'
  {
    hide Wf, Spines;
    forall x | x in u && x < |m| && x !in t.Values ensures m2[x] == m[x] {
      forall n | n in t' ensures t'[n] != x {
        if n in t { assert t[n] in t.Values; }
      }
    }
  }

  lemma UsedTwice(m: Mem, t: Tables, u: set<nat>, m1: Mem, u1: set<nat>, m2: Mem)
    requires UsedKept(m, map[], u, m1) && UsedKept(m1, t, u1, m2) && u <= u1
    ensures UsedKept(m, t, u, m2)
  {
  }

  /** Leaves of other pages are as before. */
  ghost predicate OthersKept(m: Mem, t: Tables, m': Mem, t': Tables, from: nat, to: nat)
    requires Wf(m, t) && Wf(m', t')
  {
    forall q :: InTables(q) && !(from <= PageAt(q) < to) ==>
      Pte(m', t', q) == Pte(m, t, q) && Pde(m', t', q) == Pde(m, t, q)
  }

  /** The four frames are allocated and filled; the tables do not notice. */
  method PlaceImage(v: Vmm, s: seq<Byte>, ghost t: Tables) returns (f: nat)
    requires v.Space(t) && |s| == STACK_BYTES
    modifies v`mem, v.pmm, v.pmm.bitmap
    ensures v.Valid()
    ensures f == 0 ==> NoFitBelow(v.pmm.bitmap[..], v.pmm.bitmap.Length, 4, 1)
    ensures f != 0 ==> v.Space(t) && SameView(old(v.mem), t, v.mem, t) && HoldsImage(v.mem, t, f, s)
    ensures f != 0 ==> Run(f, 4) !! old(v.pmm.Used()) && v.pmm.Used() == old(v.pmm.Used()) + Run(f, 4)
    ensures f != 0 ==> UsedKept(old(v.mem), map[], old(v.pmm.Used()), v.mem) && v.pmm.Total() == old(v.pmm.Total())
  {
    hide Pmm.Used, Pmm.Total, Linked, PhysByte, WithImage, SameView;
    f := v.PmmAlloc(4);
    if f == 0 {
      return;
    }
    ghost var m1 := v.mem;
    v.mem := WithImage(v.mem, f, s);
    forall n | n in t ensures v.mem[t[n]] == old(v.mem)[t[n]] {
      assert t[n] in t.Values;
    }
    Stable(old(v.mem), v.mem, t);
    forall o | 0 <= o < STACK_BYTES ensures PhysByte(v.mem, f * 0x1000 + o) == s[o] {
      ImageByte(m1, f, s, o);
    }
  }

  /** What the program is given, and what it must find. */
  function Given(argv: seq<CString>, envp: seq<CString>, elf: Elf): Start {
    Start(|argv|, argv, envp, [(5, elf.phnum), (4, elf.phent), (3, elf.phdr), (9, elf.entry)])
  }

  lemma ImageInMemory(m: Mem, t: Tables, f: nat, s: seq<Byte>)
    requires HoldsImage(m, t, f, s)
    ensures f + 4 <= |m| <= FRAMES && |s| == STACK_BYTES
  {
  }

  /** The mapping leaves the image where it is and makes the stack translate to it. */
  lemma AfterMap(m: Mem, t: Tables, u: set<nat>, m': Mem, t': Tables, u': set<nat>, tid: nat, f: nat, s: seq<Byte>)
    requires tid < 256 && Wf(m, t) && HoldsImage(m, t, f, s) && NoLargeHere(m, t, tid) && Run(f, 4) <= u
    requires Mapped(false, m, t, m', t', BottomPage(tid), 4, f * 0x1000, 7)
    requires Touched(false, m, t, u, m', t', u', BottomPage(tid), 4)
    ensures Wf(m', t') && HoldsImage(m', t', f, s) && TranslatesStack(m', t', tid, f)
    ensures SmallMapped(m, t, m', t', BottomPage(tid), 4, f * 0x1000, 7)
    ensures GuardTable(tid) in t' <==> tid != 204 || GuardTable(tid) in t
    ensures var p := PathOf(BottomPage(tid) - 1); L3(p.i) in t' && L2(p.i, p.j) in t' && Pde(m', t', p) == Pde(m, t, p)
  {
    hide Wf, SmallMapped, NoLargeHere, PhysByte, TranslatesStack, Spines, GuardTable, PathOf, Pde;
    ImageInMemory(m, t, f, s);
    MappedStack(m, t, m', t', tid, f);
    GuardAfterMap(m, t, u, m', t', u', tid, f);
    forall x | f <= x < f + 4 ensures x !in t'.Values {
      assert x in Run(f, 4);
      forall n | n in t' ensures t'[n] != x {
        if n in t { assert t[n] in t.Values; }
      }
    }
    ImageKept(m, t, m', t', f, s);
  }

  /** Clearing the guard page, or nothing, leaves the image where it is and the stack in view. */
  lemma AfterClear(m: Mem, m': Mem, t: Tables, tid: nat, f: nat, s: seq<Byte>, done: nat)
    requires tid < 256 && Wf(m, t) && Wf(m', t) && HoldsImage(m, t, f, s) && TranslatesStack(m, t, tid, f)
    requires Cleared(m, m', t, BottomPage(tid) - 1, BottomPage(tid) - 1 + done) && done <= 1 && |m'| == |m|
    requires forall x :: 0 <= x < |m| && x !in t.Values ==> m'[x] == m[x]
    ensures Shows(m', t, Bottom(tid), s)
    ensures var p := PathOf(BottomPage(tid) - 1); done == 1 ==> Pte(m', t, p) == 0 && Pde(m', t, p) == 0
  {
    hide Wf, PhysByte, TranslatesStack, Pte, Pde, PathOf, Shows;
    ImageKept(m, t, m', t, f, s);
    ClearedStack(m, m', t, tid, f, BottomPage(tid) - 1 + done);
    ImageShows(m', t, tid, f, s);
    PageOfPath(BottomPage(tid) - 1);
  }

  lemma OthersAfter(m: Mem, t: Tables, m1: Mem, t': Tables, m2: Mem, tid: nat, f: nat, done: nat)
    requires tid < 256 && Wf(m2, t') && done <= 1
    requires SmallMapped(m, t, m1, t', BottomPage(tid), 4, f * 0x1000, 7)
    requires Wf(m1, t') && Cleared(m1, m2, t', BottomPage(tid) - 1, BottomPage(tid) - 1 + done)
    ensures Wf(m, t) && OthersKept(m, t, m2, t', BottomPage(tid) - done, BottomPage(tid) + 4)
  {
    hide Wf, Pte, Pde, PageAt, LeafWord;
  }

  /** The page mapping of thread_create: the four frames above, nothing at the guard page, or what was there. */
  method MapStack(v: Vmm, root: nat, tid: nat, f: nat, ghost s: seq<Byte>, ghost t: Tables)
    returns (r: StackResult, ghost t': Tables)
    requires v.Space(t) && t[L4] == root && tid < 256 && HoldsImage(v.mem, t, f, s) && NoLargeHere(v.mem, t, tid)
    requires Run(f, 4) <= v.pmm.Used()
    modifies v`mem, v.pmm, v.pmm.bitmap
    ensures v.Valid()
    ensures r == NoMemory ==> AllUsed(v.pmm.bitmap[..])
    ensures r != NoMemory ==> UsedKept(old(v.mem), t, old(v.pmm.Used()), v.mem) && v.pmm.Total() == old(v.pmm.Total())
    ensures r != NoMemory ==> old(v.pmm.Used()) <= v.pmm.Used()
    ensures r != NoMemory ==> r == GuardEnd(old(v.mem), t, tid)
    ensures r == Created || r == GuardKept ==>
              && Wf(v.mem, t') && t'[L4] == root && Shows(v.mem, t', Bottom(tid), s)
              && StackLeaves(v.mem, t', tid, f)
              && OthersKept(old(v.mem), t, v.mem, t', BottomPage(tid) - (if r == Created then 1 else 0),
                            BottomPage(tid) + 4)
    ensures r == Created ==>
              Pte(v.mem, t', PathOf(BottomPage(tid) - 1)) == 0 && Pde(v.mem, t', PathOf(BottomPage(tid) - 1)) == 0
  {
    hide Wf, PathOf, PageOf, PageAt, Pde, Pte, SmallMapped, Extends, InRange, FrameOf, HoldsImage, TranslatesStack,
      Shows, OthersKept, Cleared, OnlyClears, Reached, MidLarge, Pmm.Used, Run, Spines, GuardTable, UsedKept,
      StackLeaves, Pmm.Total, Pmm.Valid;
    ghost var m0, u0 := v.mem, v.pmm.Used();
    ImageInMemory(m0, t, f, s);
    SourceAddresses(tid);
    BottomInRange(tid, f);
    var ok;
    ok, t' := v.MapAdvanced(root, Bottom(tid), f * 0x1000, 4, 7, false, t);
    if !ok {
      return NoMemory, t;
    }
    ghost var m1 := v.mem;
    AfterMap(m0, t, u0, m1, t', v.pmm.Used(), tid, f, s);
    var guard := STACK_LOCATION_TOP - (0x1000 * 4 + 0x1000) * (tid + 1);
    var o;
    ghost var done;
    o, done := Unmap(v, root, guard, 1, t');
    GuardDoneIff(o, m1, v.mem, t', tid, done);
    if tid != 204 { GuardNotLarge(m0, t, tid); }
    AfterClear(m1, v.mem, t', tid, f, s, done);
    OthersAfter(m0, t, m1, t', v.mem, tid, f, done);
    UsedAfter(m0, t, u0, m1, t', v.pmm.Used(), v.mem, BottomPage(tid));
    LeavesAfter(m0, t, m1, t', v.mem, tid, f, done);
    match o
    case Done => r := Created;
    case Refused => r := GuardKept;
    case Missing => r := GuardKept;
    case Fault => r := GuardFault;
  }

  /** The user stack of a new thread (thread.c:59-119). For all lists that fit, a program that starts at `rsp`
      and loads through its page tables finds its arguments, its environment and the four auxiliary entries;
      the guard page has no leaf, and no other page changes. The stack lies in the four frames from `f` on, which
      were free; frames in use keep their contents, but for tables. The exception is thread 204 without a bottom table
      over its guard page: with a 2 MiB page there it keeps that page and has its stack all the same, and
      otherwise the unmapping goes through the missing table. */
  method CreateStack(v: Vmm, root: nat, tid: nat, argv: seq<CString>, envp: seq<CString>, elf: Elf, ghost t: Tables)
    returns (r: StackResult, rsp: nat, f: nat, ghost t': Tables)
    requires v.Space(t) && t[L4] == root && tid < 256 && NoLargeHere(v.mem, t, tid)
    requires ExecStack.Bytes(envp + argv) <= STACK_BYTES && SpAfter(argv, envp) >= 0
    modifies v`mem, v.pmm, v.pmm.bitmap
    ensures v.Valid()
    ensures r == NoMemory ==> NoFitBelow(v.pmm.bitmap[..], v.pmm.bitmap.Length, 4, 1)
    ensures r != NoMemory ==> r == GuardEnd(old(v.mem), t, tid)
    ensures r != NoMemory ==>
              && Run(f, 4) !! old(v.pmm.Used()) && Run(f, 4) <= v.pmm.Used() && v.pmm.Total() == old(v.pmm.Total())
              && UsedKept(old(v.mem), t, old(v.pmm.Used()), v.mem)
    ensures r == Created || r == GuardKept ==>
              && Wf(v.mem, t') && t'[L4] == root && rsp % 16 == 0
              && LoadStart(v.mem, t', Region(Bottom(tid), Bottom(tid) + STACK_BYTES), rsp) == Given(argv, envp, elf)
              && StackLeaves(v.mem, t', tid, f)
              && OthersKept(old(v.mem), t, v.mem, t', BottomPage(tid) - (if r == Created then 1 else 0),
                            BottomPage(tid) + 4)
    ensures r == Created ==>
              Pte(v.mem, t', PathOf(BottomPage(tid) - 1)) == 0 && Pde(v.mem, t', PathOf(BottomPage(tid) - 1)) == 0
  {
    hide Wf, PathOf, PageOf, PageAt, Pde, Pte, HoldsImage, Shows, OthersKept, Pmm.Used, Run, Image, StartWords,
      ExecStack.Bytes, LoadStart, ReadStart, SpAfter, SameView, NoLargeHere, GuardTable, GuardEnd, UsedKept,
      StackLeaves, Pmm.Total, Pmm.Valid, NoFitBelow, AllUsed;
    t', rsp, f := t, 0, 0;
    SourceAddresses(tid);
    var top: Word := Bottom(tid) + STACK_BYTES;
    var image, sp := BuildImage(argv, envp, elf, top);
    var s := image[..];
    f := PlaceImage(v, s, t);
    if f == 0 {
      return NoMemory, 0, 0, t;
    }
    NoLargeStill(old(v.mem), v.mem, t, tid);
    ghost var m1, u1 := v.mem, v.pmm.Used();
    r, t' := MapStack(v, root, tid, f, s, t);
    if r == NoMemory {
      AllUsedNoFit(v.pmm.bitmap[..], 4);
    } else {
      UsedTwice(old(v.mem), t, old(v.pmm.Used()), m1, u1, v.mem);
    }
    rsp := Bottom(tid) + sp;
    if r == Created || r == GuardKept {
      ImageStart(s, sp, argv, envp, elf, top);
      ReadBack(s, argv, envp, elf, top, sp);
      ShownStart(v.mem, t', Bottom(tid), s, rsp);
      OthersTwice(old(v.mem), t, m1, v.mem, t', BottomPage(tid) - (if r == Created then 1 else 0), BottomPage(tid) + 4);
    }
  }

  lemma NoLargeStill(m: Mem, m': Mem, t: Tables, tid: nat)
    requires tid < 256 && Wf(m, t) && Wf(m', t) && SameView(m, t, m', t) && NoLargeHere(m, t, tid)
    ensures NoLargeHere(m', t, tid) && GuardEnd(m', t, tid) == GuardEnd(m, t, tid)
  {
    hide Wf, Pde, Pte, PathOf, GuardTable;
    PageOfPath(BottomPage(tid) - 1);
  }

  lemma OthersTwice(m: Mem, t: Tables, m1: Mem, m2: Mem, t': Tables, from: nat, to: nat)
    requires Wf(m, t) && Wf(m1, t) && Wf(m2, t') && SameView(m, t, m1, t) && OthersKept(m1, t, m2, t', from, to)
    ensures OthersKept(m, t, m2, t', from, to)
  {
    hide Wf, Pde, Pte, PageAt;
  }
}
