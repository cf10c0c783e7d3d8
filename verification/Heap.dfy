/** The kernel heap (kernel/utils/kmalloc.c): every block is a run of frames, the first of which holds a
    header with the number of data pages and the requested size. */
module Heap {
  import opened Bits
  import opened FrameAllocator
  import opened ByteSeqs

  /** The frames needed for `size` bytes. */
  function Pages(size: nat): nat { if size % PAGE_SIZE != 0 then size / PAGE_SIZE + 1 else size / PAGE_SIZE }

  /** ROUND_UP(size, PAGE_SIZE), as utils/common.h computes it: in 64 bits, where the sum may wrap. */
  function RoundUp(size: nat): nat { (size + PAGE_SIZE - 1) % TWO64 / PAGE_SIZE * PAGE_SIZE }

  /** Resizing an empty block to a size near 2^64, which ROUND_UP takes for zero. */
  predicate Wraps(was: nat, size: nat) { was == 0 && size > TWO64 - PAGE_SIZE }

  lemma PagesCover(size: nat)
    ensures size <= Pages(size) * PAGE_SIZE < size + PAGE_SIZE
  {
  }

  /** The comparison in krealloc finds equal page counts exactly, but for the wrap. */
  lemma SameRoundUpIff(was: nat, size: nat)
    requires was <= MEM_PHYS_OFFSET && size < TWO64
    ensures RoundUp(was) == RoundUp(size) <==> Pages(was) == Pages(size) || Wraps(was, size)
    ensures Wraps(was, size) ==> Pages(was) != Pages(size)
  {
    assert (was + PAGE_SIZE - 1) % TWO64 == was + PAGE_SIZE - 1;
    assert (was + PAGE_SIZE - 1) / PAGE_SIZE == Pages(was) && (size + PAGE_SIZE - 1) / PAGE_SIZE == Pages(size);
    if size > TWO64 - PAGE_SIZE {
      assert (size + PAGE_SIZE - 1) % TWO64 == size + PAGE_SIZE - 1 - TWO64 < PAGE_SIZE;
      assert RoundUp(size) == 0;
    } else {
      assert (size + PAGE_SIZE - 1) % TWO64 == size + PAGE_SIZE - 1;
    }
  }

  /** The address that a block with header frame `b` is known by. */
  function Pointer(b: nat): (p: nat)
    ensures p > 0
  {
    MEM_PHYS_OFFSET + b * PAGE_SIZE + PAGE_SIZE
  }

  /** The header frame behind an address. */
  function BlockOf(addr: nat): (b: int)
    ensures b >= 0 && addr == Pointer(b) ==> b * PAGE_SIZE == addr - PAGE_SIZE - MEM_PHYS_OFFSET
    ensures forall c: nat :: addr == Pointer(c) ==> b == c
  {
    (addr - MEM_PHYS_OFFSET) / PAGE_SIZE - 1
  }

  /** The live blocks: header frame to requested size. */
  type Blocks = map<nat, nat>

  /** All frames of a block: header and data. */
  ghost function Span(b: nat, size: nat): set<nat> { Run(b, Pages(size) + 1) }

  /** A live block lies in used frames, and its header says what it is. */
  ghost predicate BlockSound(mem: seq<Byte>, used: set<nat>, b: nat, size: nat) {
    && 0 < b && size < TWO64
    && (b + Pages(size) + 1) * PAGE_SIZE <= |mem|
    && Span(b, size) <= used
    && WordAt(mem, b * PAGE_SIZE) == Pages(size) && WordAt(mem, b * PAGE_SIZE + 8) == size
  }

  ghost predicate Apart(live: Blocks) {
    forall a, b :: a in live && b in live && a < b ==> a + Pages(live[a]) + 1 <= b
  }

  ghost predicate Sound(mem: seq<Byte>, used: set<nat>, live: Blocks) {
    && (forall b :: b in live ==> BlockSound(mem, used, b, live[b]))
    && Apart(live)
  }

  lemma HeaderOf(mem: seq<Byte>, used: set<nat>, live: Blocks, b: nat)
    requires Sound(mem, used, live) && b in live
    ensures b * PAGE_SIZE + 16 <= |mem|
    ensures WordAt(mem, b * PAGE_SIZE) == Pages(live[b]) && WordAt(mem, b * PAGE_SIZE + 8) == live[b]
  {
    assert BlockSound(mem, used, b, live[b]);
  }

  lemma SizeInMemory(mem: seq<Byte>, used: set<nat>, live: Blocks, b: nat)
    requires Sound(mem, used, live) && b in live
    ensures live[b] <= |mem|
  {
    assert BlockSound(mem, used, b, live[b]);
    PagesCover(live[b]);
  }

  /** The bytes of a block. */
  ghost function Contents(mem: seq<Byte>, b: nat, size: nat): (r: seq<Byte>)
    requires (b + Pages(size) + 1) * PAGE_SIZE <= |mem|
    ensures |r| == size
  {
    PagesCover(size);
    mem[(b + 1) * PAGE_SIZE..(b + 1) * PAGE_SIZE + size]
  }

  /** The frames `from`, ..., `to - 1` of memory may differ, the rest is the same. */
  ghost predicate OnlyFrames(mem: seq<Byte>, mem': seq<Byte>, from: nat, to: nat) {
    |mem'| == |mem| && forall i :: 0 <= i < |mem| && !(from * PAGE_SIZE <= i < to * PAGE_SIZE) ==> mem'[i] == mem[i]
  }

  /** A block outside the frames that changed keeps its header and its bytes. */
  lemma BlockStable(mem: seq<Byte>, mem': seq<Byte>, from: nat, to: nat, used: set<nat>, used': set<nat>, b: nat,
                    size: nat)
    requires BlockSound(mem, used, b, size) && OnlyFrames(mem, mem', from, to) && Span(b, size) <= used'
    requires b + Pages(size) + 1 <= from || to <= b
    ensures BlockSound(mem', used', b, size)
    ensures Contents(mem', b, size) == Contents(mem, b, size)
  {
    hide WordAt, Span, Pages;
    PagesCover(size);
    WordStable(mem, mem', b * PAGE_SIZE);
    WordStable(mem, mem', b * PAGE_SIZE + 8);
    assert Contents(mem', b, size) == Contents(mem, b, size);
  }

  /** A block in frames that were free does not meet any other. */
  lemma FreshApart(live: Blocks, used: set<nat>, mem: seq<Byte>, b: nat, size: nat)
    requires Sound(mem, used, live) && Span(b, size) !! used
    ensures b !in live && Apart(live[b := size])
  {
    hide Pages, WordAt;
    assert b in Span(b, size);
    forall a | a in live
      ensures a != b && if a < b then a + Pages(live[a]) + 1 <= b else b + Pages(size) + 1 <= a
    {
      assert a in Span(a, live[a]) && a !in Span(b, size);
      assert b !in Span(a, live[a]);
    }
  }

  /** kmalloc, on the values it reads and writes. */
  lemma AllocatedSound(mem: seq<Byte>, mem': seq<Byte>, used: set<nat>, live: Blocks, b: nat, size: nat)
    requires Sound(mem, used, live) && Span(b, size) !! used
    requires OnlyFrames(mem, mem', b, b + Pages(size) + 1)
    requires BlockSound(mem', Span(b, size), b, size)
    ensures b !in live && Sound(mem', used + Span(b, size), live[b := size])
    ensures SameContents(mem, mem', live)
  {
    hide Span, Pages, WordAt, Contents;
    FreshApart(live, used, mem, b, size);
    var live' := live[b := size];
    forall a | a in live
      ensures BlockSound(mem', used + Span(b, size), a, live[a])
      ensures Contents(mem', a, live[a]) == Contents(mem, a, live[a])
    {
      assert a in live' && live'[a] == live[a] && live'[b] == size;
      assert Span(a, live[a]) <= used + Span(b, size);
      BlockStable(mem, mem', b, b + Pages(size) + 1, used, used + Span(b, size), a, live[a]);
    }
  }

  /** The live blocks have the bytes they had. */
  ghost predicate SameContents(mem: seq<Byte>, mem': seq<Byte>, live: Blocks) {
    forall a :: a in live ==>
      && (a + Pages(live[a]) + 1) * PAGE_SIZE <= |mem| && |mem'| == |mem|
      && Contents(mem', a, live[a]) == Contents(mem, a, live[a])
  }

  /** kfree: the frames of the freed block leave the used set, and no other block had any of them. */
  lemma FreedSound(mem: seq<Byte>, used: set<nat>, live: Blocks, b: nat)
    requires Sound(mem, used, live) && b in live
    ensures Sound(mem, used - Span(b, live[b]), live - {b})
  {
    hide Pages, WordAt;
    forall a | a in live && a != b
      ensures Span(a, live[a]) !! Span(b, live[b])
    {
      if a < b {} else {}
    }
  }

  // ----- what the operations do -----

  /** The memory, the used frames and the live blocks. */
  datatype View = View(mem: seq<Byte>, used: set<nat>, live: Blocks)

  /** A new block of cleared bytes in frames that were free; everything else stays. */
  ghost predicate Allocated(s: View, s': View, size: nat, addr: nat) {
    var b := BlockOf(addr);
    && b >= 0 && addr == Pointer(b)
    && Span(b, size) !! s.used && s'.used == s.used + Span(b, size)
    && b !in s.live && s'.live == s.live[b := size]
    && SameContents(s.mem, s'.mem, s.live)
    && (b + Pages(size) + 1) * PAGE_SIZE <= |s'.mem|
    && Contents(s'.mem, b, size) == Zeros(size)
  }

  /** A header in a cleared run of free frames makes a new block. */
  lemma NewBlock(s: View, cleared: seq<Byte>, s': View, b: nat, size: nat)
    requires Sound(s.mem, s.used, s.live) && (b + Pages(size) + 1) * PAGE_SIZE <= |cleared|
    requires OnlyFrames(s.mem, cleared, b, b + Pages(size) + 1)
    requires forall i :: b * PAGE_SIZE <= i < (b + Pages(size) + 1) * PAGE_SIZE ==> cleared[i] == 0
    requires OnlyFrames(cleared, s'.mem, b, b + Pages(size) + 1) && BlockSound(s'.mem, Span(b, size), b, size)
    requires Contents(s'.mem, b, size) == Contents(cleared, b, size)
    requires Span(b, size) !! s.used && s'.used == s.used + Span(b, size) && s'.live == s.live[b := size]
    ensures Sound(s'.mem, s'.used, s'.live) && Allocated(s, s', size, Pointer(b))
  {
    ClearedContents(cleared, b, size);
    hide Sound, Span, Pages, WordAt, Contents, SameContents;
    AllocatedSound(s.mem, s'.mem, s.used, s.live, b, size);
  }

  lemma ClearedContents(cleared: seq<Byte>, b: nat, size: nat)
    requires (b + Pages(size) + 1) * PAGE_SIZE <= |cleared|
    requires forall i :: b * PAGE_SIZE <= i < (b + Pages(size) + 1) * PAGE_SIZE ==> cleared[i] == 0
    ensures Contents(cleared, b, size) == Zeros(size)
  {
    hide Pages;
    PagesCover(size);
  }

  /** Nothing fits: no block changes hands, but low memory is cleared all the same. */
  ghost predicate Failed(s: View, s': View, size: nat) {
    s'.used == s.used && s'.live == s.live && LowCleared(s.mem, s'.mem, ClearedFrames(Pages(size) + 1))
  }

  /** Exactly the frames of the block become free. */
  ghost predicate Released(s: View, s': View, addr: nat) {
    var b := BlockOf(addr);
    && b in s.live && s'.live == s.live - {b}
    && s'.used == s.used - Span(b, s.live[b]) && Span(b, s.live[b]) <= s.used
    && s'.mem == s.mem
  }

  /** The block at `addr` becomes a block of `size` bytes at `addr'` with the same leading bytes. */
  ghost predicate Resized(s: View, s': View, addr: nat, size: nat, addr': nat) {
    var b, b' := BlockOf(addr), BlockOf(addr');
    && b in s.live && b' >= 0 && addr' == Pointer(b')
    && s'.live == (s.live - {b})[b' := size]
    && (if b' == b then Pages(size) == Pages(s.live[b]) else b' !in s.live && Span(b', size) !! s.used)
    && s'.used == s.used - Span(b, s.live[b]) + Span(b', size)
    && SameContents(s.mem, s'.mem, s.live - {b})
    && Prefix(s.mem, b, s.live[b], s'.mem, b', size)
  }

  /** The bytes of one block are replaced in part; everything else stays. */
  ghost predicate Written(s: View, s': View, addr: nat, at: nat, data: seq<Byte>) {
    var b := BlockOf(addr);
    && b in s.live && s'.live == s.live && s'.used == s.used && at + |data| <= s.live[b]
    && SameContents(s.mem, s'.mem, s.live - {b})
    && (b + Pages(s.live[b]) + 1) * PAGE_SIZE <= |s.mem| && |s'.mem| == |s.mem|
    && Contents(s'.mem, b, s.live[b]) == Patch(Contents(s.mem, b, s.live[b]), at, data)
  }

  lemma StoredBytes(mem: seq<Byte>, b: nat, size: nat, at: nat, data: seq<Byte>)
    requires (b + Pages(size) + 1) * PAGE_SIZE <= |mem| && at + |data| <= size
    ensures (b + 1) * PAGE_SIZE + at + |data| <= |mem|
    ensures var mem' := Patch(mem, (b + 1) * PAGE_SIZE + at, data);
            Contents(mem', b, size) == Patch(Contents(mem, b, size), at, data)
  {
    hide Patch, Pages;
    PagesCover(size);
    PatchInside(mem, (b + 1) * PAGE_SIZE, size, at, data);
  }

  /** Memory changes only in the data pages of one block: all headers and all other bytes stay. */
  lemma DataSound(mem: seq<Byte>, mem': seq<Byte>, used: set<nat>, live: Blocks, b: nat)
    requires Sound(mem, used, live) && b in live && |mem'| == |mem|
    requires forall i ::
               0 <= i < |mem| && !((b + 1) * PAGE_SIZE <= i < (b + Pages(live[b]) + 1) * PAGE_SIZE) ==>
                 mem'[i] == mem[i]
    ensures Sound(mem', used, live) && SameContents(mem, mem', live - {b})
  {
    hide Span, Pages, WordAt, Contents;
    assert BlockSound(mem, used, b, live[b]);
    WordStable(mem, mem', b * PAGE_SIZE);
    WordStable(mem, mem', b * PAGE_SIZE + 8);
    forall a | a in live && a != b
      ensures BlockSound(mem', used, a, live[a]) && Contents(mem', a, live[a]) == Contents(mem, a, live[a])
    {
      BlockStable(mem, mem', b, b + Pages(live[b]) + 1, used, used, a, live[a]);
    }
  }

  /** krealloc within the same number of pages: only the size in the header changes. */
  lemma InPlaceSound(s: View, mem': seq<Byte>, b: nat, size: nat)
    requires Sound(s.mem, s.used, s.live) && b in s.live && Pages(size) == Pages(s.live[b]) && size < TWO64
    requires |mem'| == |s.mem| && b * PAGE_SIZE + 16 <= |s.mem| && WordAt(mem', b * PAGE_SIZE + 8) == size
    requires forall i :: 0 <= i < |s.mem| && !(b * PAGE_SIZE + 8 <= i < b * PAGE_SIZE + 16) ==> mem'[i] == s.mem[i]
    ensures Sound(mem', s.used, s.live[b := size])
    ensures Resized(s, View(mem', s.used, s.live[b := size]), Pointer(b), size, Pointer(b))
  {
    hide Pages, WordAt, Contents;
    var mem, live, live' := s.mem, s.live, s.live[b := size];
    assert BlockSound(mem, s.used, b, live[b]);
    WordStable(mem, mem', b * PAGE_SIZE);
    assert BlockSound(mem', s.used, b, size);
    forall a | a in live && a != b
      ensures BlockSound(mem', s.used, a, live[a]) && Contents(mem', a, live[a]) == Contents(mem, a, live[a])
    {
      BlockStable(mem, mem', b, b + Pages(live[b]) + 1, s.used, s.used, a, live[a]);
    }
    assert live' == (live - {b})[b := size];
    SamePrefix(mem, mem', b, live[b], size);
  }

  lemma CopiedPrefix(mem: seq<Byte>, mem': seq<Byte>, b: nat, was: nat, b': nat, size: nat, kept: nat)
    requires (b + Pages(was) + 1) * PAGE_SIZE <= |mem| && (b' + Pages(size) + 1) * PAGE_SIZE <= |mem'| == |mem|
    requires kept == if was > size then size else was
    requires (b + 1) * PAGE_SIZE + kept <= |mem| && (b' + 1) * PAGE_SIZE + kept <= |mem|
    requires mem'[(b' + 1) * PAGE_SIZE..(b' + 1) * PAGE_SIZE + kept] ==
             mem[(b + 1) * PAGE_SIZE..(b + 1) * PAGE_SIZE + kept]
    ensures Prefix(mem, b, was, mem', b', size)
  {
    hide Pages;
    PagesCover(was);
    PagesCover(size);
    assert Contents(mem', b', size)[..kept] == mem'[(b' + 1) * PAGE_SIZE..(b' + 1) * PAGE_SIZE + kept];
    assert Contents(mem, b, was)[..kept] == mem[(b + 1) * PAGE_SIZE..(b + 1) * PAGE_SIZE + kept];
  }

  /** Copying the leading bytes of block `b` over those of block `b'`. */
  lemma CopySound(mem: seq<Byte>, used: set<nat>, live: Blocks, b: nat, b': nat, n: nat)
    requires Sound(mem, used, live) && b in live && b' in live
    requires n == if live[b] > live[b'] then live[b'] else live[b]
    ensures var from, to := (b + 1) * PAGE_SIZE, (b' + 1) * PAGE_SIZE;
            && from + n <= |mem| && to + n <= |mem|
            && var mem' := Patch(mem, to, mem[from..from + n]);
            && Sound(mem', used, live) && SameContents(mem, mem', live - {b'})
            && Prefix(mem, b, live[b], mem', b', live[b'])
  {
    hide Pages, Sound, SameContents, Prefix, Patch;
    BlockRange(mem, used, live, b);
    BlockRange(mem, used, live, b');
    var from, to := (b + 1) * PAGE_SIZE, (b' + 1) * PAGE_SIZE;
    var data := mem[from..from + n];
    PatchExact(mem, to, data);
    var mem' := Patch(mem, to, data);
    DataSound(mem, mem', used, live, b');
    CopiedPrefix(mem, mem', b, live[b], b', live[b'], n);
  }

  lemma BlockRange(mem: seq<Byte>, used: set<nat>, live: Blocks, b: nat)
    requires Sound(mem, used, live) && b in live
    ensures (b + 1) * PAGE_SIZE + live[b] <= (b + Pages(live[b]) + 1) * PAGE_SIZE <= |mem|
  {
    hide Pages, WordAt, Span;
    PagesCover(live[b]);
  }

  lemma SamePrefix(mem: seq<Byte>, mem': seq<Byte>, b: nat, was: nat, size: nat)
    requires (b + Pages(size) + 1) * PAGE_SIZE <= |mem| == |mem'| && Pages(size) == Pages(was)
    requires forall i :: (b + 1) * PAGE_SIZE <= i < |mem| ==> mem'[i] == mem[i]
    ensures Prefix(mem, b, was, mem', b, size)
  {
    hide Pages;
    PagesCover(was);
    PagesCover(size);
    var kept := if was > size then size else was;
    assert Contents(mem', b, size)[..kept] == Contents(mem, b, was)[..kept];
  }

  /** krealloc to another place: allocate, copy, free. */
  lemma MovedView(s: View, t: View, u: View, v: View, addr: nat, addr': nat, size: nat)
    requires Sound(s.mem, s.used, s.live) && Allocated(s, t, size, addr')
    requires BlockOf(addr) in s.live && addr == Pointer(BlockOf(addr))
    requires u.used == t.used && u.live == t.live && |u.mem| == |t.mem| == |s.mem|
    requires SameContents(t.mem, u.mem, t.live - {BlockOf(addr')})
    requires Prefix(t.mem, BlockOf(addr), s.live[BlockOf(addr)], u.mem, BlockOf(addr'), size)
    requires Released(u, v, addr)
    ensures Resized(s, v, addr, size, addr')
  {
    hide Pages, WordAt, Contents, Span;
    var b, b' := BlockOf(addr), BlockOf(addr');
    assert BlockSound(s.mem, s.used, b, s.live[b]);
    assert b' !in s.live && b' != b;
    assert b in u.live && u.live[b] == s.live[b];
    assert v.live == (s.live - {b})[b' := size];
    assert v.used == s.used - Span(b, s.live[b]) + Span(b', size);
    forall a | a in s.live && a != b
      ensures (a + Pages(s.live[a]) + 1) * PAGE_SIZE <= |s.mem|
      ensures Contents(v.mem, a, s.live[a]) == Contents(s.mem, a, s.live[a])
    {
      assert a in t.live - {b'} && t.live[a] == s.live[a];
    }
  }

  /** The leading bytes of a block of `was` bytes are the leading bytes of a block of `size` bytes. */
  ghost predicate Prefix(mem: seq<Byte>, b: nat, was: nat, mem': seq<Byte>, b': nat, size: nat) {
    && (b + Pages(was) + 1) * PAGE_SIZE <= |mem| && (b' + Pages(size) + 1) * PAGE_SIZE <= |mem'|
    && var kept := if was > size then size else was;
    Contents(mem', b', size)[..kept] == Contents(mem, b, was)[..kept]
  }

  /** The store of the new size, and what becomes of the block: it stays sound unless the sizes wrap. */
  lemma InPlaceIff(s: View, mem': seq<Byte>, b: nat, size: nat)
    requires Sound(s.mem, s.used, s.live) && b in s.live && size < TWO64 && |s.mem| <= MEM_PHYS_OFFSET
    requires RoundUp(s.live[b]) == RoundUp(size)
    requires |mem'| == |s.mem| && b * PAGE_SIZE + 16 <= |s.mem| && WordAt(mem', b * PAGE_SIZE + 8) == size
    requires forall i :: 0 <= i < |s.mem| && !(b * PAGE_SIZE + 8 <= i < b * PAGE_SIZE + 16) ==> mem'[i] == s.mem[i]
    ensures Sound(mem', s.used, s.live[b := size]) <==> !Wraps(s.live[b], size)
    ensures !Wraps(s.live[b], size) ==>
              Resized(s, View(mem', s.used, s.live[b := size]), Pointer(b), size, Pointer(b))
  {
    hide Pages, WordAt, RoundUp, Resized;
    assert BlockSound(s.mem, s.used, b, s.live[b]);
    PagesCover(s.live[b]);
    SameRoundUpIff(s.live[b], size);
    if Wraps(s.live[b], size) {
      WordStable(s.mem, mem', b * PAGE_SIZE);
      assert !BlockSound(mem', s.used, b, size);
      assert b in s.live[b := size];
    } else {
      InPlaceSound(s, mem', b, size);
    }
  }

  /** The wrap happens: an empty block grows to 2^64 - 1 bytes in place. */
  lemma EmptyBlockWraps()
    ensures RoundUp(0) == RoundUp(TWO64 - 1) && Pages(0) != Pages(TWO64 - 1)
  {
    SameRoundUpIff(0, TWO64 - 1);
  }

  // ----- a failed allocation -----

  lemma ClearedBytes(count: nat)
    ensures count * PAGE_SIZE % TWO64 == ClearedFrames(count) * PAGE_SIZE
  {
    var q := count / 0x10_0000_0000_0000;
    assert count * PAGE_SIZE == q * TWO64 + ClearedFrames(count) * PAGE_SIZE;
    Quotient(count * PAGE_SIZE, q, ClearedFrames(count) * PAGE_SIZE, TWO64);
  }

  /** `mem` after the first `n` frames, as far as there are any, are cleared. */
  ghost predicate LowCleared(mem: seq<Byte>, mem': seq<Byte>, n: nat) {
    && OnlyFrames(mem, mem', 0, n)
    && forall i :: 0 <= i < |mem| && i < n * PAGE_SIZE ==> mem'[i] == 0
  }

  lemma {:induction false} ZeroWord(s: seq<Byte>)
    requires forall i :: 0 <= i < |s| ==> s[i] == 0
    ensures FromBytes(s) == 0
  {
    if s != [] {
      ZeroWord(s[1..]);
    }
  }

  /** The blocks with a header in the first `n` frames are empty. */
  ghost predicate LowEmpty(live: Blocks, n: nat) { forall b :: b in live && b < n ==> live[b] == 0 }

  /** A failed allocation of `n` frames clears low memory. The blocks survive exactly if those with a header
      down there are empty. */
  lemma FailureSurvivedIff(mem: seq<Byte>, mem': seq<Byte>, used: set<nat>, live: Blocks, n: nat)
    requires Sound(mem, used, live) && LowCleared(mem, mem', n)
    ensures Sound(mem', used, live) <==> LowEmpty(live, n)
  {
    hide Span, WordAt;
    forall b | b in live
      ensures if b < n then BlockSound(mem', used, b, live[b]) <==> live[b] == 0 else BlockSound(mem', used, b, live[b])
    {
      if b < n {
        LowHeader(mem, mem', used, b, live[b], n);
      } else {
        BlockStable(mem, mem', 0, n, used, used, b, live[b]);
      }
    }
  }

  lemma LowHeader(mem: seq<Byte>, mem': seq<Byte>, used: set<nat>, b: nat, size: nat, n: nat)
    requires BlockSound(mem, used, b, size) && LowCleared(mem, mem', n) && b < n
    ensures BlockSound(mem', used, b, size) <==> size == 0
  {
    hide Span;
    var at := b * PAGE_SIZE;
    ZeroWord(mem'[at..at + 8]);
    ZeroWord(mem'[at + 8..at + 16]);
  }

  /** If the blocks survive, so do their bytes. */
  lemma SurvivedContents(mem: seq<Byte>, mem': seq<Byte>, used: set<nat>, live: Blocks, n: nat)
    requires Sound(mem, used, live) && LowCleared(mem, mem', n) && LowEmpty(live, n)
    ensures SameContents(mem, mem', live)
  {
    hide Span, WordAt, Pages, Contents;
    forall a | a in live
      ensures (a + Pages(live[a]) + 1) * PAGE_SIZE <= |mem| && Contents(mem', a, live[a]) == Contents(mem, a, live[a])
    {
      assert BlockSound(mem, used, a, live[a]);
      if a < n {
        assert Contents(mem, a, 0) == [] && Contents(mem', a, 0) == [];
      } else {
        BlockStable(mem, mem', 0, n, used, used, a, live[a]);
      }
    }
  }

  // ----- whole runs -----

  ghost function Spans(live: Blocks): set<nat> { set b, f | b in live && f in Span(b, live[b]) :: f }

  /** The blocks of `base` are still there, with the same bytes. */
  ghost predicate Kept(base: View, s: View) {
    && (forall b :: b in base.live ==> b in s.live && s.live[b] == base.live[b])
    && SameContents(base.mem, s.mem, base.live)
  }

  ghost predicate IsPointer(p: nat, live: Blocks) {
    p > MEM_PHYS_OFFSET && BlockOf(p) in live && p == Pointer(BlockOf(p))
  }

  /** The blocks that are not in `base` are those held in `hs`, each once; 0 is the null pointer. */
  ghost predicate Holding(base: Blocks, live: Blocks, hs: seq<nat>) {
    && (forall i :: 0 <= i < |hs| && hs[i] != 0 ==> IsPointer(hs[i], live) && BlockOf(hs[i]) !in base)
    && (forall i, j :: 0 <= i < j < |hs| && hs[i] != 0 ==> hs[i] != hs[j])
    && (forall b :: b in live ==> b in base || Pointer(b) in hs)
  }

  /** The frames that belong to no block are the same. */
  ghost predicate Conserved(base: View, s: View) { s.used - Spans(s.live) == base.used - Spans(base.live) }

  ghost predicate Track(base: View, s: View, hs: seq<nat>) {
    Kept(base, s) && Holding(base.live, s.live, hs) && Conserved(base, s)
  }

  /** Frames of two blocks never meet. */
  lemma SpansApart(live: Blocks, a: nat, b: nat)
    requires Apart(live) && a in live && b in live && a != b
    ensures Span(a, live[a]) !! Span(b, live[b])
  {
    if a < b {} else {}
  }

  lemma SpansAdd(live: Blocks, b: nat, size: nat)
    requires b !in live
    ensures Spans(live[b := size]) == Spans(live) + Span(b, size)
  {
    hide Span;
    var live' := live[b := size];
    forall f | f in Spans(live) + Span(b, size) ensures f in Spans(live') {
      if f in Spans(live) {
        var a :| a in live && f in Span(a, live[a]);
        assert a in live' && f in Span(a, live'[a]);
      } else {
        assert b in live' && f in Span(b, live'[b]);
      }
    }
  }

  lemma SpansRemove(live: Blocks, b: nat)
    requires Apart(live) && b in live
    ensures Spans(live - {b}) == Spans(live) - Span(b, live[b]) && Span(b, live[b]) <= Spans(live)
  {
    hide Span;
    var rest := live - {b};
    assert live == rest[b := live[b]];
    SpansAdd(rest, b, live[b]);
    forall f | f in Spans(rest) ensures f !in Span(b, live[b]) {
      var a :| a in rest && f in Span(a, rest[a]);
      SpansApart(live, a, b);
    }
  }

  lemma SpansUsed(s: View)
    requires Sound(s.mem, s.used, s.live)
    ensures Spans(s.live) <= s.used
  {
    hide Span;
    forall f | f in Spans(s.live) ensures f in s.used {
      var b :| b in s.live && f in Span(b, s.live[b]);
      assert BlockSound(s.mem, s.used, b, s.live[b]);
    }
  }

  lemma HoldingDrop(base: Blocks, live: Blocks, hs: seq<nat>, h: nat)
    requires Holding(base, live, hs) && h < |hs| && hs[h] != 0
    ensures Holding(base, live - {BlockOf(hs[h])}, hs[h := 0])
  {
    hide BlockOf, Pointer;
    var b, hs' := BlockOf(hs[h]), hs[h := 0];
    forall a | a in live && a != b && a !in base ensures Pointer(a) in hs' {
      var i :| 0 <= i < |hs| && hs[i] == Pointer(a);
      assert hs'[i] == Pointer(a);
    }
  }

  lemma HoldingPut(base: Blocks, live: Blocks, hs: seq<nat>, h: nat, b: nat, size: nat)
    requires Holding(base, live, hs) && h < |hs| && hs[h] == 0 && b !in live && b !in base
    ensures Holding(base, live[b := size], hs[h := Pointer(b)])
  {
    hide BlockOf;
    var live', hs' := live[b := size], hs[h := Pointer(b)];
    assert BlockOf(Pointer(b)) == b;
    forall a | a in live' && a !in base ensures Pointer(a) in hs' {
      if a == b {
        assert hs'[h] == Pointer(a);
      } else {
        var i :| 0 <= i < |hs| && hs[i] == Pointer(a);
        assert hs'[i] == Pointer(a);
      }
    }
  }

  /** One span of the used frames is exchanged for another that was free, or kept. */
  lemma Exchange(used: set<nat>, blocks: set<nat>, gone: set<nat>, come: set<nat>)
    requires gone <= blocks <= used && (come == gone || come !! used)
    ensures (used - gone + come) - (blocks - gone + come) == used - blocks
  {
  }

  lemma ConservedAllocated(base: View, s: View, s': View, size: nat, addr: nat)
    requires Conserved(base, s) && Sound(s.mem, s.used, s.live) && Allocated(s, s', size, addr)
    ensures Conserved(base, s')
  {
    hide Span, Spans, SameContents, Contents, Pages, Sound;
    SpansAdd(s.live, BlockOf(addr), size);
    SpansUsed(s);
    Exchange(s.used, Spans(s.live), {}, Span(BlockOf(addr), size));
  }

  lemma ConservedResized(base: View, s: View, s': View, addr: nat, size: nat, addr': nat)
    requires Conserved(base, s) && Sound(s.mem, s.used, s.live) && Resized(s, s', addr, size, addr')
    ensures Conserved(base, s')
  {
    hide Spans, SameContents, Prefix, Pages, Run, BlockOf;
    var b, b' := BlockOf(addr), BlockOf(addr');
    SpansRemove(s.live, b);
    SpansAdd(s.live - {b}, b', size);
    SpansUsed(s);
    Exchange(s.used, Spans(s.live), Span(b, s.live[b]), Span(b', size));
  }

  lemma TrackPut(base: View, s: View, hs: seq<nat>, h: nat, s': View, size: nat, addr: nat)
    requires Track(base, s, hs) && Sound(s.mem, s.used, s.live) && Allocated(s, s', size, addr)
    requires h < |hs| && hs[h] == 0
    ensures Track(base, s', hs[h := addr])
  {
    hide Span, Spans, Contents, Pages, Holding, Sound, Conserved;
    ConservedAllocated(base, s, s', size, addr);
    HoldingPut(base.live, s.live, hs, h, BlockOf(addr), size);
  }

  lemma TrackAllocated(base: View, s: View, hs: seq<nat>, s': View, size: nat, addr: nat)
    requires Track(base, s, hs) && Sound(s.mem, s.used, s.live) && Allocated(s, s', size, addr)
    ensures Track(base, s', hs + [addr])
  {
    hide Kept, Holding, Sound, Conserved, Allocated;
    HoldingNull(base.live, s.live, hs);
    TrackPut(base, s, hs + [0], |hs|, s', size, addr);
    assert (hs + [0])[|hs| := addr] == hs + [addr];
  }

  lemma HoldingNull(base: Blocks, live: Blocks, hs: seq<nat>)
    requires Holding(base, live, hs)
    ensures Holding(base, live, hs + [0])
  {
    forall b | b in live && b !in base ensures Pointer(b) in hs + [0] {
      assert Pointer(b) in hs;
    }
  }

  lemma TrackReleased(base: View, s: View, hs: seq<nat>, h: nat, s': View)
    requires Track(base, s, hs) && Sound(s.mem, s.used, s.live) && h < |hs| && hs[h] != 0 && Released(s, s', hs[h])
    ensures Track(base, s', hs[h := 0])
  {
    hide Span, Spans, BlockSound, Holding, SameContents;
    NotInBase(base.live, s.live, hs, h);
    SpansRemove(s.live, BlockOf(hs[h]));
    HoldingDrop(base.live, s.live, hs, h);
  }

  lemma TrackResized(base: View, s: View, hs: seq<nat>, h: nat, size: nat, addr: nat, s': View)
    requires Track(base, s, hs) && Sound(s.mem, s.used, s.live)
    requires h < |hs| && hs[h] != 0 && Resized(s, s', hs[h], size, addr)
    ensures Track(base, s', hs[h := addr])
  {
    hide Span, Spans, Contents, Pages, Prefix, Sound, Conserved, Holding;
    var b, b' := BlockOf(hs[h]), BlockOf(addr);
    ConservedResized(base, s, s', hs[h], size, addr);
    HoldingDrop(base.live, s.live, hs, h);
    NotInBase(base.live, s.live, hs, h);
    assert forall a :: a in base.live ==> a in s.live - {b} && (s.live - {b})[a] == base.live[a];
    HoldingPut(base.live, s.live - {b}, hs[h := 0], h, b', size);
    assert hs[h := 0][h := addr] == hs[h := addr];
  }

  lemma NotInBase(base: Blocks, live: Blocks, hs: seq<nat>, h: nat)
    requires Holding(base, live, hs) && h < |hs| && hs[h] != 0
    ensures BlockOf(hs[h]) !in base
  {
  }

  lemma TrackWritten(base: View, s: View, hs: seq<nat>, h: nat, at: nat, data: seq<Byte>, s': View)
    requires Track(base, s, hs) && h < |hs| && hs[h] != 0 && Written(s, s', hs[h], at, data)
    ensures Track(base, s', hs)
  {
    hide Span, Spans, Contents, Pages, Patch;
    var b := BlockOf(hs[h]);
    NotInBase(base.live, s.live, hs, h);
    assert forall a :: a in base.live ==> a in s.live - {b} && (s.live - {b})[a] == base.live[a];
  }

  /** What a caller does: a call of the allocator, or a store into a block it holds. */
  datatype Op = Malloc(size: nat) | Resize(h: nat, size: nat) | Release(h: nat)
              | StoreAt(h: nat, at: nat, data: seq<Byte>)

  /** How it ends. `Wrapped` is a resize of an empty block to a size near 2^64. */
  datatype Outcome = Completed | NoRoom | Wrapped

  // ----- the byte strings that the blocks stand for -----

  /** What a pointer stands for: no block if it is null, else the size of the block, and its leading bytes as
      far as they are determined. */
  datatype Held = NoBlock | Held(size: nat, bytes: seq<Byte>)

  function Overlay(s: seq<Byte>, at: nat, data: seq<Byte>): seq<Byte> {
    seq(|s|, i requires 0 <= i < |s| => if at <= i < at + |data| then data[i - at] else s[i])
  }

  /** One operation on independent byte strings, one per pointer. */
  function OnBytes(ks: seq<Held>, op: Op): seq<Held> {
    match op
    case Malloc(size) => ks + [Held(size, Zeros(size))]
    case Resize(h, size) =>
      if h >= |ks| then ks
      else if ks[h] == NoBlock then ks[h := Held(size, Zeros(size))]
      else if size == 0 then ks[h := NoBlock]
      else ks[h := Held(size, if |ks[h].bytes| > size then ks[h].bytes[..size] else ks[h].bytes)]
    case Release(h) => if h >= |ks| then ks else ks[h := NoBlock]
    case StoreAt(h, at, data) =>
      if h >= |ks| || ks[h] == NoBlock || at + |data| > ks[h].size then ks
      else ks[h := Held(ks[h].size, Overlay(ks[h].bytes, at, data))]
  }

  function BytesAfter(ks: seq<Held>, ops: seq<Op>): seq<Held> {
    if ops == [] then ks else OnBytes(BytesAfter(ks, ops[..|ops| - 1]), ops[|ops| - 1])
  }

  ghost function Mallocs(ops: seq<Op>): nat {
    if ops == [] then 0 else Mallocs(ops[..|ops| - 1]) + if ops[|ops| - 1].Malloc? then 1 else 0
  }

  /** Some operation gave the block of pointer `h` back. */
  ghost predicate GaveBack(ops: seq<Op>, h: nat) { Release(h) in ops || Resize(h, 0) in ops }

  /** Every allocation yields a pointer, and a pointer is null only if its block was given back. */
  lemma {:induction false} PointersOfRun(ops: seq<Op>)
    ensures var ks := BytesAfter([], ops);
            |ks| == Mallocs(ops) && forall h :: 0 <= h < |ks| && ks[h] == NoBlock ==> GaveBack(ops, h)
    decreases |ops|
  {
    if ops != [] {
      var front, op := ops[..|ops| - 1], ops[|ops| - 1];
      PointersOfRun(front);
      assert ops == front + [op];
    }
  }

  /** A pointer is null after its block was released. */
  lemma ReleaseIsNull(ks: seq<Held>, h: nat)
    requires h < |ks|
    ensures OnBytes(ks, Release(h))[h] == NoBlock && (ks[h].Held? ==> OnBytes(ks, Resize(h, 0))[h] == NoBlock)
  {
  }

  /** Operations on other pointers leave a string alone. */
  lemma {:induction false} OthersLeave(ks: seq<Held>, ops: seq<Op>, h: nat)
    requires h < |ks| && forall i :: 0 <= i < |ops| ==> ops[i].Malloc? || ops[i].h != h
    ensures h < |BytesAfter(ks, ops)| && BytesAfter(ks, ops)[h] == ks[h]
    decreases |ops|
  {
    if ops != [] {
      OthersLeave(ks, ops[..|ops| - 1], h);
    }
  }

  /** A caller reads back what it stored, whatever happens to other pointers in between, and the other bytes of
      the block are as before the store. */
  lemma StoreReadsBack(ks: seq<Held>, h: nat, at: nat, data: seq<Byte>, ops: seq<Op>)
    requires h < |ks| && ks[h].Held? && at + |data| <= |ks[h].bytes| <= ks[h].size
    requires forall i :: 0 <= i < |ops| ==> ops[i].Malloc? || ops[i].h != h
    ensures var k := BytesAfter(OnBytes(ks, StoreAt(h, at, data)), ops);
            && h < |k| && k[h].Held? && k[h].size == ks[h].size && |k[h].bytes| == |ks[h].bytes|
            && k[h].bytes[at..at + |data|] == data
            && k[h].bytes[..at] == ks[h].bytes[..at] && k[h].bytes[at + |data|..] == ks[h].bytes[at + |data|..]
  {
    OthersLeave(OnBytes(ks, StoreAt(h, at, data)), ops, h);
  }

  ghost predicate HeldAt(s: View, p: nat, k: Held) {
    var b := BlockOf(p);
    && k.Held? && b in s.live && s.live[b] == k.size && |k.bytes| <= k.size
    && (b + Pages(k.size) + 1) * PAGE_SIZE <= |s.mem|
    && Contents(s.mem, b, k.size)[..|k.bytes|] == k.bytes
  }

  /** Every pointer in `hs` leads to the byte string that belongs to it, or is null if there is none. */
  ghost predicate Known(s: View, hs: seq<nat>, ks: seq<Held>) {
    |ks| == |hs| && forall i :: 0 <= i < |hs| ==> if hs[i] == 0 then ks[i] == NoBlock else HeldAt(s, hs[i], ks[i])
  }

  /** A pointer to a block other than `b` leads to the same bytes. */
  lemma HeldStays(s: View, s': View, p: nat, k: Held, live: Blocks)
    requires HeldAt(s, p, k) && k.Held? && BlockOf(p) in live && BlockOf(p) in s'.live
    requires s'.live[BlockOf(p)] == live[BlockOf(p)] == k.size && SameContents(s.mem, s'.mem, live)
    ensures HeldAt(s', p, k)
  {
    hide Contents, Pages, BlockOf;
  }

  /** A new block for a null pointer. */
  lemma KnownPut(s: View, hs: seq<nat>, ks: seq<Held>, h: nat, s': View, size: nat, addr: nat)
    requires Known(s, hs, ks) && Allocated(s, s', size, addr) && h < |hs| && hs[h] == 0
    ensures Known(s', hs[h := addr], ks[h := Held(size, Zeros(size))])
  {
    hide HeldAt, Contents, Pages, Span, BlockOf, SameContents;
    forall i | 0 <= i < |hs| && hs[i] != 0 ensures HeldAt(s', hs[i], ks[i]) {
      HeldBlock(s, hs[i], ks[i]);
      HeldStays(s, s', hs[i], ks[i], s.live);
    }
    NewHeld(s, s', size, addr);
  }

  lemma KnownAllocated(s: View, hs: seq<nat>, ks: seq<Held>, s': View, size: nat, addr: nat)
    requires Known(s, hs, ks) && Allocated(s, s', size, addr)
    ensures Known(s', hs + [addr], OnBytes(ks, Malloc(size)))
  {
    hide HeldAt, Allocated;
    KnownPut(s, hs + [0], ks + [NoBlock], |hs|, s', size, addr);
    assert (hs + [0])[|hs| := addr] == hs + [addr];
    assert (ks + [NoBlock])[|hs| := Held(size, Zeros(size))] == ks + [Held(size, Zeros(size))];
  }

  lemma HeldBlock(s: View, p: nat, k: Held)
    requires HeldAt(s, p, k)
    ensures k.Held? && BlockOf(p) in s.live && s.live[BlockOf(p)] == k.size
  {
  }

  lemma NewHeld(s: View, s': View, size: nat, addr: nat)
    requires Allocated(s, s', size, addr)
    ensures HeldAt(s', addr, Held(size, Zeros(size)))
  {
    hide Contents, Pages, Span, BlockOf, SameContents;
  }

  lemma KnownReleased(s: View, hs: seq<nat>, ks: seq<Held>, h: nat, s': View, op: Op)
    requires Known(s, hs, ks) && h < |hs| && hs[h] != 0 && Released(s, s', hs[h])
    requires forall i :: 0 <= i < |hs| && i != h && hs[i] != 0 ==> BlockOf(hs[i]) != BlockOf(hs[h])
    requires op == Release(h) || op == Resize(h, 0)
    ensures Known(s', hs[h := 0], OnBytes(ks, op))
  {
    hide Contents, Pages, Span, BlockOf, SameContents;
  }

  lemma KnownResized(s: View, hs: seq<nat>, ks: seq<Held>, h: nat, size: nat, addr: nat, s': View)
    requires Known(s, hs, ks) && h < |hs| && hs[h] != 0 && Resized(s, s', hs[h], size, addr) && size > 0
    requires forall i :: 0 <= i < |hs| && i != h && hs[i] != 0 ==> BlockOf(hs[i]) != BlockOf(hs[h])
    ensures Known(s', hs[h := addr], OnBytes(ks, Resize(h, size)))
  {
    hide HeldAt, Contents, Pages, Span, BlockOf, SameContents, Prefix;
    var b := BlockOf(hs[h]);
    forall i | 0 <= i < |hs| && i != h && hs[i] != 0 ensures HeldAt(s', hs[i], ks[i]) {
      HeldBlock(s, hs[i], ks[i]);
      assert BlockOf(hs[i]) in s.live - {b};
      HeldStays(s, s', hs[i], ks[i], s.live - {b});
    }
    HeldBlock(s, hs[h], ks[h]);
    ResizedHeld(s, hs[h], ks[h], size, addr, s');
    assert addr != 0;
  }

  lemma ResizedHeld(s: View, p: nat, k: Held, size: nat, addr: nat, s': View)
    requires HeldAt(s, p, k) && k.Held? && Resized(s, s', p, size, addr)
    ensures HeldAt(s', addr, Held(size, if |k.bytes| > size then k.bytes[..size] else k.bytes))
  {
    hide Pages, Span, BlockOf, SameContents, Contents;
    var b, b' := BlockOf(p), BlockOf(addr);
    var kept := if k.size > size then size else k.size;
    var n := if |k.bytes| > size then size else |k.bytes|;
    var c, c' := Contents(s.mem, b, k.size), Contents(s'.mem, b', size);
    assert c'[..n] == c'[..kept][..n] == c[..kept][..n] == c[..n];
    assert c[..n] == c[..|k.bytes|][..n];
  }

  lemma KnownWritten(s: View, hs: seq<nat>, ks: seq<Held>, h: nat, at: nat, data: seq<Byte>, s': View)
    requires Known(s, hs, ks) && h < |hs| && hs[h] != 0 && Written(s, s', hs[h], at, data)
    requires forall i :: 0 <= i < |hs| && i != h && hs[i] != 0 ==> BlockOf(hs[i]) != BlockOf(hs[h])
    ensures Known(s', hs, OnBytes(ks, StoreAt(h, at, data)))
  {
    hide HeldAt, Contents, Pages, BlockOf, SameContents, Overlay, Patch;
    var b := BlockOf(hs[h]);
    HeldBlock(s, hs[h], ks[h]);
    forall i | 0 <= i < |hs| && i != h && hs[i] != 0 ensures HeldAt(s', hs[i], ks[i]) {
      HeldBlock(s, hs[i], ks[i]);
      assert BlockOf(hs[i]) in s.live - {b};
      HeldStays(s, s', hs[i], ks[i], s.live - {b});
    }
    WrittenHeld(s, hs[h], ks[h], at, data, s');
  }

  lemma WrittenHeld(s: View, p: nat, k: Held, at: nat, data: seq<Byte>, s': View)
    requires HeldAt(s, p, k) && k.Held? && Written(s, s', p, at, data)
    ensures HeldAt(s', p, Held(k.size, Overlay(k.bytes, at, data)))
  {
    hide Pages, BlockOf, SameContents, Contents;
    var b := BlockOf(p);
    var c, c' := Contents(s.mem, b, k.size), Contents(s'.mem, b, k.size);
    assert c[..|k.bytes|] == k.bytes;
    assert c'[..|k.bytes|] == Overlay(k.bytes, at, data);
  }

  /** A caller whose blocks survive a failed allocation can go on. */
  lemma FailedKeeps(base: View, s: View, hs: seq<nat>, ks: seq<Held>, s': View, size: nat)
    requires Track(base, s, hs) && Known(s, hs, ks) && Sound(s.mem, s.used, s.live) && Failed(s, s', size)
    ensures Sound(s'.mem, s'.used, s'.live) <==> LowEmpty(s'.live, ClearedFrames(Pages(size) + 1))
    ensures Sound(s'.mem, s'.used, s'.live) ==> Track(base, s', hs) && Known(s', hs, ks)
  {
    hide Sound, SameContents, HeldAt, Holding, LowCleared, LowEmpty, BlockOf, Pages, Spans;
    var n := ClearedFrames(Pages(size) + 1);
    FailureSurvivedIff(s.mem, s'.mem, s.used, s.live, n);
    if LowEmpty(s.live, n) {
      SurvivedContents(s.mem, s'.mem, s.used, s.live, n);
      BaseSurvives(base, s, s'.mem);
      forall i | 0 <= i < |hs| && hs[i] != 0 ensures HeldAt(s', hs[i], ks[i]) {
        HeldBlock(s, hs[i], ks[i]);
        HeldStays(s, s', hs[i], ks[i], s.live);
      }
    }
  }

  lemma BaseSurvives(base: View, s: View, mem': seq<Byte>)
    requires Kept(base, s) && SameContents(s.mem, mem', s.live)
    ensures SameContents(base.mem, mem', base.live)
  {
    hide Contents, Pages;
  }

  /** Pointers held twice would be the same block twice. */
  lemma HeldApart(base: View, s: View, hs: seq<nat>, h: nat)
    requires Track(base, s, hs) && h < |hs| && hs[h] != 0
    ensures IsPointer(hs[h], s.live)
    ensures forall i :: 0 <= i < |hs| && i != h && hs[i] != 0 ==> BlockOf(hs[i]) != BlockOf(hs[h])
  {
    hide BlockOf, Kept, Conserved;
  }

  // ----- the allocator -----

  function Zeros(n: nat): (r: seq<Byte>)
    ensures |r| == n && forall i :: 0 <= i < n ==> r[i] == 0
  {
    seq(n, _ => 0)
  }

  class Kmem {
    const pmm: Pmm
    var mem: seq<Byte>
    ghost var live: Blocks

    ghost predicate Valid()
      reads this, pmm, pmm.bitmap
    {
      && pmm.Valid() && |mem| == pmm.bitmap.Length * PAGE_SIZE <= MEM_PHYS_OFFSET
      && Sound(mem, pmm.Used(), live)
    }

    constructor (pmm: Pmm)
      requires pmm.Valid() && pmm.bitmap.Length * PAGE_SIZE <= MEM_PHYS_OFFSET
      ensures Valid() && this.pmm == pmm && live == map[]
    {
      this.pmm := pmm;
      mem := Zeros(pmm.bitmap.Length * PAGE_SIZE);
      live := map[];
    }

    method StoreWord(at: nat, w: Word)
      requires at + 8 <= |mem|
      modifies this`mem
      ensures |mem| == old(|mem|) && WordAt(mem, at) == w
      ensures forall i :: 0 <= i < |mem| && !(at <= i < at + 8) ==> mem[i] == old(mem[i])
    {
      hide WordAt, ToBytes;
      StoreWordAt(mem, at, w);
      mem := Patch(mem, at, ToBytes(w, 8));
    }

    /** memset to zero, as far as memory goes. */
    method Clear(at: nat, n: nat)
      requires at <= |mem|
      modifies this`mem
      ensures |mem| == old(|mem|)
      ensures forall i :: 0 <= i < |mem| ==> mem[i] == if at <= i < at + n then 0 else old(mem[i])
    {
      mem := Patch(mem, at, Zeros(if at + n <= |mem| then n else |mem| - at));
    }

    /** The header that kmalloc writes at the start of a cleared run. */
    method WriteHeader(b: nat, size: nat)
      requires size < TWO64 && (b + Pages(size) + 1) * PAGE_SIZE <= |mem| && 0 < b
      modifies this`mem
      ensures |mem| == old(|mem|) && OnlyFrames(old(mem), mem, b, b + Pages(size) + 1)
      ensures BlockSound(mem, Span(b, size), b, size)
      ensures Contents(mem, b, size) == Contents(old(mem), b, size)
    {
      hide Span, WordAt;
      PagesCover(size);
      StoreWord(b * PAGE_SIZE, Pages(size));
      ghost var mid := mem;
      StoreWord(b * PAGE_SIZE + 8, size);
      WordStable(mid, mem, b * PAGE_SIZE);
      assert Contents(mem, b, size) == Contents(old(mem), b, size);
    }

    ghost function Now(): View
      reads this, pmm, pmm.bitmap
    {
      View(mem, pmm.Used(), live)
    }

    /** pmm_alloc: the run found is cleared; if there is none, memory is cleared from address 0 on. */
    method PmmAlloc(count: nat) returns (phys: nat)
      requires pmm.Valid() && |mem| == pmm.bitmap.Length * PAGE_SIZE <= MEM_PHYS_OFFSET && count > 0
      modifies this`mem, pmm`freePages, pmm.bitmap
      ensures pmm.Valid() && |mem| == old(|mem|) && pmm.Total() == old(pmm.Total())
      ensures phys == 0 ==> LowCleared(old(mem), mem, ClearedFrames(count))
      ensures phys == 0 ==> pmm.Used() == old(pmm.Used()) && pmm.bitmap[..] == old(pmm.bitmap[..])
      ensures phys == 0 ==> NoFitBelow(pmm.bitmap[..], pmm.bitmap.Length, count, 1)
      ensures phys != 0 ==>
                && phys % PAGE_SIZE == 0 && OnlyFrames(old(mem), mem, phys / PAGE_SIZE, phys / PAGE_SIZE + count)
                && (forall i :: phys <= i < phys + count * PAGE_SIZE && i < |mem| ==> mem[i] == 0)
                && phys + count * PAGE_SIZE <= |mem|
                && Run(phys / PAGE_SIZE, count) !! old(pmm.Used())
                && pmm.Used() == old(pmm.Used()) + Run(phys / PAGE_SIZE, count)
    {
      hide Pmm.Valid, Pmm.Total, UsedIn, Run;
      phys := pmm.AllocAdvanced(count, 1);
      ClearedBytes(count);
      Clear(phys, count * PAGE_SIZE % TWO64);
    }

    /** kmalloc */
    method Alloc(size: nat) returns (addr: nat)
      requires Valid() && size < TWO64
      modifies this, pmm`freePages, pmm.bitmap
      ensures addr != 0 ==> Valid() && Allocated(old(Now()), Now(), size, addr)
      ensures addr == 0 ==> Failed(old(Now()), Now(), size)
      ensures addr == 0 ==> NoFitBelow(pmm.bitmap[..], pmm.bitmap.Length, Pages(size) + 1, 1)
      ensures pmm.Valid() && |mem| == old(|mem|) && pmm.Total() == old(pmm.Total())
    {
      hide Sound, BlockSound, Pmm.Valid, Pmm.Total, Pmm.Used, Run, Allocated, Contents, OnlyFrames;
      var pages := size / PAGE_SIZE;
      if size % PAGE_SIZE != 0 { pages := pages + 1; }
      var phys := PmmAlloc(pages + 1);
      if phys == 0 {
        return 0;
      }
      var b := phys / PAGE_SIZE;
      ghost var cleared := mem;
      WriteHeader(b, size);
      live := live[b := size];
      NewBlock(old(Now()), cleared, Now(), b, size);
      addr := MEM_PHYS_OFFSET + phys + PAGE_SIZE;
    }

    /** kfree */
    method Free(addr: nat)
      requires Valid() && IsPointer(addr, live)
      modifies this`live, pmm`freePages, pmm.bitmap
      ensures Valid() && Released(old(Now()), Now(), addr)
      ensures pmm.freePages == old(pmm.freePages + Pages(live[BlockOf(addr)]) + 1)
      ensures pmm.Total() == old(pmm.Total())
    {
      hide Pmm.Valid, Pmm.Total, Pmm.Used, WordAt, Run;
      ghost var b := BlockOf(addr);
      FreedSound(mem, pmm.Used(), live, b);
      assert BlockSound(mem, pmm.Used(), b, live[b]);
      var header := addr - PAGE_SIZE - MEM_PHYS_OFFSET;
      live := live - {b};
      pmm.Free(header, WordAt(mem, header) + 1);
    }

    /** The new size is stored in the header. */
    method SetSize(addr: nat, size: nat)
      requires Valid() && size < TWO64 && IsPointer(addr, live)
      requires RoundUp(live[BlockOf(addr)]) == RoundUp(size)
      modifies this
      ensures |mem| == old(|mem|) && live == old(live)[BlockOf(addr) := size]
      ensures Valid() <==> !Wraps(old(live)[BlockOf(addr)], size)
      ensures Valid() ==> Resized(old(Now()), Now(), addr, size, addr)
    {
      hide Pmm.Valid, Pmm.Used, Pages, WordAt, Contents, Span, RoundUp, Resized;
      ghost var b := BlockOf(addr);
      HeaderOf(mem, pmm.Used(), live, b);
      StoreWord(addr - PAGE_SIZE - MEM_PHYS_OFFSET + 8, size);
      live := live[b := size];
      InPlaceIff(old(Now()), mem, b, size);
    }

    /** A store of the caller into its block. */
    method Store(addr: nat, at: nat, data: seq<Byte>)
      requires Valid() && IsPointer(addr, live) && at + |data| <= live[BlockOf(addr)]
      modifies this`mem
      ensures Valid() && Written(old(Now()), Now(), addr, at, data)
    {
      hide Pmm.Valid, Pmm.Used, Pages, WordAt, Span, Contents, Patch, SameContents;
      ghost var b := BlockOf(addr);
      assert BlockSound(mem, pmm.Used(), b, live[b]);
      PagesCover(live[b]);
      StoredBytes(mem, b, live[b], at, data);
      mem := Patch(mem, addr - MEM_PHYS_OFFSET + at, data);
      DataSound(old(mem), mem, pmm.Used(), live, b);
    }

    /** memcpy of the first `n` bytes of one block to another. */
    method Copy(addr: nat, addr': nat, n: nat)
      requires Valid() && IsPointer(addr, live) && IsPointer(addr', live) && addr != addr'
      requires n == if live[BlockOf(addr)] > live[BlockOf(addr')] then live[BlockOf(addr')] else live[BlockOf(addr)]
      modifies this`mem
      ensures Valid() && |mem| == old(|mem|)
      ensures SameContents(old(mem), mem, live - {BlockOf(addr')})
      ensures Prefix(old(mem), BlockOf(addr), live[BlockOf(addr)], mem, BlockOf(addr'), live[BlockOf(addr')])
    {
      hide Pmm.Valid, Pmm.Used, Sound, Patch, SameContents, Prefix;
      CopySound(mem, pmm.Used(), live, BlockOf(addr), BlockOf(addr'), n);
      var from, to := addr - MEM_PHYS_OFFSET, addr' - MEM_PHYS_OFFSET;
      mem := Patch(mem, to, mem[from..from + n]);
    }

    /** krealloc to another number of pages */
    method Move(addr: nat, size: nat) returns (addr': nat)
      requires Valid() && size < TWO64 && IsPointer(addr, live)
      modifies this, pmm`freePages, pmm.bitmap
      ensures pmm.Valid() && |mem| == old(|mem|) && pmm.Total() == old(pmm.Total())
      ensures addr' != 0 ==> Valid() && Resized(old(Now()), Now(), addr, size, addr')
      ensures addr' == 0 ==> Failed(old(Now()), Now(), size)
      ensures addr' == 0 ==> NoFitBelow(pmm.bitmap[..], pmm.bitmap.Length, Pages(size) + 1, 1)
    {
      hide Pmm.Valid, Pmm.Total, Pmm.Used, Sound, Resized, Released, Failed, Pages, WordAt, Contents, Span,
        SameContents, Prefix;
      var header := addr - PAGE_SIZE - MEM_PHYS_OFFSET;
      ghost var b := BlockOf(addr);
      addr' := Alloc(size);
      if addr' == 0 {
        return 0;
      }
      ghost var t := Now();
      HeaderOf(mem, pmm.Used(), live, b);
      if WordAt(mem, header + 8) > size {
        Copy(addr, addr', size);
      } else {
        Copy(addr, addr', WordAt(mem, header + 8));
      }
      ghost var u := Now();
      Free(addr);
      MovedView(old(Now()), t, u, Now(), addr, addr', size);
    }

    /** krealloc */
    method Realloc(addr: nat, size: nat) returns (addr': nat)
      requires Valid() && size < TWO64 && (addr == 0 || IsPointer(addr, live))
      modifies this, pmm`freePages, pmm.bitmap
      ensures pmm.Valid() && |mem| == old(|mem|) && pmm.Total() == old(pmm.Total())
      ensures addr == 0 && addr' != 0 ==> Valid() && Allocated(old(Now()), Now(), size, addr')
      ensures addr != 0 && size == 0 ==> Valid() && Released(old(Now()), Now(), addr) && addr' == 0
      ensures addr != 0 && size != 0 && addr' != 0 ==>
                if Wraps(old(live)[BlockOf(addr)], size) then !Valid() && addr' == addr
                else Valid() && Resized(old(Now()), Now(), addr, size, addr')
      ensures addr' == 0 && (addr == 0 || size != 0) ==>
                && Failed(old(Now()), Now(), size) && (addr == 0 || !Wraps(old(live)[BlockOf(addr)], size))
                && NoFitBelow(pmm.bitmap[..], pmm.bitmap.Length, Pages(size) + 1, 1)
    {
      hide Pmm.Valid, Pmm.Total, Pmm.Used, Sound, Resized, Allocated, Released, Failed, Pages, WordAt, RoundUp;
      if addr == 0 {
        addr' := Alloc(size);
        return;
      }
      if size == 0 {
        Free(addr);
        return 0;
      }
      var header := addr - PAGE_SIZE - MEM_PHYS_OFFSET;
      ghost var b := BlockOf(addr);
      HeaderOf(mem, pmm.Used(), live, b);
      SizeInMemory(mem, pmm.Used(), live, b);
      SameRoundUpIff(live[b], size);
      if RoundUp(WordAt(mem, header + 8)) == RoundUp(size) {
        SetSize(addr, size);
        return addr;
      }
      addr' := Move(addr, size);
    }

    /** One operation by a caller that keeps its pointers in `hs`. */
    method Apply(op: Op, hs: seq<nat>, ghost ks: seq<Held>, ghost base: View) returns (hs': seq<nat>, r: Outcome)
      requires Valid() && Track(base, Now(), hs) && Known(Now(), hs, ks)
      requires op.Malloc? || op.Resize? ==> op.size < TWO64
      modifies this, pmm`freePages, pmm.bitmap
      ensures |mem| == old(|mem|) && pmm.Total() == old(pmm.Total())
      ensures r == Completed ==> Valid() && Track(base, Now(), hs') && Known(Now(), hs', OnBytes(ks, op))
      ensures r == NoRoom ==>
                && (op.Malloc? || op.Resize?)
                && NoFitBelow(pmm.bitmap[..], pmm.bitmap.Length, Pages(op.size) + 1, 1)
                && hs' == hs && (Valid() <==> LowEmpty(live, ClearedFrames(Pages(op.size) + 1)))
                && (Valid() ==> Track(base, Now(), hs) && Known(Now(), hs, ks))
      ensures r == Wrapped ==> !Valid()
      ensures r == Wrapped <==> op.Resize? && op.h < |ks| && ks[op.h].Held? && Wraps(ks[op.h].size, op.size)
    {
      hide Pmm.Valid, Pmm.Total, Pmm.Used, Sound, Track, Allocated, Resized, Released, Failed, Written, Pages,
        Known, OnBytes, WordAt, LowEmpty, IsPointer, BlockOf, Wraps;
      KnownNulls(Now(), hs, ks);
      hs', r := hs, Completed;
      match op
      case Malloc(size) =>
        var addr := Alloc(size);
        if addr == 0 {
          FailedKeeps(base, old(Now()), hs, ks, Now(), size);
          return hs, NoRoom;
        }
        TrackAllocated(base, old(Now()), hs, Now(), size, addr);
        KnownAllocated(old(Now()), hs, ks, Now(), size, addr);
        hs' := hs + [addr];
      case Release(h) =>
        if h < |hs| && hs[h] != 0 {
          HeldApart(base, Now(), hs, h);
          Free(hs[h]);
          TrackReleased(base, old(Now()), hs, h, Now());
          KnownReleased(old(Now()), hs, ks, h, Now(), op);
          hs' := hs[h := 0];
        } else {
          KnownNull(Now(), hs, ks, op);
        }
      case Resize(h, size) =>
        if h >= |hs| {
          KnownNull(Now(), hs, ks, op);
        } else if hs[h] != 0 {
          hs', r := ApplyResize(h, size, hs, ks, base);
        } else {
          var addr := Realloc(0, size);
          if addr == 0 {
            FailedKeeps(base, old(Now()), hs, ks, Now(), size);
            return hs, NoRoom;
          }
          TrackPut(base, old(Now()), hs, h, Now(), size, addr);
          KnownPut(old(Now()), hs, ks, h, Now(), size, addr);
          ResizeNull(ks, h, size);
          hs' := hs[h := addr];
        }
      case StoreAt(h, at, data) =>
        if h < |hs| && hs[h] != 0 {
          ApplyStore(h, at, data, hs, ks, base);
        } else {
          KnownNull(Now(), hs, ks, op);
        }
    }

    method ApplyResize(h: nat, size: nat, hs: seq<nat>, ghost ks: seq<Held>, ghost base: View)
      returns (hs': seq<nat>, r: Outcome)
      requires Valid() && Track(base, Now(), hs) && Known(Now(), hs, ks) && h < |hs| && hs[h] != 0 && size < TWO64
      modifies this, pmm`freePages, pmm.bitmap
      ensures |mem| == old(|mem|) && pmm.Total() == old(pmm.Total())
      ensures r == Completed ==> Valid() && Track(base, Now(), hs') && Known(Now(), hs', OnBytes(ks, Resize(h, size)))
      ensures r == NoRoom ==>
                && NoFitBelow(pmm.bitmap[..], pmm.bitmap.Length, Pages(size) + 1, 1)
                && hs' == hs && (Valid() <==> LowEmpty(live, ClearedFrames(Pages(size) + 1)))
                && (Valid() ==> Track(base, Now(), hs) && Known(Now(), hs, ks))
      ensures r == Wrapped ==> !Valid()
      ensures r == Wrapped <==> ks[h].Held? && Wraps(ks[h].size, size)
    {
      hide Pmm.Valid, Pmm.Total, Pmm.Used, Sound, Track, Allocated, Resized, Released, Failed, Pages,
        HeldAt, OnBytes, WordAt, LowEmpty;
      HeldApart(base, Now(), hs, h);
      HeldBlock(Now(), hs[h], ks[h]);
      HeaderOf(mem, pmm.Used(), live, BlockOf(hs[h]));
      var was := WordAt(mem, hs[h] - PAGE_SIZE - MEM_PHYS_OFFSET + 8);
      var addr := Realloc(hs[h], size);
      hs', r := hs, Completed;
      if size == 0 {
        TrackReleased(base, old(Now()), hs, h, Now());
        KnownReleased(old(Now()), hs, ks, h, Now(), Resize(h, size));
        hs' := hs[h := 0];
      } else if addr == 0 {
        FailedKeeps(base, old(Now()), hs, ks, Now(), size);
        r := NoRoom;
      } else if Wraps(was, size) {
        r := Wrapped;
      } else {
        TrackResized(base, old(Now()), hs, h, size, addr, Now());
        KnownResized(old(Now()), hs, ks, h, size, addr, Now());
        hs' := hs[h := addr];
      }
    }

    method ApplyStore(h: nat, at: nat, data: seq<Byte>, hs: seq<nat>, ghost ks: seq<Held>, ghost base: View)
      requires Valid() && Track(base, Now(), hs) && Known(Now(), hs, ks) && h < |hs| && hs[h] != 0
      modifies this`mem
      ensures |mem| == old(|mem|)
      ensures Valid() && Track(base, Now(), hs) && Known(Now(), hs, OnBytes(ks, StoreAt(h, at, data)))
    {
      hide Pmm.Valid, Pmm.Used, Sound, Track, Written, Pages, OnBytes, WordAt, HeldAt;
      HeldApart(base, Now(), hs, h);
      HeldBlock(Now(), hs[h], ks[h]);
      HeaderOf(mem, pmm.Used(), live, BlockOf(hs[h]));
      if at + |data| <= WordAt(mem, hs[h] - PAGE_SIZE - MEM_PHYS_OFFSET + 8) {
        Store(hs[h], at, data);
        TrackWritten(base, old(Now()), hs, h, at, data, Now());
        KnownWritten(old(Now()), hs, ks, h, at, data, Now());
      } else {
        StoreTooLong(ks, h, at, data);
      }
    }

    /** Any sequence of operations by a caller that holds `hs0`, up to the first that finds no room or wraps:
        the blocks are the independent byte strings of `BytesAfter`, and the rest of memory is untouched. After
        a call that found no room the caller can go on from `hs` exactly if no nonempty block has its header in
        the frames that were cleared. */
    method Resume(ops: seq<Op>, hs0: seq<nat>, ghost ks0: seq<Held>, ghost base: View)
      returns (hs: seq<nat>, n: nat, r: Outcome)
      requires Valid() && Track(base, Now(), hs0) && Known(Now(), hs0, ks0)
      requires forall i :: 0 <= i < |ops| && (ops[i].Malloc? || ops[i].Resize?) ==> ops[i].size < TWO64
      modifies this, pmm`freePages, pmm.bitmap
      ensures n <= |ops| && (r == Completed <==> n == |ops|) && pmm.Total() == old(pmm.Total())
      ensures r == Completed || (r == NoRoom && Valid()) ==>
                Valid() && Track(base, Now(), hs) && Known(Now(), hs, BytesAfter(ks0, ops[..n]))
      ensures r == NoRoom ==>
                && (ops[n].Malloc? || ops[n].Resize?)
                && NoFitBelow(pmm.bitmap[..], pmm.bitmap.Length, Pages(ops[n].size) + 1, 1)
                && (Valid() <==> LowEmpty(live, ClearedFrames(Pages(ops[n].size) + 1)))
      ensures r == Wrapped ==>
                && !Valid() && ops[n].Resize? && ops[n].h < |BytesAfter(ks0, ops[..n])|
                && BytesAfter(ks0, ops[..n])[ops[n].h].Held?
                && Wraps(BytesAfter(ks0, ops[..n])[ops[n].h].size, ops[n].size)
    {
      hide Kmem.Valid, Track, Known, OnBytes, Pages, Pmm.Total, LowEmpty, Wraps, ClearedFrames;
      hs, r, n := hs0, Completed, 0;
      while n < |ops|
        invariant n <= |ops| && r == Completed
        invariant Valid() && Track(base, Now(), hs) && Known(Now(), hs, BytesAfter(ks0, ops[..n]))
        invariant pmm.Total() == old(pmm.Total())
      {
        assert ops[..n + 1][..n] == ops[..n];
        hs, r := Apply(ops[n], hs, BytesAfter(ks0, ops[..n]), base);
        if r != Completed {
          return;
        }
        n := n + 1;
      }
    }

    /** The same from a caller that holds nothing yet; giving everything back restores the frames. */
    method Perform(ops: seq<Op>) returns (hs: seq<nat>, n: nat, r: Outcome)
      requires Valid()
      requires forall i :: 0 <= i < |ops| && (ops[i].Malloc? || ops[i].Resize?) ==> ops[i].size < TWO64
      modifies this, pmm`freePages, pmm.bitmap
      ensures n <= |ops| && (r == Completed <==> n == |ops|) && pmm.Total() == old(pmm.Total())
      ensures r == Completed || (r == NoRoom && Valid()) ==>
                Valid() && Track(old(Now()), Now(), hs) && Known(Now(), hs, BytesAfter([], ops[..n]))
      ensures r == NoRoom ==>
                && (ops[n].Malloc? || ops[n].Resize?)
                && NoFitBelow(pmm.bitmap[..], pmm.bitmap.Length, Pages(ops[n].size) + 1, 1)
                && (Valid() <==> LowEmpty(live, ClearedFrames(Pages(ops[n].size) + 1)))
      ensures r == Wrapped ==>
                && !Valid() && ops[n].Resize? && ops[n].h < |BytesAfter([], ops[..n])|
                && BytesAfter([], ops[..n])[ops[n].h].Held?
                && Wraps(BytesAfter([], ops[..n])[ops[n].h].size, ops[n].size)
      ensures r == Completed || (r == NoRoom && Valid()) ==>
                |hs| == Mallocs(ops[..n]) && forall h :: 0 <= h < |hs| && hs[h] == 0 ==> GaveBack(ops[..n], h)
      ensures r == Completed && (forall i :: 0 <= i < |hs| ==> hs[i] == 0) ==>
                live == old(live) && pmm.Used() == old(pmm.Used()) && pmm.freePages == old(pmm.freePages)
    {
      ghost var base := Now();
      HoldsNothing(base);
      hs, n, r := Resume(ops, [], [], base);
      PointersOfRun(ops[..n]);
      if r == Completed || (r == NoRoom && Valid()) { KnownNulls(Now(), hs, BytesAfter([], ops[..n])); }
      if r == Completed && forall i :: 0 <= i < |hs| ==> hs[i] == 0 {
        AllReturned(base, Now(), hs);
      }
    }
  }

  lemma KnownNulls(s: View, hs: seq<nat>, ks: seq<Held>)
    requires Known(s, hs, ks)
    ensures |ks| == |hs| && forall i :: 0 <= i < |hs| ==> (hs[i] == 0 <==> ks[i] == NoBlock)
  {
    hide BlockOf, Contents, Pages;
  }

  lemma ResizeNull(ks: seq<Held>, h: nat, size: nat)
    requires h < |ks| && ks[h] == NoBlock
    ensures OnBytes(ks, Resize(h, size)) == ks[h := Held(size, Zeros(size))]
  {}

  lemma HoldsNothing(base: View)
    requires Sound(base.mem, base.used, base.live)
    ensures Track(base, base, []) && Known(base, [], [])
  {
    hide Pages, Span, Contents, WordAt;
    assert forall b :: b in base.live ==> BlockSound(base.mem, base.used, b, base.live[b]);
  }

  lemma StoreTooLong(ks: seq<Held>, h: nat, at: nat, data: seq<Byte>)
    requires h < |ks| && ks[h].Held? && at + |data| > ks[h].size
    ensures OnBytes(ks, StoreAt(h, at, data)) == ks
  {
  }

  /** When every pointer has been given back, the used frames are those of the start. */
  lemma AllReturned(base: View, s: View, hs: seq<nat>)
    requires Sound(base.mem, base.used, base.live) && Sound(s.mem, s.used, s.live)
    requires Track(base, s, hs) && forall i :: 0 <= i < |hs| ==> hs[i] == 0
    ensures s.live == base.live && s.used == base.used
  {
    hide Pages, Span, Spans, Contents;
    assert forall b :: b in s.live ==> b in base.live;
    assert s.live == base.live;
    SpansUsed(base);
    SpansUsed(s);
    var blocks := Spans(s.live);
    assert s.used == s.used - blocks + blocks == base.used - blocks + blocks == base.used;
  }

  /** Giving back or storing through a null pointer does nothing, and so does every operation on none. */
  lemma KnownNull(s: View, hs: seq<nat>, ks: seq<Held>, op: Op)
    requires Known(s, hs, ks) && !op.Malloc? && (op.h < |hs| ==> hs[op.h] == 0 && !op.Resize?)
    ensures Known(s, hs, OnBytes(ks, op))
  {
    hide HeldAt;
  }
}
