/** The physical frame allocator (kernel/mem/pmm.c): a bitmap with one bit per
    4 KiB frame, searched first-fit, and a counter of free pages. */
module FrameAllocator {
  import opened Bits

  const PAGE_SIZE := 0x1000
  const MEM_PHYS_OFFSET := 0xFFFF_8000_0000_0000

  /** The frames cleared by pmm_alloc for `count` frames: the length in bytes is taken in 64 bits. */
  function ClearedFrames(count: nat): nat { count % 0x10_0000_0000_0000 }

  /** The frames `start`, ..., `start + n - 1`. */
  ghost function Run(start: nat, n: nat): (r: set<nat>)
    ensures forall i: nat :: i in r <==> start <= i < start + n
  {
    if n == 0 then {} else Run(start, n - 1) + {start + n - 1}
  }

  lemma {:induction false} RunSize(start: nat, n: nat)
    ensures |Run(start, n)| == n
  {
    if n > 0 { RunSize(start, n - 1); }
  }

  lemma DisjointSize(a: set<nat>, b: set<nat>)
    requires a !! b
    ensures |a + b| == |a| + |b|
  {}

  lemma SubsetSize(a: set<nat>, b: set<nat>)
    requires a <= b
    ensures |b - a| == |b| - |a|
  {
    assert b == (b - a) + a;
  }

  ghost predicate Multiple(i: nat, alignment: nat)
    requires alignment > 0
  {
    i % alignment == 0
  }

  lemma NoMultipleBetween(index: nat, alignment: nat)
    requires alignment > 0 && Multiple(index, alignment)
    ensures Multiple(index + alignment, alignment)
    ensures forall j: nat :: index < j < index + alignment ==> !Multiple(j, alignment)
  {
    var q := index / alignment;
    assert index == q * alignment;
    Quotient(index + alignment, q + 1, 0, alignment);
    forall j: nat | index < j < index + alignment ensures !Multiple(j, alignment) {
      Quotient(j, q, j - index, alignment);
    }
  }

  /** The frames whose bit is set. */
  ghost function UsedIn(bits: seq<bool>): set<nat> {
    set i: nat | i < |bits| && bits[i]
  }

  /** Frames `i`, ..., `i + n - 1` exist and are all clear; bits past the end count as used. */
  ghost predicate Fits(bits: seq<bool>, i: nat, n: nat) {
    i + n <= |bits| && forall k :: i <= k < i + n ==> !bits[k]
  }

  /** No multiple of `alignment` below `limit` has room for the run. */
  ghost predicate NoFitBelow(bits: seq<bool>, limit: nat, n: nat, alignment: nat)
    requires alignment > 0
  {
    forall j: nat :: j < limit && Multiple(j, alignment) ==> !Fits(bits, j, n)
  }

  /** No frame is free. */
  ghost predicate AllUsed(bits: seq<bool>) { forall i :: 0 <= i < |bits| ==> bits[i] }

  lemma NoFrameFits(bits: seq<bool>)
    requires NoFitBelow(bits, |bits|, 1, 1)
    ensures AllUsed(bits)
  {
    forall i: nat | i < |bits| ensures bits[i] {
      assert Multiple(i, 1) && !Fits(bits, i, 1);
    }
  }

  /** Where no frame is free, no run fits. */
  lemma AllUsedNoFit(bits: seq<bool>, n: nat)
    requires AllUsed(bits) && n > 0
    ensures NoFitBelow(bits, |bits|, n, 1)
  {
    forall j: nat | j < |bits| && Multiple(j, 1) ensures !Fits(bits, j, n) {
      assert bits[j];
    }
  }

  /** A longer run does not fit where a shorter one does not. */
  lemma LongerNoFit(bits: seq<bool>, n: nat, m: nat)
    requires NoFitBelow(bits, |bits|, n, 1) && n <= m
    ensures NoFitBelow(bits, |bits|, m, 1)
  {
    forall j: nat | j < |bits| && Multiple(j, 1) ensures !Fits(bits, j, m) {
      assert !Fits(bits, j, n);
    }
  }

  /** `after` is `before` with the run of `n` bits at `i` set to `v`. */
  ghost predicate Filled(before: seq<bool>, after: seq<bool>, i: nat, n: nat, v: bool) {
    && |after| == |before| && i + n <= |before|
    && forall k :: 0 <= k < |before| ==> after[k] == if i <= k < i + n then v else before[k]
  }

  lemma FilledUsed(before: seq<bool>, after: seq<bool>, i: nat, n: nat, v: bool)
    requires Filled(before, after, i, n, v)
    ensures v ==> UsedIn(after) == UsedIn(before) + Run(i, n)
    ensures !v ==> UsedIn(after) == UsedIn(before) - Run(i, n)
  {}

  /** Clear bits are counted: with a counter that covers the clear bits, a run that fits is paid for. */
  lemma RunIsCounted(bits: seq<bool>, freePages: nat, i: nat, n: nat)
    requires |bits| <= freePages + |UsedIn(bits)| && Fits(bits, i, n)
    ensures n <= freePages && UsedIn(bits) !! Run(i, n)
  {
    RunSize(i, n);
    DisjointSize(UsedIn(bits), Run(i, n));
    RunSize(0, |bits|);
    SubsetSize(UsedIn(bits) + Run(i, n), Run(0, |bits|));
  }

  class Pmm {
    const bitmap: array<bool>
    var freePages: nat

    /** Every frame starts out used; the boot code frees the usable regions. */
    constructor (length: nat)
      requires length > 0
      ensures Valid() && fresh(bitmap) && bitmap.Length == length && freePages == 0
      ensures Used() == Run(0, length)
    {
      bitmap := new bool[length](i => true);
      freePages := 0;
      new;
      RunSize(0, length);
      assert UsedIn(bitmap[..]) == Run(0, length);
    }

    ghost function Used(): set<nat>
      reads this, bitmap
    {
      UsedIn(bitmap[..])
    }

    /** Free pages as counted, plus used frames; allocating and freeing used frames keep it. */
    ghost function Total(): nat
      reads this, bitmap
    {
      freePages + |Used()|
    }

    /** Frame 0 is reserved, and the counter is at least the number of clear
        bits (reserving a frame at boot sets its bit and leaves the counter). */
    ghost predicate Valid()
      reads this, bitmap
    {
      && bitmap.Length > 0 && bitmap[0]
      && bitmap.Length <= Total()
    }

    method IsFree(index: nat, count: nat) returns (free: bool)
      ensures free <==> count == 0 || Fits(bitmap[..], index, count)
    {
      var i, left := index, count;
      while left > 0
        invariant i + left == index + count && left <= count
        invariant i == index || i <= bitmap.Length
        invariant forall k :: index <= k < i ==> !bitmap[..][k]
      {
        if i >= bitmap.Length || bitmap[..][i] { return false; }
        i, left := i + 1, left - 1;
      }
      free := true;
    }

    /** First fit among the multiples of `alignment`; the result is a byte address, 0 for none. */
    method AllocAdvanced(count: nat, alignment: nat) returns (addr: nat)
      requires Valid() && alignment > 0
      modifies this`freePages, bitmap
      ensures Valid() && Total() == old(Total())
      ensures addr == 0 ==> bitmap[..] == old(bitmap[..]) && freePages == old(freePages)
      ensures addr == 0 && count > 0 ==> NoFitBelow(old(bitmap[..]), bitmap.Length, count, alignment)
      ensures addr != 0 ==>
                && count > 0 && addr % PAGE_SIZE == 0
                && var i := addr / PAGE_SIZE;
                && Multiple(i, alignment) && NoFitBelow(old(bitmap[..]), i, count, alignment)
                && i + count <= bitmap.Length
                && Run(i, count) !! old(Used())
                && Used() == old(Used()) + Run(i, count)
                && freePages + count == old(freePages)
    {
      var index := FirstFit(count, alignment);
      if index >= bitmap.Length { return 0; }
      Take(index, count);
      addr := index * PAGE_SIZE;
    }

    /** The search loop: the first multiple of `alignment` where the run fits. */
    method FirstFit(count: nat, alignment: nat) returns (index: nat)
      requires bitmap.Length > 0 && bitmap[0] && alignment > 0
      ensures Multiple(index, alignment) && NoFitBelow(bitmap[..], index, count, alignment)
      ensures index < bitmap.Length ==> Fits(bitmap[..], index, count)
      ensures if count == 0 then index == 0 else index > 0
    {
      index := 0;
      while index < bitmap.Length
        invariant Multiple(index, alignment) && NoFitBelow(bitmap[..], index, count, alignment)
        invariant count == 0 ==> index == 0
      {
        var free := IsFree(index, count);
        if free { return; }
        NoMultipleBetween(index, alignment);
        index := index + alignment;
      }
    }

    /** Sets the bits of a clear run and charges the counter. */
    method Take(index: nat, count: nat)
      requires Valid() && Fits(bitmap[..], index, count)
      modifies this`freePages, bitmap
      ensures Valid() && Total() == old(Total())
      ensures Run(index, count) !! old(Used())
      ensures Used() == old(Used()) + Run(index, count)
      ensures freePages + count == old(freePages)
      ensures count == 0 ==> bitmap[..] == old(bitmap[..])
    {
      hide UsedIn, Run;
      RunIsCounted(bitmap[..], freePages, index, count);
      if freePages > 0 { freePages := freePages - count; }
      FillRun(index, count, true);
      RunSize(index, count);
      DisjointSize(old(Used()), Run(index, count));
    }

    method FillRun(index: nat, count: nat, v: bool)
      requires index + count <= bitmap.Length
      modifies bitmap
      ensures Filled(old(bitmap[..]), bitmap[..], index, count, v)
      ensures v ==> Used() == old(Used()) + Run(index, count)
      ensures !v ==> Used() == old(Used()) - Run(index, count)
    {
      for i := index to index + count
        invariant forall k :: 0 <= k < bitmap.Length ==> bitmap[k] == if index <= k < i then v else old(bitmap[k])
      {
        bitmap[i] := v;
      }
      FilledUsed(old(bitmap[..]), bitmap[..], index, count, v);
    }

    /** Clears the run and adds `count` to the counter, whatever the bits were. */
    method Free(addr: nat, count: nat)
      requires Valid()
      requires addr < MEM_PHYS_OFFSET && addr / PAGE_SIZE > 0 && addr / PAGE_SIZE + count <= bitmap.Length
      modifies this`freePages, bitmap
      ensures Valid()
      ensures Used() == old(Used()) - Run(addr / PAGE_SIZE, count)
      ensures freePages == old(freePages) + count
      ensures Run(addr / PAGE_SIZE, count) <= old(Used()) ==>
                Total() == old(Total())
    {
      var index := addr / PAGE_SIZE;
      freePages := freePages + count;
      FillRun(index, count, false);
      FreedSize(old(Used()), index, count);
    }
  }

  lemma FreedSize(used: set<nat>, index: nat, count: nat)
    ensures |used| <= |used - Run(index, count)| + count
    ensures Run(index, count) <= used ==> |used| == |used - Run(index, count)| + count
  {
    var run := Run(index, count);
    RunSize(index, count);
    SubsetSize(used * run, used);
    SubsetSize(used * run, run);
    assert used - used * run == used - run;
    if run <= used { assert used * run == run; }
  }
}
