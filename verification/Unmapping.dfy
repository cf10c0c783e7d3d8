/** Unmapping (`vmm_unmap` in kernel/mem/vmm.c) over mixed 4 KiB and 2 MiB pages. */
module Unmapping {
  import opened Bits
  import opened PageEntries
  import opened PageTables
  import opened AddressSpaces
  import opened Translation

  /** How the loop ends: range done; a large page not wholly covered, or an upper table
      missing (both return false); or a store through a missing bottom table. */
  datatype Outcome = Done | Refused | Missing | Fault

  /** Pages `base`, ..., `limit - 1` have no leaf, and every other leaf is as in `m`. */
  ghost predicate Cleared(m: Mem, m': Mem, t: Tables, base: nat, limit: nat)
    requires Wf(m, t) && Wf(m', t)
  {
    forall q :: InTables(q) ==>
      && Pte(m', t, q) == (if base <= PageAt(q) < limit then 0 else Pte(m, t, q))
      && Pde(m', t, q) == (if base <= PageAt(q) < limit then 0 else Pde(m, t, q))
  }

  /** Leaves only disappear. */
  ghost predicate OnlyClears(m: Mem, m': Mem, t: Tables)
    requires Wf(m, t) && Wf(m', t)
  {
    forall q :: InTables(q) ==>
      && (Pte(m', t, q) == 0 || Pte(m', t, q) == Pte(m, t, q))
      && (Pde(m', t, q) == 0 || Pde(m', t, q) == Pde(m, t, q))
  }

  /** Page `v` is inside a 2 MiB page that starts before it. */
  ghost predicate MidLarge(m: Mem, t: Tables, v: nat)
    requires Wf(m, t) && v < PAGES
  {
    v % 512 != 0 && Pde(m, t, PathOf(v)) != 0
  }

  lemma ClearSmall(m0: Mem, m: Mem, t: Tables, base: nat, v: nat)
    requires Wf(m0, t) && Wf(m, t) && base <= v < PAGES && Pde(m, t, PathOf(v)) == 0
    requires var p := PathOf(v); L1(p.i, p.j, p.k) in t
    ensures var p := PathOf(v);
            var m' := Put(m, t[L1(p.i, p.j, p.k)], p.l, 0);
            && Wf(m', t)
            && (OnlyClears(m0, m, t) ==> OnlyClears(m0, m', t))
            && (Cleared(m0, m, t, base, v) ==> Cleared(m0, m', t, base, v + 1))
            && (v + 1 < PAGES ==> !MidLarge(m', t, v + 1))
  {
    hide Pte, Pde, PathOf, PageAt, Wf;
    var p := PathOf(v);
    SetLeaf(m, t, p, 0);
    PageOfPath(v);
    forall q | InTables(q) ensures PageAt(q) == v <==> q == p { PathOfPage(q); }
    if v + 1 < PAGES && (v + 1) % 512 != 0 { NextInRegion(m, t, v); }
  }

  lemma NextInRegion(m: Mem, t: Tables, v: nat)
    requires Wf(m, t) && v + 1 < PAGES && (v + 1) % 512 != 0
    ensures Pde(m, t, PathOf(v + 1)) == Pde(m, t, PathOf(v))
  {
    assert (v + 1) / 512 == v / 512;
  }

  lemma ClearLarge(m0: Mem, m: Mem, t: Tables, base: nat, v: nat)
    requires Wf(m0, t) && Wf(m, t) && base <= v < PAGES && Pde(m, t, PathOf(v)) != 0
    ensures var p := PathOf(v);
            && L2(p.i, p.j) in t
            && var m' := Put(m, t[L2(p.i, p.j)], p.k, 0);
            && Wf(m', t) && Pde(m', t, PathOf(v)) == 0
            && (OnlyClears(m0, m, t) ==> OnlyClears(m0, m', t))
            && (v % 512 == 0 && Cleared(m0, m, t, base, v) ==> Cleared(m0, m', t, base, v + 512))
  {
    hide PathOf, PageAt, RegionAt, FrameOf;
    var p := PathOf(v);
    assert Linked(m, t, L2(p.i, p.j), p.k);
    SetLarge(m, t, p, 0);
    assert t - {L1(p.i, p.j, p.k)} == t;
    OneKind(m, t, p);
    if v % 512 == 0 && Cleared(m0, m, t, base, v) {
      forall q | InTables(q) ensures SameLarge(p, q) <==> v <= PageAt(q) < v + 512 {
        InRegionOf(v, q);
      }
    }
  }

  lemma InRegionOf(v: nat, q: Path)
    requires v < PAGES && InTables(q) && v % 512 == 0
    ensures SameLarge(PathOf(v), q) <==> v <= PageAt(q) < v + 512
  {
    hide PathOf;
    PageOfPath(v);
    SameRegion(PathOf(v), q);
    SameRegion(q, q);
  }

  lemma Monotone(m0: Mem, m: Mem, m': Mem, t: Tables)
    requires Wf(m0, t) && Wf(m, t) && Wf(m', t) && OnlyClears(m0, m, t) && OnlyClears(m, m', t)
    ensures OnlyClears(m0, m', t)
    ensures forall q :: InTables(q) && Pde(m, t, q) == 0 ==> Pde(m', t, q) == 0
  {
    hide Pte, Pde, Wf;
  }

  lemma AtStart(m: Mem, t: Tables, base: nat)
    requires Wf(m, t)
    ensures L4 in t && OnlyClears(m, m, t) && Cleared(m, m, t, base, base) && Reached(m, t, base, base)
  {}

  /** The loop stopped short at the page of `p`, with `left` pages to go. */
  ghost predicate Stopped(r: Outcome, m: Mem, t: Tables, p: Path, left: nat)
    requires Wf(m, t) && InTables(p)
  {
    match r
    case Done => false
    case Refused => Pde(m, t, p) != 0 && left < 512
    case Missing => L3(p.i) !in t || L2(p.i, p.j) !in t
    case Fault => Pde(m, t, p) == 0 && L2(p.i, p.j) in t && L1(p.i, p.j, p.k) !in t
  }

  /** The walk to a large page finds every table, so only its size can stop the loop there. */
  lemma RefusedOnly(r: Outcome, m: Mem, t: Tables, v: nat, left: nat)
    requires Wf(m, t) && v < PAGES && MidLarge(m, t, v) && Stopped(r, m, t, PathOf(v), left)
    ensures left < 512
  {
    var p := PathOf(v);
    assert Parent(L2(p.i, p.j)) == L3(p.i);
  }

  /** The store of one round, of either kind. */
  lemma ClearOne(m0: Mem, m: Mem, t: Tables, base: nat, v: nat)
    requires Wf(m0, t) && Wf(m, t) && base <= v < PAGES
    requires var p := PathOf(v); Pde(m, t, p) == 0 ==> L1(p.i, p.j, p.k) in t
    ensures var p := PathOf(v);
            && (Pde(m, t, p) != 0 ==> L2(p.i, p.j) in t)
            && var large := Pde(m, t, p) != 0;
            var m' := if large then Put(m, t[L2(p.i, p.j)], p.k, 0) else Put(m, t[L1(p.i, p.j, p.k)], p.l, 0);
            var pages := if large then 512 else 1;
            && Wf(m', t) && OnlyClears(m, m', t) && (large ==> Pde(m', t, p) == 0)
            && (!MidLarge(m, t, v) && Cleared(m0, m, t, base, v) ==> Cleared(m0, m', t, base, v + pages))
            && (!MidLarge(m, t, v) && v + pages < PAGES ==> !MidLarge(m', t, v + pages))
  {
    hide Cleared, OnlyClears, PathOf, Pte, Wf, PageAt;
    AtStart(m, t, base);
    if Pde(m, t, PathOf(v)) != 0 {
      ClearLarge(m0, m, t, base, v);
      ClearLarge(m, m, t, base, v);
    } else {
      ClearSmall(m0, m, t, base, v);
      ClearSmall(m, m, t, base, v);
    }
  }

  /** Every page from `base` up to `limit` has a bottom table or a 2 MiB leaf over it. */
  ghost predicate Reached(m: Mem, t: Tables, base: nat, limit: nat)
    requires Wf(m, t)
  {
    forall q :: InTables(q) && base <= PageAt(q) < limit ==> L1(q.i, q.j, q.k) in t || Pde(m, t, q) != 0
  }

  lemma ReachedNext(m0: Mem, m: Mem, t: Tables, base: nat, v: nat)
    requires Wf(m0, t) && Wf(m, t) && OnlyClears(m0, m, t) && Reached(m0, t, base, v) && v < PAGES && !MidLarge(m, t, v)
    requires var p := PathOf(v); Pde(m, t, p) == 0 ==> L1(p.i, p.j, p.k) in t
    ensures Reached(m0, t, base, v + if Pde(m, t, PathOf(v)) != 0 then 512 else 1)
  {
    hide PathOf, Pte, Wf, PageAt;
    var p := PathOf(v);
    PageOfPath(v);
    forall q | InTables(q) && v <= PageAt(q) < v + if Pde(m, t, p) != 0 then 512 else 1
      ensures L1(q.i, q.j, q.k) in t || Pde(m0, t, q) != 0
    {
      if Pde(m, t, p) != 0 {
        InRegionOf(v, q);
        assert Pde(m, t, q) == Pde(m, t, p);
      } else {
        PathOfPage(q);
      }
    }
  }

  /** One round of the loop: the word to clear and the number of pages it stands for. */
  method FindLeaf(v: Vmm, root: nat, addr: Word, left: nat, ghost t: Tables)
    returns (r: Outcome, f: nat, x: nat, pages: nat)
    requires v.Valid() && Wf(v.mem, t) && t[L4] == root && left > 0
    ensures var p := PathOf(PageOf(addr));
            if r == Done then
              && f < |v.mem| && x < 512 && pages <= left
              && if Pde(v.mem, t, p) != 0
                 then L2(p.i, p.j) in t && f == t[L2(p.i, p.j)] && x == p.k && pages == 512
                 else L1(p.i, p.j, p.k) in t && f == t[L1(p.i, p.j, p.k)] && x == p.l && pages == 1
            else Stopped(r, v.mem, t, p, left)
  {
    hide PathOf, PageOf, BitAnd, FrameOf, GetOrNull;
    var o := AddrOffsets(addr);
    OffsetsArePath(addr);
    f, x, pages := 0, 0, 0;
    WalkStep(v.mem, t, L4, o.i);
    var pdp := GetOrNull(v.mem, root, o.i);
    if pdp.None? { r := Missing; return; }
    WalkStep(v.mem, t, L3(o.i), o.j);
    var pd := GetOrNull(v.mem, pdp.value, o.j);
    if pd.None? { r := Missing; return; }
    var e := v.mem[pd.value][o.k];
    LargeMask(e);
    LargeIsNotZero(e);
    if BitAnd(e, VMM_LARGE) != 0 {
      if left - 1 < 0x1FF { r := Refused; return; }
      r, f, x, pages := Done, pd.value, o.k, 0x200;
    } else {
      WalkStep(v.mem, t, L2(o.i, o.j), o.k);
      var pt := GetOrNull(v.mem, pd.value, o.k);
      if pt.None? { r := Fault; return; }
      r, f, x, pages := Done, pt.value, o.l, 1;
    }
  }

  lemma InLarge(m: Mem, t: Tables, v: nat)
    requires Wf(m, t) && v < PAGES && MidLarge(m, t, v)
    ensures Pde(m, t, PathOf(v)) != 0
  {}

  /** `vmm_unmap`. `done` pages are consumed, a large page counting 512. Exactly the consumed pages lose
      their leaf if and only if the range does not both start inside a large page and cover 512 pages;
      otherwise the whole large page goes, with the pages before the range. */
  method Unmap(v: Vmm, root: nat, addr: Word, size: nat, ghost t: Tables) returns (r: Outcome, ghost done: nat)
    requires v.Valid() && Wf(v.mem, t) && t[L4] == root && PageOf(addr) + size <= PAGES
    modifies v`mem
    ensures v.Valid() && Wf(v.mem, t) && OnlyClears(old(v.mem), v.mem, t)
    ensures |v.mem| == |old(v.mem)| && forall f :: 0 <= f < |v.mem| && f !in t.Values ==> v.mem[f] == old(v.mem)[f]
    ensures !(MidLarge(old(v.mem), t, PageOf(addr)) && size >= 512) ==>
              Reached(old(v.mem), t, PageOf(addr), PageOf(addr) + done)
    ensures done <= size && (r == Done ==> done == size)
    ensures size > 0 ==>
              (Cleared(old(v.mem), v.mem, t, PageOf(addr), PageOf(addr) + done) <==>
               !(MidLarge(old(v.mem), t, PageOf(addr)) && size >= 512))
    ensures size >= 512 && MidLarge(old(v.mem), t, PageOf(addr)) ==> Pde(v.mem, t, PathOf(PageOf(addr))) == 0
    ensures r != Done ==> done < size && Stopped(r, v.mem, t, PathOf(PageOf(addr) + done), size - done)
  {
    hide Cleared, OnlyClears, MidLarge, Reached, Stopped, PathOf, PageOf, Pde, Pte, Wf;
    ghost var base, m0 := PageOf(addr), v.mem;
    var a: Word, left: nat := addr, size;
    AtStart(m0, t, base);
    done := 0;
    while left > 0
      invariant v.Valid() && Wf(v.mem, t) && OnlyClears(m0, v.mem, t)
      invariant left + done == size && |v.mem| == |m0|
      invariant left > 0 ==> PageOf(a) == base + done
      invariant done == 0 ==> v.mem == m0
      invariant size > 0 && !MidLarge(m0, t, base) ==> Cleared(m0, v.mem, t, base, base + done)
      invariant forall f :: 0 <= f < |v.mem| && f !in t.Values ==> v.mem[f] == m0[f]
      invariant !MidLarge(m0, t, base) || done == 0 ==> Reached(m0, t, base, base + done)
      invariant size > 0 && size < 512 && MidLarge(m0, t, base) ==> done == 0
      invariant left > 0 && !MidLarge(m0, t, base) ==> !MidLarge(v.mem, t, base + done)
      invariant done > 0 && size >= 512 && MidLarge(m0, t, base) ==> Pde(v.mem, t, PathOf(base)) == 0
    {
      var f, x, pages;
      r, f, x, pages := FindLeaf(v, root, a, left, t);
      if done == 0 && MidLarge(m0, t, base) { InLarge(m0, t, base); }
      if r != Done {
        if done == 0 && MidLarge(m0, t, base) { RefusedOnly(r, m0, t, base, left); }
        if MidLarge(m0, t, base) && size >= 512 { MidLargeNotExact(m0, v.mem, t, base, base + done); }
        return;
      }
      ghost var m := v.mem;
      if !MidLarge(m0, t, base) { ReachedNext(m0, m, t, base, base + done); }
      ClearOne(m0, m, t, base, base + done);
      v.mem := Put(v.mem, f, x, 0);
      Monotone(m0, m, v.mem, t);
      NextPage(a, pages);
      a, left, done := (a + pages * 0x1000) % TWO64, left - pages, done + pages;
      if left > 0 { SmallMod(base + done, PAGES); }
    }
    if size > 0 && MidLarge(m0, t, base) { MidLargeNotExact(m0, v.mem, t, base, base + done); }
    r := Done;
  }

  /** When the range starts inside a large page that was removed, no choice of end makes the
      cleared pages a range: the page before the start has lost its leaf as well. */
  lemma MidLargeNotExact(m: Mem, m': Mem, t: Tables, base: nat, limit: nat)
    requires Wf(m, t) && Wf(m', t) && base < PAGES && MidLarge(m, t, base) && Pde(m', t, PathOf(base)) == 0
    ensures !Cleared(m, m', t, base, limit)
  {
    hide PathOf, PageAt, Pte, Pde, Wf;
    NextInRegion(m, t, base - 1);
    NextInRegion(m', t, base - 1);
    PageOfPath(base - 1);
    assert Pde(m', t, PathOf(base - 1)) != Pde(m, t, PathOf(base - 1));
  }
}
