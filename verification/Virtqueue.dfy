/** The split virtqueue driver of modules/virtio/virtio.c with one synchronous request at a
    time, as modules/virtiogpu/main.c uses it (section 2.7 of VIRTIO 1.2). */
module Virtqueue {
  import opened Bits

  const INDICES := 0x1_0000   // ring indices are 16-bit and wrap around

  /** `count` descriptors of a free list, first to last, following the `next` fields from `head`. */
  ghost function ListFrom(next: seq<nat>, head: nat, count: nat): seq<nat>
    decreases count
  {
    if count == 0 then []
    else [head] + if head < |next| then ListFrom(next, next[head], count - 1) else []
  }

  /** The free list after setup: `m - 1`, ..., 0. */
  ghost function Descending(m: nat): seq<nat> {
    if m == 0 then [] else [m - 1] + Descending(m - 1)
  }

  /** The descriptors of a chain: from `head`, on while the NEXT flag is set, at most `fuel` of them. */
  ghost function ChainFrom(next: seq<nat>, hasNext: seq<bool>, head: nat, fuel: nat): seq<nat>
    requires |next| == |hasNext|
    decreases fuel
  {
    if fuel == 0 || head >= |next| then []
    else [head] + if hasNext[head] then ChainFrom(next, hasNext, next[head], fuel - 1) else []
  }

  /** Descriptors below `m` are linked in descending order. */
  ghost predicate Linked(next: seq<nat>, m: nat) {
    m <= |next| && forall j :: 0 < j < m ==> next[j] == j - 1
  }

  /** Descriptors `from`, ..., `|next| - 1` form a chain in ascending order. */
  ghost predicate Chained(next: seq<nat>, hasNext: seq<bool>, from: nat) {
    && from < |next| == |hasNext|
    && !hasNext[|next| - 1]
    && forall j :: from <= j < |next| - 1 ==> hasNext[j] && next[j] == j + 1
  }

  lemma {:induction false} LinkedList(next: seq<nat>, m: nat)
    requires Linked(next, m) && m > 0
    ensures ListFrom(next, m - 1, m) == Descending(m)
    decreases m
  {
    if m > 1 { LinkedList(next, m - 1); }
  }

  ghost function Ascending(from: nat, n: nat): seq<nat>
    decreases n - from
  {
    if from >= n then [] else [from] + Ascending(from + 1, n)
  }

  lemma {:induction false} ChainedList(next: seq<nat>, hasNext: seq<bool>, from: nat, fuel: nat)
    requires Chained(next, hasNext, from) && fuel >= |next| - from
    ensures ChainFrom(next, hasNext, from, fuel) == Ascending(from, |next|)
    decreases |next| - from
  {
    if from + 1 < |next| {
      ChainedList(next, hasNext, from + 1, fuel - 1);
    } else {
      assert Ascending(|next|, |next|) == [];
    }
  }

  // ----- masks and wrap-around -----

  lemma MaskIsMod(x: nat, k: nat)
    ensures BitAnd(x, Pow2(k) - 1) == x % Pow2(k) < Pow2(k)
  {
    hide BitAnd;
    AndLow(x, k);
    CutAt(x, k, Pow2(k));
  }

  lemma {:induction false} PowSplit(a: nat, b: nat)
    ensures Pow2(a + b) == Pow2(a) * Pow2(b)
    decreases b
  {
    if b > 0 {
      assert Pow2(b) == 2 * Pow2(b - 1) && Pow2(a + b) == 2 * Pow2(a + b - 1);
      hide Pow2;
      PowSplit(a, b - 1);
      Doubled(Pow2(a), Pow2(b - 1));
    }
  }

  /** Wrapping a 16-bit index does not disturb its position in a ring of `2^k` entries. */
  lemma WrapKeepsPosition(x: nat, k: nat)
    requires k <= 16
    ensures x % INDICES % Pow2(k) == x % Pow2(k)
  {
    hide Pow2;
    var n, m := Pow2(k), Pow2(16 - k);
    assert INDICES == n * m by { PowSplit(k, 16 - k); Powers(); }
    var q, r := x / INDICES, x % INDICES;
    assert r == r / n * n + r % n;
    assert q * (n * m) == q * m * n;
    assert x == (q * m + r / n) * n + r % n;
    Quotient(x, q * m + r / n, r % n, n);
  }

  lemma NextCount(x: nat)
    ensures (x % INDICES + 1) % INDICES == (x + 1) % INDICES
  {
    var q, r := x / INDICES, x % INDICES;
    if r + 1 == INDICES {
      Quotient(x + 1, q + 1, 0, INDICES);
    } else {
      Quotient(x + 1, q, r + 1, INDICES);
    }
  }

  lemma NextIndex(x: nat, k: nat)
    requires 1 <= k <= 16
    ensures (x + 1) % INDICES % Pow2(k) == (x % Pow2(k) + 1) % Pow2(k)
    ensures (x + 1) % INDICES % Pow2(k) != x % Pow2(k)
  {
    hide Pow2;
    WrapKeepsPosition(x + 1, k);
    var n, q, r := Pow2(k), x / Pow2(k), x % Pow2(k);
    assert n >= 2 by { PowAtLeast(k); }
    assert x == q * n + r;
    if r + 1 == n {
      assert (q + 1) * n == q * n + n;
      Quotient(x + 1, q + 1, 0, n);
      Quotient(n, 1, 0, n);
    } else {
      Quotient(x + 1, q, r + 1, n);
      Quotient(r + 1, 0, r + 1, n);
    }
  }

  lemma PowAtLeast(k: nat)
    requires k >= 1
    ensures Pow2(k) >= 2
  {}

  /** What may happen while the caller waits: the device returns the chain, or the handler runs. */
  datatype Event = DeviceDone | Interrupt

  /** Where a request stands: none, submitted, returned by the device, or served by the handler. */
  datatype Stage = Quiet | Waiting | Returned | Served

  function Step(stage: Stage, event: Event): Stage {
    match (stage, event)
    case (Waiting, DeviceDone) => Returned
    case (Returned, Interrupt) => Served
    case _ => stage
  }

  function After(stage: Stage, events: seq<Event>): Stage
    decreases |events|
  {
    if events == [] then stage else After(Step(stage, events[0]), events[1..])
  }

  /** How many of the requests ask for a possible number of descriptors. */
  ghost function Accepted(counts: seq<nat>, size: nat): nat {
    if counts == [] then 0
    else Accepted(counts[..|counts| - 1], size) + if 0 < counts[|counts| - 1] <= size then 1 else 0
  }

  class Queue {
    const k: nat                      // the queue has 2^k entries
    const size: nat
    const mask: nat
    const next: array<nat>            // descriptor fields
    const hasNext: array<bool>
    const locked: array<bool>         // one completion lock per descriptor
    const avail: array<nat>
    const used: array<nat>
    var freeList: nat
    var freeCount: nat
    var lastUsed: nat
    var availIndex: nat
    var usedIndex: nat                // written by the device
    var seen: nat                     // the device's position in the available ring

    ghost predicate Shape()
      reads this
    {
      && 1 <= k <= 15 && size == Pow2(k) >= 2 && mask == size - 1
      && next.Length == hasNext.Length == locked.Length == avail.Length == used.Length == size
      && next != avail && next != used && avail != used && hasNext != locked
      && availIndex < INDICES && usedIndex < INDICES && seen < INDICES && lastUsed < size
    }

    /** The first `m` descriptors are free, in the order of setup. */
    ghost predicate Free(m: nat)
      reads this, next
    {
      freeCount == m && Linked(next[..], m) && (m > 0 ==> freeList == m - 1)
    }

    /** No request in flight. */
    ghost predicate Idle()
      reads this, next, locked
    {
      Shape() && Free(size) && locked[size - 1] && seen == availIndex == usedIndex && lastUsed == usedIndex % size
    }

    /** A chain of the last `count` descriptors has been submitted; `done` when the device has returned it. */
    ghost predicate InFlight(count: nat, done: bool)
      reads this, next, hasNext, locked, avail, used
    {
      && Shape() && 1 <= count <= size && Free(size - count) && Chained(next[..], hasNext[..], size - count)
      && locked[size - 1]
      && (if done
          then && seen == availIndex == usedIndex
               && (lastUsed + 1) % size == usedIndex % size && used[lastUsed] == size - count
          else && availIndex == (seen + 1) % INDICES && seen == usedIndex
               && lastUsed == usedIndex % size && avail[seen % size] == size - count)
    }

    /** The handler has run: all but the last descriptor are free again, and its lock is open. */
    ghost predicate Handled()
      reads this, next, locked
    {
      && Shape() && Free(size - 1) && !locked[size - 1]
      && seen == availIndex == usedIndex && lastUsed == usedIndex % size
    }

    ghost predicate At(stage: Stage, count: nat)
      reads this, next, hasNext, locked, avail, used
    {
      match stage
      case Quiet => Idle()
      case Waiting => InFlight(count, false)
      case Returned => InFlight(count, true)
      case Served => Handled()
    }

    /** The free-list and lock part of `virtio_setup_queue`; the pages are zeroed when allocated. */
    constructor (k: nat)
      requires 1 <= k <= 15
      ensures Idle() && this.k == k && availIndex == 0
      ensures fresh(next) && fresh(hasNext) && fresh(locked) && fresh(avail) && fresh(used)
    {
      this.k := k;
      var n := Pow2(k);
      PowAtLeast(k);
      size, mask := n, n - 1;
      next := new nat[n](i => 0);
      hasNext := new bool[n](i => false);
      locked := new bool[n](i => true);
      avail := new nat[n](i => 0);
      used := new nat[n](i => 0);
      freeList, freeCount, lastUsed, availIndex, usedIndex, seen := 0, 0, 0, 0, 0, 0;
      new;
      for i := 0 to size
        invariant freeCount == i && freeList == (if i == 0 then 0 else i - 1)
        invariant forall j :: 0 < j < i ==> next[j] == j - 1
        invariant forall j :: 0 <= j < size ==> locked[j]
        invariant lastUsed == availIndex == usedIndex == seen == 0
      {
        next[i] := freeList;
        freeList := i;
        freeCount := freeCount + 1;
      }
      Quotient(0, 0, 0, size);
    }

    /** `virtio_allocate_descriptors`: `count` descriptors linked into a chain that starts at `first`. */
    method Allocate(count: nat) returns (ok: bool, first: nat)
      requires Idle()
      modifies this`freeList, this`freeCount, next, hasNext
      ensures Shape() && ok == (0 < count <= size)
      ensures !ok ==> Idle()
      ensures ok ==> Free(size - count) && Chained(next[..], hasNext[..], size - count) && first == size - count
    {
      hide Pow2;
      ok, first := false, 0;
      if freeCount < count { return; }
      var left: nat := count;
      while left > 0
        invariant 0 <= left <= count <= size && Free(size - (count - left)) && Shape()
        invariant ok == (left < count)
        invariant ok ==> first == size - (count - left) && Chained(next[..], hasNext[..], first)
        invariant left == count ==> Idle()
      {
        first := Pop(ok, first);
        ok := true;
        left := left - 1;
      }
    }

    /** The body of that loop: the head of the free list becomes the new head of the chain. */
    method Pop(linked: bool, last: nat) returns (i: nat)
      requires Shape() && 0 < freeCount <= size && Free(freeCount)
      requires if linked then last == freeCount && Chained(next[..], hasNext[..], last) else freeCount == size
      modifies this`freeList, this`freeCount, next, hasNext
      ensures Shape() && freeCount == old(freeCount) - 1 == i && Free(freeCount) && Chained(next[..], hasNext[..], i)
    {
      hide Pow2;
      i := freeList;
      freeList := next[i];
      freeCount := freeCount - 1;
      if linked {
        hasNext[i] := true;
        next[i] := last;
      } else {
        hasNext[i] := false;
        next[i] := 0;
      }
    }

    /** `virtio_submit_chain`. */
    method Submit(first: nat)
      requires Shape()
      modifies this`availIndex, avail
      ensures Shape() && availIndex == (old(availIndex) + 1) % INDICES && avail[old(availIndex) % size] == first
    {
      hide Pow2;
      MaskIsMod(availIndex, k);
      avail[BitAnd(availIndex, mask)] := first;
      availIndex := (availIndex + 1) % INDICES;
    }

    /** The device takes the next chain from the available ring and returns it through the used ring. */
    method DeviceReturns()
      requires Shape() && seen != availIndex
      modifies this`seen, this`usedIndex, used
      ensures Shape() && seen == (old(seen) + 1) % INDICES && usedIndex == (old(usedIndex) + 1) % INDICES
      ensures used[old(usedIndex) % size] == avail[old(seen) % size]
    {
      hide Pow2;
      used[usedIndex % size] := avail[seen % size];
      seen, usedIndex := (seen + 1) % INDICES, (usedIndex + 1) % INDICES;
    }

    /** `virtio_free_descriptor`, also the push the handler does. */
    method Push(j: nat)
      requires Shape() && j < size
      modifies this`freeList, this`freeCount, next
      ensures Shape() && freeList == j && freeCount == old(freeCount) + 1
      ensures next[..] == old(next[..])[j := old(freeList)]
    {
      hide Pow2;
      next[j] := freeList;
      freeList := j;
      freeCount := freeCount + 1;
    }

    /** The inner loop of the used-ring walk: every descriptor of the chain is unlocked, and freed unless it
        was the locked last one, which is left to the waiter. */
    method ReturnChain(head: nat, ghost count: nat)
      requires Shape() && 1 <= count <= size && head == size - count
      requires Free(size - count) && Chained(next[..], hasNext[..], size - count) && locked[size - 1]
      modifies this`freeList, this`freeCount, next, locked
      ensures Shape() && Free(size - 1) && !locked[size - 1]
    {
      hide Pow2;
      var j := head;
      while true
        invariant Shape() && head <= j < size && Free(j) && Chained(next[..], hasNext[..], j) && locked[size - 1]
        decreases size - j
      {
        var last := !hasNext[j];
        var follow := next[j];
        if locked[j] {
          locked[j] := false;
          if last { break; }
          Push(j);
          j := follow;
          continue;
        }
        Push(j);
        if last { break; }
        j := follow;
      }
    }

    /** The used-ring walk of `virtio_irq_handler` for one queue, at any time: it serves a returned chain,
        and otherwise does nothing. */
    method Handle(ghost stage: Stage, ghost count: nat)
      requires At(stage, count)
      modifies this`freeList, this`freeCount, this`lastUsed, next, locked
      ensures At(if stage == Returned then Served else stage, count)
    {
      hide Pow2, BitAnd, Linked, Chained;
      MaskIsMod(usedIndex, k);
      var current := usedIndex;
      var i := lastUsed;
      ghost var start := lastUsed;
      NextIndex(start, k);
      while i != BitAnd(current, mask)
        invariant Shape() && current == usedIndex && lastUsed == i < size
        invariant i == start || i == BitAnd(current, mask)
        invariant i == start ==> At(stage, count)
        invariant i != start ==> stage == Returned && Handled()
        decreases i == start
      {
        i := HandleOne(count, i);
      }
    }

    method HandleOne(ghost count: nat, i: nat) returns (i': nat)
      requires InFlight(count, true) && i == lastUsed
      modifies this`freeList, this`freeCount, this`lastUsed, next, locked
      ensures Handled() && i' == lastUsed == usedIndex % size && i' != i
    {
      hide Pow2, BitAnd, Linked, Chained;
      NextIndex(i, k);
      MaskIsMod(i + 1, k);
      ReturnChain(used[i], count);
      lastUsed := BitAnd(lastUsed + 1, mask);
      i' := BitAnd(i + 1, mask);
    }

    /** One event while the caller spins on the lock. The device can return the chain only once. */
    method Happen(event: Event, ghost stage: Stage, ghost count: nat) returns (ghost stage': Stage)
      requires At(stage, count) && stage != Quiet
      modifies this`freeList, this`freeCount, this`lastUsed, this`seen, this`usedIndex, next, locked, used
      ensures At(stage', count) && stage' == Step(stage, event)
      ensures stage != Waiting ==> unchanged(used)
      ensures stage' != Served ==> lastUsed == old(lastUsed)
    {
      hide Pow2, Linked, Chained;
      stage' := stage;
      match event {
        case Interrupt =>
          Handle(stage, count);
          if stage == Returned { stage' := Served; }
        case DeviceDone =>
          NextIndex(availIndex, k);
          NextIndex(seen, k);
          if seen != availIndex {
            DeviceReturns();
            stage' := Returned;
          }
      }
    }

    /** Allocation and submission of a chain of `count` descriptors. */
    method Start(count: nat) returns (ok: bool, first: nat)
      requires Idle()
      modifies this`freeList, this`freeCount, this`availIndex, next, hasNext, avail
      ensures ok == (0 < count <= size)
      ensures ok ==> At(Waiting, count) && availIndex == (old(availIndex) + 1) % INDICES && first == size - count
      ensures !ok ==> Idle() && availIndex == old(availIndex)
    {
      hide Pow2, Linked, Chained;
      ok, first := Allocate(count);
      if ok { Submit(first); }
    }

    /** The last descriptor of the chain, found by its `next` fields. */
    method LastOf(first: nat) returns (last: nat)
      requires Shape() && Chained(next[..], hasNext[..], first)
      ensures last == size - 1
    {
      hide Pow2;
      last := first;
      while hasNext[last]
        invariant first <= last < size
        decreases size - last
      {
        last := next[last];
      }
    }

    /** Taking the lock of the last descriptor once it is open, and freeing that descriptor. */
    method Finish(last: nat, ghost count: nat)
      requires At(Served, count) && last == size - 1
      modifies this`freeList, this`freeCount, next, locked
      ensures Idle()
    {
      hide Pow2;
      locked[last] := true;
      Push(last);
    }

    /** A synchronous request: allocate a chain, submit it, wait on the lock of its last descriptor while
        `events` happen, and free that descriptor. `woken` is false if the caller still spins at the end. */
    method Request(count: nat, events: seq<Event>) returns (ok: bool, woken: bool)
      requires Idle()
      modifies this, next, hasNext, locked, avail, used
      ensures ok == (0 < count <= size)
      ensures !ok ==> Idle() && availIndex == old(availIndex)
      ensures ok ==> woken == (After(Waiting, events) == Served)
      ensures ok && woken ==> Idle() && availIndex == (old(availIndex) + 1) % INDICES
      ensures ok && woken ==> used[old(usedIndex) % size] == size - count
      ensures ok && !woken ==> At(After(Waiting, events), count)
    {
      hide Pow2, Linked, Chained;
      woken := false;
      var first;
      ok, first := Start(count);
      if !ok { return; }
      var last := LastOf(first);
      ghost var stage := Waiting;
      for n := 0 to |events|
        invariant At(stage, count) && stage != Quiet && availIndex == (old(availIndex) + 1) % INDICES
        invariant After(stage, events[n..]) == After(Waiting, events)
        invariant stage == Served ==> used[old(usedIndex) % size] == size - count
        invariant stage != Served ==> lastUsed == old(usedIndex) % size
      {
        stage := Happen(events[n], stage, count);
        assert events[n..][1..] == events[n + 1..];
      }
      if !locked[last] {
        Finish(last, count);
        woken := true;
      }
    }

    /** Every run of requests that are all answered leaves the queue as setup left it. */
    method Requests(counts: seq<nat>, runs: seq<seq<Event>>) returns (n: nat)
      requires Idle() && |counts| == |runs|
      modifies this, next, hasNext, locked, avail, used
      ensures n <= |counts| && (n == |counts| ==> Idle())
      ensures forall i :: 0 <= i < n && 0 < counts[i] <= size ==> After(Waiting, runs[i]) == Served
      ensures n == |counts| ==> availIndex == (old(availIndex) + Accepted(counts, size)) % INDICES
      ensures n < |counts| ==> 0 < counts[n] <= size && After(Waiting, runs[n]) != Served
      ensures n < |counts| ==> At(After(Waiting, runs[n]), counts[n])
    {
      hide Pow2, Linked, Queue.Idle, Queue.At, After;
      n := 0;
      InRing();
      while n < |counts|
        invariant n <= |counts| && Idle()
        invariant forall i :: 0 <= i < n && 0 < counts[i] <= size ==> After(Waiting, runs[i]) == Served
        invariant availIndex == (old(availIndex) + Accepted(counts[..n], size)) % INDICES
      {
        assert counts[..n + 1][..n] == counts[..n];
        NextCount(old(availIndex) + Accepted(counts[..n], size));
        var ok, woken := Request(counts[n], runs[n]);
        if ok && !woken { return; }
        n := n + 1;
      }
      assert counts[..n] == counts;
    }

    lemma InRing()
      requires Idle()
      ensures availIndex % INDICES == availIndex
    {}
  }

  lemma {:induction false} HandledIff(events: seq<Event>)
    ensures After(Returned, events) == Served <==> Interrupt in events
    ensures After(Served, events) == Served
    decreases |events|
  {
    if events != [] {
      HandledIff(events[1..]);
      assert events == [events[0]] + events[1..];
    }
  }

  /** The caller is woken exactly when the device returned the chain and the handler ran after that. */
  lemma {:induction false} WokenIff(events: seq<Event>)
    ensures After(Waiting, events) == Served <==>
              exists i, j :: 0 <= i < j < |events| && events[i] == DeviceDone && events[j] == Interrupt
    ensures After(Returned, events) == Served <==> Interrupt in events
    ensures After(Served, events) == Served
    decreases |events|
  {
    HandledIff(events);
    if events != [] {
      var rest := events[1..];
      WokenIff(rest);
      assert After(Waiting, events) == After(if events[0] == DeviceDone then Returned else Waiting, rest);
      hide After;
      if After(Waiting, events) == Served {
        if events[0] == DeviceDone {
          var j :| 0 <= j < |rest| && rest[j] == Interrupt;
          assert events[j + 1] == Interrupt;
        } else {
          var i, j :| 0 <= i < j < |rest| && rest[i] == DeviceDone && rest[j] == Interrupt;
          assert events[i + 1] == DeviceDone && events[j + 1] == Interrupt;
        }
      }
      if i, j :| 0 <= i < j < |events| && events[i] == DeviceDone && events[j] == Interrupt {
        assert rest[j - 1] == Interrupt;
        if events[0] == Interrupt { assert rest[i - 1] == DeviceDone; }
      }
    }
  }

  /** At rest the free list holds every descriptor in the order of setup. */
  lemma IdleFreeList(q: Queue)
    requires q.Idle()
    ensures q.freeCount == q.size && ListFrom(q.next[..], q.freeList, q.freeCount) == Descending(q.size)
  {
    hide ListFrom, Descending, Linked, Pow2;
    FreeList(q.next[..], q.size, q.freeList);
  }

  /** In flight, the chain the device sees and the free list share no descriptor and together are all of them. */
  lemma ChainApart(q: Queue, count: nat, done: bool)
    requires q.InFlight(count, done)
    ensures var chain := ChainFrom(q.next[..], q.hasNext[..], q.size - count, q.size);
            var free := ListFrom(q.next[..], q.freeList, q.freeCount);
            && |chain| == count && |free| == q.size - count
            && (forall d: nat :: d in chain <==> q.size - count <= d < q.size)
            && (forall d: nat :: d in free <==> d < q.size - count)
  {
    hide ListFrom, ChainFrom, Linked, Chained, Pow2;
    ChainAndRest(q.next[..], q.hasNext[..], q.size, q.size - count, q.freeList);
  }

  lemma ChainAndRest(next: seq<nat>, hasNext: seq<bool>, n: nat, m: nat, head: nat)
    requires |next| == |hasNext| == n && m <= n
    requires Linked(next, m) && (m > 0 ==> head == m - 1) && Chained(next, hasNext, m)
    ensures var chain, free := ChainFrom(next, hasNext, m, n), ListFrom(next, head, m);
            && |chain| == n - m && |free| == m
            && (forall d: nat :: d in chain <==> m <= d < n) && (forall d: nat :: d in free <==> d < m)
  {
    hide *;
    ChainedList(next, hasNext, m, n);
    AscendingIs(m, n);
    FreeList(next, m, head);
    DescendingIs(m);
  }

  lemma FreeList(next: seq<nat>, m: nat, head: nat)
    requires Linked(next, m) && (m > 0 ==> head == m - 1)
    ensures ListFrom(next, head, m) == Descending(m)
  {
    if m > 0 { LinkedList(next, m); }
  }

  lemma {:induction false} AscendingIs(from: nat, n: nat)
    requires from <= n
    ensures |Ascending(from, n)| == n - from && forall d: nat :: d in Ascending(from, n) <==> from <= d < n
    decreases n - from
  {
    if from < n { AscendingIs(from + 1, n); }
  }

  lemma {:induction false} DescendingIs(m: nat)
    ensures |Descending(m)| == m && forall d: nat :: d in Descending(m) <==> d < m
  {
    if m > 0 { DescendingIs(m - 1); }
  }
}
