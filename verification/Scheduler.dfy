/** The SMP scheduler (kernel/tasking/scheduler.c) with counting events (kernel/tasking/event.c).
    A call of `scheduler_schedule` runs under all three scheduler locks, so it is one step. */
module Scheduler {
  import opened Common

  const SLOTS := 512            // MAX_THREADS * 2
  const OUT_OF_TABLE := -2      // the scan reads behind the last slot

  /** The scheduling part of `thread_t`. `taskID` is -1 before the thread is added. `waiting` means
      that `event_pointer` is set; the events it lists are numbered in `events`, and `out` are the
      flags that `out_event_pointer` points to. */
  datatype Thread = Thread(locked: bool, taskID: int, yieldTarget: nat,
                           waiting: bool, events: seq<nat>, out: seq<bool>, timeout: nat, abort: bool)

  const FRESH := Thread(false, -1, 0, false, [], [], 0, false)

  /** An entry of `ActiveTasks`. */
  datatype Slot = Empty | Task(thread: nat)

  /** `cpus[c]` is the current task of CPU `c`, or -1; `counts` are the event counters. */
  datatype State = State(threads: seq<Thread>, active: seq<Slot>, total: nat, cpus: seq<int>, timer: nat,
                         counts: seq<nat>)

  // ----- events -----

  /** The loop over a list of events: every counter found positive is decremented and flagged, in order. */
  function Consume(counts: seq<nat>, events: seq<nat>, out: seq<bool>): (r: (seq<nat>, seq<bool>, bool))
    ensures |r.0| == |counts|
    decreases |events|
  {
    if events == [] then (counts, out, false)
    else
      var e := events[0];
      if e < |counts| && counts[e] > 0
      then
        var rest := Consume(counts[e := counts[e] - 1], events[1..], out + [true]);
        (rest.0, rest.1, true)
      else Consume(counts, events[1..], out + [false])
  }

  ghost predicate AnyPositive(counts: seq<nat>, events: seq<nat>) {
    exists i :: 0 <= i < |events| && events[i] < |counts| && counts[events[i]] > 0
  }

  /** The loop wakes exactly when some listed counter is positive, and otherwise changes nothing. */
  lemma {:induction false} ConsumeWakes(counts: seq<nat>, events: seq<nat>, out: seq<bool>)
    ensures Consume(counts, events, out).2 <==> AnyPositive(counts, events)
    ensures !AnyPositive(counts, events) ==> Consume(counts, events, out).0 == counts
    decreases |events|
  {
    if events != [] {
      var e, rest := events[0], events[1..];
      ConsumeWakes(counts, rest, out + [false]);
      assert forall i :: 0 <= i < |rest| ==> rest[i] == events[i + 1];
      if e < |counts| && counts[e] > 0 {
        assert AnyPositive(counts, events);
      } else {
        assert forall i :: 0 < i < |events| ==> events[i] == rest[i - 1];
      }
    }
  }

  /** How often an event is in a list. */
  ghost function Listed(events: seq<nat>, e: nat): nat {
    if events == [] then 0 else (if events[0] == e then 1 else 0) + Listed(events[1..], e)
  }

  /** What the loop leaves: every listing of an event takes one off its counter while there is one, and flags
      its position exactly if it did. */
  lemma {:induction false} ConsumeLeaves(counts: seq<nat>, events: seq<nat>, out: seq<bool>)
    ensures var r := Consume(counts, events, out);
            && (forall e :: 0 <= e < |counts| ==>
                  r.0[e] == if counts[e] > Listed(events, e) then counts[e] - Listed(events, e) else 0)
            && |r.1| == |out| + |events| && r.1[..|out|] == out
            && (forall i :: 0 <= i < |events| ==>
                  (r.1[|out| + i] <==> events[i] < |counts| && counts[events[i]] > Listed(events[..i], events[i])))
    decreases |events|
  {
    if events != [] {
      var e, rest := events[0], events[1..];
      var hit := e < |counts| && counts[e] > 0;
      var counts' := if hit then counts[e := counts[e] - 1] else counts;
      var out' := out + [hit];
      ConsumeLeaves(counts', rest, out');
      assert Consume(counts, events, out).0 == Consume(counts', rest, out').0;
      assert Consume(counts, events, out).1 == Consume(counts', rest, out').1;
      hide Consume;
      var r := Consume(counts', rest, out');
      assert r.1[..|out|] == r.1[..|out'|][..|out|] && r.1[|out|] == r.1[..|out'|][|out|];
      forall i | 0 < i < |events|
        ensures r.1[|out| + i] <==> events[i] < |counts| && counts[events[i]] > Listed(events[..i], events[i])
      {
        assert events[..i] == [e] + rest[..i - 1];
        assert rest[i - 1] == events[i] && r.1[|out'| + (i - 1)] == r.1[|out| + i];
      }
    }
  }

  /** What the loop over the events finds for the thread. */
  function Wakes(h: Thread, counts: seq<nat>): (r: (seq<nat>, seq<bool>, bool)) { Consume(counts, h.events, []) }

  predicate TimedOut(h: Thread, timer: nat) { h.timeout <= timer && h.timeout != 0 }

  /** Would the scan take this thread? */
  predicate Eligible(h: Thread, timer: nat, counts: seq<nat>) {
    && h.yieldTarget <= timer && !h.locked
    && (!h.waiting || h.abort || Wakes(h, counts).2 || TimedOut(h, timer))
  }

  /** The thread when the scan returns it: locked, and no longer waiting unless it was aborted. */
  function Taken(h: Thread, counts: seq<nat>): (r: Thread) {
    if h.waiting && !h.abort
    then h.(locked := true, waiting := false, out := Wakes(h, counts).1,
            timeout := if Wakes(h, counts).2 then h.timeout else 0)
    else h.(locked := true)
  }

  /** A thread that was taken is locked and has its task and its sleep as before. It no longer waits, unless it
      was aborted; its deadline is cleared exactly if no event had come. */
  lemma TakenMeans(h: Thread, counts: seq<nat>)
    ensures var r := Taken(h, counts);
            && r.locked && r.taskID == h.taskID && r.yieldTarget == h.yieldTarget && r.abort == h.abort
            && (r.waiting <==> h.waiting && h.abort)
            && (h.waiting && !h.abort ==> |r.out| == |h.events|)
            && (h.waiting && !h.abort ==> r.timeout == if AnyPositive(counts, h.events) then h.timeout else 0)
            && (!h.waiting || h.abort ==> r.timeout == h.timeout)
  {
    ConsumeWakes(counts, h.events, []);
    ConsumeLeaves(counts, h.events, []);
  }

  /** A wait without a deadline can end with no event: an earlier wait that an event ended has left its deadline
      behind. */
  lemma StaleDeadlineWakes()
    ensures var h := Thread(false, 0, 0, true, [0], [], 5, false);
            var again := Taken(h, [1]).(locked := false, waiting := true, events := [0]);
            Eligible(h, 0, [1]) && again.timeout == 5 && Eligible(again, 5, [0]) && !AnyPositive([0], [0])
  {
    var h := Thread(false, 0, 0, true, [0], [], 5, false);
    assert h.events[0] == 0 && [1][h.events[0]] > 0;
    ConsumeWakes([1], [0], []);
    assert AnyPositive([1], h.events);
    TakenMeans(h, [1]);
  }

  // ----- the slots -----

  ghost predicate WellPlaced(s: State) {
    && |s.active| == SLOTS && s.total <= SLOTS
    && (forall k :: 0 <= k < SLOTS ==> (s.active[k].Task? <==> k < s.total))
    && (forall k :: 0 <= k < s.total ==> s.active[k].thread < |s.threads| && s.threads[s.active[k].thread].taskID == k)
    && (forall t :: 0 <= t < |s.threads| ==> -1 <= s.threads[t].taskID < s.total)
    && (forall t :: 0 <= t < |s.threads| && s.threads[t].taskID >= 0 ==> s.active[s.threads[t].taskID] == Task(t))
    && (forall c :: 0 <= c < |s.cpus| ==> -1 <= s.cpus[c] < s.total)
  }

  /** The thread in slot `k`. */
  function At(s: State, k: nat): (t: nat)
    requires WellPlaced(s) && k < s.total
    ensures t < |s.threads|
  {
    s.active[k].thread
  }

  predicate Ready(s: State, k: nat)
    requires WellPlaced(s) && k < s.total
  {
    Eligible(s.threads[At(s, k)], s.timer, s.counts)
  }

  /** The `i`-th task examined by a scan that starts at `first`, with `n` tasks. */
  function Turn(first: nat, i: nat, n: nat): int { if first + i < n then first + i else first + i - n }

  /** The first ready task at or after the `i`-th turn; -1 if there is none. */
  function Pick(s: State, first: nat, i: nat): (r: int)
    requires WellPlaced(s) && first <= s.total && i <= s.total
    ensures -1 <= r < s.total
    decreases s.total - i
  {
    if i == s.total then -1
    else if Ready(s, Turn(first, i, s.total)) then Turn(first, i, s.total)
    else Pick(s, first, i + 1)
  }

  // ----- steps -----

  datatype Step = Schedule(cpu: nat)                        // scheduler_schedule on a CPU
                | AddTask(thread: nat)                      // scheduler_add_task
                | NewThread                                 // thread_create
                | Tick                                      // the timer interrupt
                | Notify(event: nat)                        // event_notify
                | Reset(event: nat)                         // event_reset
                | FastPath(events: seq<nat>)                // the first loop of events_await
                | Register(cpu: nat, events: seq<nat>)      // the rest of events_await
                | Deadline(cpu: nat, target: nat)           // event_array_await_timeout
                | Sleep(cpu: nat, target: nat)              // thread_sleep
                | Abort(thread: nat)                        // event_abort of a thread

  ghost predicate Running(s: State, c: nat) { c < |s.cpus| && s.cpus[c] >= 0 }

  /** When a step can happen. A scan that would start behind the last slot leaves the table at once. */
  ghost predicate Enabled(s: State, e: Step) {
    match e
    case Schedule(c) => c < |s.cpus| && s.cpus[c] + 1 < SLOTS
    case Register(c, _) => Running(s, c)
    case Deadline(c, _) => Running(s, c)
    case Sleep(c, _) => Running(s, c)
    case Notify(v) => v < |s.counts|
    case Reset(v) => v < |s.counts|
    case Abort(t) => t < |s.threads|
    case _ => true
  }

  function Unlock(s: State, c: nat): (r: State)
    requires WellPlaced(s) && c < |s.cpus|
    ensures WellPlaced(r) && r.cpus == s.cpus && r.total == s.total
  {
    if s.cpus[c] == -1 then s
    else
      var t := At(s, s.cpus[c]);
      s.(threads := s.threads[t := s.threads[t].(locked := false)])
  }

  /** Slot `p` is taken: its thread is locked and the events it waited for are consumed. */
  function Held(s: State, p: nat): (r: State)
    requires WellPlaced(s) && p < s.total
    ensures WellPlaced(r) && r.cpus == s.cpus && r.total == s.total
  {
    var t := At(s, p);
    var h := s.threads[t];
    s.(threads := s.threads[t := Taken(h, s.counts)],
       counts := if h.waiting && !h.abort then Wakes(h, s.counts).0 else s.counts)
  }

  /** CPU `c` switches to slot `p`, or to idle. */
  function Switch(s: State, c: nat, p: int): (r: State)
    requires WellPlaced(s) && c < |s.cpus| && -1 <= p < s.total
    ensures WellPlaced(r)
  {
    (if p == -1 then s else Held(s, p)).(cpus := s.cpus[c := p])
  }

  function Decision(s: State, c: nat): (p: int)
    requires WellPlaced(s) && c < |s.cpus| && s.cpus[c] + 1 < SLOTS
    ensures -1 <= p < s.total
  {
    Pick(Unlock(s, c), s.cpus[c] + 1, 0)
  }

  /** Changes the thread that runs on CPU `c`. */
  ghost function Update(s: State, c: nat, h: Thread): State
    requires WellPlaced(s) && Running(s, c)
  {
    s.(threads := s.threads[At(s, s.cpus[c]) := h])
  }

  function Added(s: State, t: nat): State
    requires WellPlaced(s)
  {
    if t >= |s.threads| || s.threads[t].taskID != -1 || s.total == SLOTS then s
    else s.(threads := s.threads[t := s.threads[t].(taskID := s.total)],
            active := s.active[s.total := Task(t)], total := s.total + 1)
  }

  ghost function Next(s: State, e: Step): State
    requires WellPlaced(s) && Enabled(s, e)
  {
    match e
    case Schedule(c) => Switch(Unlock(s, c), c, Decision(s, c))
    case AddTask(t) => Added(s, t)
    case NewThread => s.(threads := s.threads + [FRESH])
    case Tick => s.(timer := s.timer + 1)
    case Notify(v) => s.(counts := s.counts[v := (s.counts[v] + 1) % COUNTS])
    case Reset(v) => s.(counts := s.counts[v := 0])
    case FastPath(evs) => s.(counts := Consume(s.counts, evs, []).0)
    case Register(c, evs) => Update(s, c, s.threads[At(s, s.cpus[c])].(waiting := true, events := evs))
    case Deadline(c, target) => Update(s, c, s.threads[At(s, s.cpus[c])].(timeout := target))
    case Sleep(c, target) => Update(s, c, s.threads[At(s, s.cpus[c])].(yieldTarget := target))
    case Abort(t) => s.(threads := s.threads[t := s.threads[t].(abort := true)])
  }

  // ----- exclusion -----

  ghost predicate Holds(s: State, c: nat, t: nat)
    requires c < |s.cpus| && t < |s.threads|
  {
    s.cpus[c] >= 0 && s.cpus[c] == s.threads[t].taskID
  }

  /** A thread's lock is taken exactly when some CPU runs the thread, and no two CPUs run the same one. */
  ghost predicate Exclusive(s: State) {
    && (forall t :: 0 <= t < |s.threads| ==> (s.threads[t].locked <==> exists c :: 0 <= c < |s.cpus| && Holds(s, c, t)))
    && (forall c, d :: 0 <= c < d < |s.cpus| && s.cpus[c] == s.cpus[d] ==> s.cpus[c] == -1)
  }

  ghost predicate Inv(s: State) { WellPlaced(s) && Exclusive(s) }

  ghost predicate Init(s: State) {
    && |s.active| == SLOTS && (forall k :: 0 <= k < SLOTS ==> s.active[k] == Empty)
    && s.total == 0 && s.threads == [] && (forall c :: 0 <= c < |s.cpus| ==> s.cpus[c] == -1)
  }

  /** CPU `c` gives up its task: no CPU then runs it, so its lock must be free. */
  ghost function Idled(s: State, c: nat): State
    requires WellPlaced(s) && c < |s.cpus|
  {
    Unlock(s, c).(cpus := s.cpus[c := -1])
  }

  lemma IdledKeeps(s: State, c: nat)
    requires Inv(s) && c < |s.cpus|
    ensures Inv(Idled(s, c))
  {
    forall t | 0 <= t < |s.threads| { IdledLock(s, c, t); }
    hide Holds;
  }

  lemma IdledLock(s: State, c: nat, t: nat)
    requires Inv(s) && c < |s.cpus| && t < |s.threads|
    ensures var r := Idled(s, c); r.threads[t].locked <==> exists d :: 0 <= d < |r.cpus| && Holds(r, d, t)
  {
    var r := Idled(s, c);
    if Holds(s, c, t) {
      assert !r.threads[t].locked;
      assert forall d :: 0 <= d < |r.cpus| ==> !Holds(r, d, t);
    } else {
      assert forall d :: 0 <= d < |r.cpus| ==> (Holds(r, d, t) <==> Holds(s, d, t));
    }
  }

  /** A CPU without a task takes a thread whose lock is free. */
  lemma SwitchKeeps(s: State, c: nat, p: nat)
    requires Inv(s) && c < |s.cpus| && s.cpus[c] == -1 && p < s.total && !s.threads[At(s, p)].locked
    ensures Inv(Switch(s, c, p))
  {
    var r := Switch(s, c, p);
    forall t | 0 <= t < |s.threads|
      ensures r.threads[t].locked <==> exists d :: 0 <= d < |r.cpus| && Holds(r, d, t)
    {
      if t == At(s, p) {
        assert Holds(r, c, t);
      } else {
        assert forall d :: 0 <= d < |r.cpus| ==> (Holds(r, d, t) <==> Holds(s, d, t));
      }
    }
    forall d | 0 <= d < |s.cpus| && d != c
      ensures r.cpus[d] != p
    {
      assert !Holds(s, d, At(s, p));
    }
  }

  /** Whatever is picked is ready. */
  lemma {:induction false} PickReady(s: State, first: nat, i: nat)
    requires WellPlaced(s) && first <= s.total && i <= s.total
    ensures Pick(s, first, i) >= 0 ==> Ready(s, Pick(s, first, i))
    decreases s.total - i
  {
    if i < s.total {
      PickReady(s, first, i + 1);
    }
  }

  lemma ScheduleKeeps(s: State, c: nat)
    requires Inv(s) && Enabled(s, Schedule(c))
    ensures Inv(Next(s, Schedule(c)))
  {
    hide Exclusive, Consume, Pick, Taken;
    var u, p, idle := Unlock(s, c), Decision(s, c), Idled(s, c);
    IdledKeeps(s, c);
    if p == -1 {
      assert Switch(u, c, p) == idle;
    } else {
      PickReady(u, s.cpus[c] + 1, 0);
      SwitchKeeps(idle, c, p);
      assert idle.cpus[c := p] == u.cpus[c := p];
      assert Switch(u, c, p) == Switch(idle, c, p);
    }
  }

  /** A step that leaves every lock, every task number and every CPU alone keeps the invariant. */
  lemma SameLocks(s: State, r: State)
    requires Inv(s)
    requires r.active == s.active && r.total == s.total && r.cpus == s.cpus && |r.threads| == |s.threads|
    requires forall t :: 0 <= t < |s.threads| ==>
               r.threads[t].locked == s.threads[t].locked && r.threads[t].taskID == s.threads[t].taskID
    ensures Inv(r)
  {
    forall t | 0 <= t < |s.threads|
      ensures r.threads[t].locked <==> exists d :: 0 <= d < |r.cpus| && Holds(r, d, t)
    {
      assert forall d :: 0 <= d < |r.cpus| ==> (Holds(r, d, t) <==> Holds(s, d, t));
    }
  }

  lemma AddKeeps(s: State, t: nat)
    requires Inv(s)
    ensures Inv(Added(s, t))
  {
    var r := Added(s, t);
    forall u | 0 <= u < |s.threads|
      ensures r.threads[u].locked <==> exists d :: 0 <= d < |r.cpus| && Holds(r, d, u)
    {
      assert forall d :: 0 <= d < |r.cpus| ==> (Holds(r, d, u) <==> Holds(s, d, u));
    }
  }

  lemma CreateKeeps(s: State)
    requires Inv(s)
    ensures Inv(Next(s, NewThread))
  {
    var r := Next(s, NewThread);
    forall u | 0 <= u < |r.threads|
      ensures r.threads[u].locked <==> exists d :: 0 <= d < |r.cpus| && Holds(r, d, u)
    {
      if u < |s.threads| {
        assert forall d :: 0 <= d < |r.cpus| ==> (Holds(r, d, u) <==> Holds(s, d, u));
      }
    }
  }

  lemma StepKeeps(s: State, e: Step)
    requires Inv(s) && Enabled(s, e)
    ensures Inv(Next(s, e))
  {
    match e
    case Schedule(c) => ScheduleKeeps(s, c);
    case AddTask(t) => AddKeeps(s, t);
    case NewThread => CreateKeeps(s);
    case _ => SameLocks(s, Next(s, e));
  }

  // ----- runs -----

  /** Every step of the run can happen when its turn comes. */
  ghost predicate CanRun(s: State, es: seq<Step>)
    requires WellPlaced(s)
    decreases |es|
  {
    es == [] || (Enabled(s, es[0]) && WellPlaced(Next(s, es[0])) && CanRun(Next(s, es[0]), es[1..]))
  }

  ghost function Run(s: State, es: seq<Step>): (r: State)
    requires WellPlaced(s) && CanRun(s, es)
    ensures WellPlaced(r)
    decreases |es|
  {
    if es == [] then s else Run(Next(s, es[0]), es[1..])
  }

  /** SMP exclusion: it holds in every reachable state. */
  lemma {:induction false} RunKeeps(s: State, es: seq<Step>)
    requires Inv(s) && CanRun(s, es)
    ensures Inv(Run(s, es))
    decreases |es|
  {
    if es != [] {
      StepKeeps(s, es[0]);
      RunKeeps(Next(s, es[0]), es[1..]);
    }
  }

  lemma ReachableExclusive(s: State, es: seq<Step>)
    requires Init(s) && WellPlaced(s) && CanRun(s, es)
    ensures var r := Run(s, es);
      && (forall t :: 0 <= t < |r.threads| && r.threads[t].taskID >= 0 ==> r.active[r.threads[t].taskID] == Task(t))
      && (forall t, c, d :: 0 <= t < |r.threads| && 0 <= c < d < |r.cpus| ==> !(Holds(r, c, t) && Holds(r, d, t)))
      && (forall t :: 0 <= t < |r.threads| ==>
            (r.threads[t].locked <==> exists c :: 0 <= c < |r.cpus| && Holds(r, c, t)))
  {
    RunKeeps(s, es);
  }

  // ----- bounded waiting -----

  /** How many other tasks come before task `k` in a scan on a CPU whose current task is `current`. */
  function Distance(current: int, k: nat, n: nat): int {
    if k > current then k - current - 1 else k - current - 1 + n
  }

  /** The turns from `i` up to `j` find no ready task. */
  ghost predicate Passed(s: State, first: nat, i: nat, j: nat)
    requires WellPlaced(s) && first <= s.total && j <= s.total
  {
    forall m :: i <= m < j ==> !Ready(s, Turn(first, m, s.total))
  }

  lemma PickStep(s: State, first: nat, i: nat)
    requires WellPlaced(s) && first <= s.total && i < s.total
    ensures var k := Turn(first, i, s.total);
      && 0 <= k < s.total
      && Pick(s, first, i) == (if Ready(s, k) then k else Pick(s, first, i + 1))
      && (i + 1 < s.total ==> Turn(first, i + 1, s.total) == if k + 1 == s.total then 0 else k + 1)
  {
    hide WellPlaced, Ready;
  }

  lemma PickEnds(s: State, first: nat)
    requires WellPlaced(s) && first <= s.total
    ensures Pick(s, first, s.total) == -1
    ensures s.total > 0 ==> Turn(first, 0, s.total) == if first == s.total then 0 else first
  {
  }

  /** Where the scan stops: at the first ready turn. */
  lemma {:induction false} PickFirst(s: State, first: nat, i: nat)
    requires WellPlaced(s) && first <= s.total && i <= s.total
    ensures var r := Pick(s, first, i);
      if r == -1 then Passed(s, first, i, s.total)
      else Ready(s, r) && exists j: nat :: i <= j < s.total && r == Turn(first, j, s.total) && Passed(s, first, i, j)
    decreases s.total - i
  {
    hide WellPlaced, Eligible, At;
    if i < s.total {
      var r := Pick(s, first, i);
      if Ready(s, Turn(first, i, s.total)) {
        assert Passed(s, first, i, i);
      } else {
        PickFirst(s, first, i + 1);
        if r != -1 {
          var j: nat :| i + 1 <= j < s.total && r == Turn(first, j, s.total) && Passed(s, first, i + 1, j);
          assert Passed(s, first, i, j);
        }
      }
    }
  }

  /** Every task has its turn, and only one. */
  lemma TurnOf(current: int, k: nat, n: nat, i: nat)
    requires -1 <= current < n && k < n && i < n
    ensures 0 <= Distance(current, k, n) < n
    ensures Turn(current + 1, i, n) == k <==> i == Distance(current, k, n)
  {
  }

  /** The scan finds none only if no task is ready. */
  lemma NoneReady(s: State, current: int)
    requires WellPlaced(s) && -1 <= current < s.total
    ensures Pick(s, current + 1, 0) == -1 <==> forall k: nat :: k < s.total ==> !Ready(s, k)
  {
    hide WellPlaced, Eligible, At, Pick;
    PickFirst(s, current + 1, 0);
    if Pick(s, current + 1, 0) == -1 {
      forall k: nat | k < s.total
        ensures !Ready(s, k)
      {
        TurnOf(current, k, s.total, Distance(current, k, s.total));
        assert Turn(current + 1, Distance(current, k, s.total), s.total) == k;
      }
    }
  }

  /** While task `k` is ready, a decision picks it or comes closer to it. */
  lemma Closer(s: State, current: int, k: nat)
    requires WellPlaced(s) && -1 <= current < s.total && k < s.total && Ready(s, k)
    ensures var p := Pick(s, current + 1, 0);
      0 <= p && (p == k || 0 <= Distance(p, k, s.total) < Distance(current, k, s.total))
  {
    hide WellPlaced, Eligible, At, Pick;
    var n := s.total;
    var d := Distance(current, k, n);
    PickFirst(s, current + 1, 0);
    TurnOf(current, k, n, d);
    var p := Pick(s, current + 1, 0);
    assert Ready(s, Turn(current + 1, d, n));
    var j: nat :| j < n && p == Turn(current + 1, j, n) && Passed(s, current + 1, 0, j);
    assert j <= d;
  }

  /** The decisions of CPU `c` in a run. */
  ghost function Decisions(s: State, es: seq<Step>, c: nat): (r: seq<int>)
    requires WellPlaced(s) && CanRun(s, es)
    decreases |es|
  {
    if es == [] then []
    else
      var rest := Decisions(Next(s, es[0]), es[1..], c);
      if es[0] == Schedule(c) then [Decision(s, c)] + rest else rest
  }

  /** No task is added, and task `k` is ready at every decision of CPU `c`. */
  ghost predicate StaysReady(s: State, es: seq<Step>, c: nat, k: nat)
    requires WellPlaced(s) && CanRun(s, es)
    decreases |es|
  {
    k < s.total &&
    (es == [] || (
      && !es[0].AddTask?
      && (es[0] == Schedule(c) ==> Ready(Unlock(s, c), k))
      && StaysReady(Next(s, es[0]), es[1..], c, k)))
  }

  lemma DistanceBound(s: State, c: nat, k: nat)
    requires WellPlaced(s) && c < |s.cpus| && k < s.total
    ensures -1 <= s.cpus[c] < s.total && 0 <= Distance(s.cpus[c], k, s.total) < s.total
  {
  }

  lemma OtherSteps(s: State, e: Step, c: nat)
    requires WellPlaced(s) && Enabled(s, e) && !e.AddTask? && c < |s.cpus|
    ensures var r := Next(s, e);
      && r.total == s.total && |r.cpus| == |s.cpus|
      && r.cpus[c] == if e == Schedule(c) then Decision(s, c) else s.cpus[c]
  {
  }

  /** Bounded waiting: task `k` is picked after at most its distance in decisions of the CPU, whatever the
      other CPUs, the timer and the events do in between. */
  lemma {:induction false} PickedWithinDistance(s: State, es: seq<Step>, c: nat, k: nat)
    requires WellPlaced(s) && CanRun(s, es) && c < |s.cpus| && StaysReady(s, es, c, k)
    requires |Decisions(s, es, c)| > Distance(s.cpus[c], k, s.total)
    ensures exists j :: 0 <= j <= Distance(s.cpus[c], k, s.total) && Decisions(s, es, c)[j] == k
    decreases |es|
  {
    hide WellPlaced, Next, Unlock, Ready, Pick, Distance;
    var d := Distance(s.cpus[c], k, s.total);
    DistanceBound(s, c, k);
    if es != [] {
      var r := Next(s, es[0]);
      OtherSteps(s, es[0], c);
      var rest := Decisions(r, es[1..], c);
      if es[0] != Schedule(c) {
        PickedWithinDistance(r, es[1..], c, k);
      } else {
        Closer(Unlock(s, c), s.cpus[c], k);
        assert Decisions(s, es, c) == [Decision(s, c)] + rest;
        if Decision(s, c) == k {
          assert Decisions(s, es, c)[0] == k;
        } else {
          PickedWithinDistance(r, es[1..], c, k);
          var j :| 0 <= j < d && rest[j] == k;
          assert Decisions(s, es, c)[j + 1] == k;
        }
      }
    }
  }

  /** Within as many decisions as there are tasks. */
  lemma PickedWithinTotal(s: State, es: seq<Step>, c: nat, k: nat)
    requires WellPlaced(s) && CanRun(s, es) && c < |s.cpus| && StaysReady(s, es, c, k)
    requires |Decisions(s, es, c)| >= s.total
    ensures exists j :: 0 <= j < s.total && Decisions(s, es, c)[j] == k
  {
    PickedWithinDistance(s, es, c, k);
  }

  // ----- sleeping and waiting -----

  /** What makes a slot ready, by the fields of its thread. */
  lemma ReadyMeans(s: State, k: nat)
    requires WellPlaced(s) && k < s.total
    ensures var h := s.threads[At(s, k)];
            Ready(s, k) <==>
              && !h.locked && h.yieldTarget <= s.timer
              && (!h.waiting || h.abort || AnyPositive(s.counts, h.events) || 0 < h.timeout <= s.timer)
  {
    hide WellPlaced, AnyPositive, Consume;
    var h := s.threads[At(s, k)];
    ConsumeWakes(s.counts, h.events, []);
  }

  /** `r` is a slot whose thread may go on, or -1 and there is none: the thread is unlocked, its sleep is over,
      and it does not wait, or it is aborted, or an event has come, or its deadline has passed. */
  ghost predicate Found(s: State, r: int)
    requires WellPlaced(s) && -1 <= r < s.total
  {
    if r >= 0 then
      var h := s.threads[s.active[r].thread];
      && !h.locked && h.yieldTarget <= s.timer
      && (!h.waiting || h.abort || AnyPositive(s.counts, h.events) || 0 < h.timeout <= s.timer)
    else
      forall k :: 0 <= k < s.total ==>
        var h := s.threads[s.active[k].thread];
        || h.locked || h.yieldTarget > s.timer
        || (h.waiting && !h.abort && !AnyPositive(s.counts, h.events) && !(0 < h.timeout <= s.timer))
  }

  lemma InRange(s: State, c: nat)
    requires WellPlaced(s) && c < |s.cpus|
    ensures -1 <= s.cpus[c] < s.total <= SLOTS
  {}

  /** The parts of a decision as they are carried out: unlock, scan, switch. */
  lemma SwitchIs(s: State, u: State, c: nat, p: int, held: State)
    requires WellPlaced(s) && c < |s.cpus| && s.cpus[c] + 1 < SLOTS && u == Unlock(s, c) && -1 <= p < u.total
    requires p == Pick(u, s.cpus[c] + 1, 0) && held == if p >= 0 then Held(u, p) else u
    ensures Next(s, Schedule(c)) == held.(cpus := s.cpus[c := p]) && held.cpus == s.cpus
  {
    hide Pick, Held;
  }

  lemma PickMeans(s: State, current: int)
    requires WellPlaced(s) && -1 <= current < s.total
    ensures Found(s, Pick(s, current + 1, 0))
  {
    PickReady(s, current + 1, 0);
    NoneReady(s, current);
    var p := Pick(s, current + 1, 0);
    if p >= 0 {
      ReadyMeans(s, p);
    } else {
      forall k: nat | k < s.total
        ensures var h := s.threads[s.active[k].thread];
                || h.locked || h.yieldTarget > s.timer
                || (h.waiting && !h.abort && !AnyPositive(s.counts, h.events) && !(0 < h.timeout <= s.timer))
      {
        ReadyMeans(s, k);
      }
    }
  }

  /** A decision finds a thread that may go on, where the one that the CPU gives up counts as unlocked. */
  lemma DecisionMeans(s: State, c: nat)
    requires WellPlaced(s) && c < |s.cpus| && s.cpus[c] + 1 < SLOTS
    ensures Found(Unlock(s, c), Decision(s, c))
  {
    PickMeans(Unlock(s, c), s.cpus[c]);
  }

  ghost predicate NotCurrent(s: State, k: nat) { forall c :: 0 <= c < |s.cpus| ==> s.cpus[c] != k }

  /** The thread in slot `k` may not go on: its sleep is not over, or no event that it waits for has come, its
      deadline has not passed and it is not aborted. */
  ghost predicate Sleeping(h: Thread, timer: nat) { h.yieldTarget > timer }

  ghost predicate Blocked(h: Thread, timer: nat, counts: seq<nat>) {
    h.waiting && !h.abort && !AnyPositive(counts, h.events) && (h.timeout == 0 || h.timeout > timer)
  }

  /** A decision does not pick a thread that may not go on, even the one that the CPU runs. */
  lemma NotPicked(s: State, c: nat, k: nat)
    requires WellPlaced(s) && c < |s.cpus| && s.cpus[c] + 1 < SLOTS && k < s.total
    requires var h := s.threads[At(s, k)]; Sleeping(h, s.timer) || Blocked(h, s.timer, s.counts)
    ensures Decision(s, c) != k
  {
    var u := Unlock(s, c);
    assert var h, h' := s.threads[At(s, k)], u.threads[At(u, k)];
      h' == h.(locked := h'.locked) && u.timer == s.timer && u.counts == s.counts;
    hide WellPlaced, Pick, Unlock, AnyPositive;
    PickReady(u, s.cpus[c] + 1, 0);
    ReadyMeans(u, k);
  }

  /** A thread that no CPU runs and that is not picked stays as it is, but for an abort. */
  lemma Untouched(s: State, e: Step, k: nat)
    requires WellPlaced(s) && Enabled(s, e) && WellPlaced(Next(s, e)) && k < s.total && NotCurrent(s, k)
    requires e.Schedule? ==> Decision(s, e.cpu) != k
    ensures var r := Next(s, e);
            && k < r.total && At(r, k) == At(s, k) && NotCurrent(r, k)
            && r.threads[At(r, k)] == if e == Abort(At(s, k)) then s.threads[At(s, k)].(abort := true)
                                      else s.threads[At(s, k)]
  {
    match e
    case Schedule(c) => OtherPicked(s, c, k);
    case _ => hide Pick, Taken, Consume;
  }

  lemma OtherPicked(s: State, c: nat, k: nat)
    requires WellPlaced(s) && Enabled(s, Schedule(c)) && k < s.total && NotCurrent(s, k) && Decision(s, c) != k
    ensures var r := Next(s, Schedule(c));
            && WellPlaced(r) && k < r.total && At(r, k) == At(s, k) && NotCurrent(r, k)
            && r.threads[At(r, k)] == s.threads[At(s, k)]
  {
    hide Pick, Taken, Consume;
  }

  ghost function Ticks(es: seq<Step>): nat {
    if es == [] then 0 else (if es[0] == Tick then 1 else 0) + Ticks(es[1..])
  }

  lemma TimerOf(s: State, e: Step)
    requires WellPlaced(s) && Enabled(s, e)
    ensures Next(s, e).timer == s.timer + if e == Tick then 1 else 0
  {
    hide WellPlaced, Pick, Taken, Consume;
  }

  /** A sleeping thread is not picked by any CPU, and so does not run, before its sleep is over. */
  lemma {:induction false} SleepsOn(s: State, es: seq<Step>, k: nat)
    requires WellPlaced(s) && CanRun(s, es) && k < s.total && NotCurrent(s, k)
    requires s.threads[At(s, k)].yieldTarget > s.timer + Ticks(es)
    ensures NotCurrent(Run(s, es), k) && forall c: nat :: k !in Decisions(s, es, c)
    decreases |es|
  {
    hide WellPlaced, Next, Pick, Unlock;
    if es != [] {
      var e := es[0];
      if e.Schedule? { NotPicked(s, e.cpu, k); }
      Untouched(s, e, k);
      TimerOf(s, e);
      SleepsOn(Next(s, e), es[1..], k);
    }
  }

  /** thread_sleep: the caller gives up its CPU and runs nowhere until the timer has reached the target. */
  lemma SleepCall(s: State, c: nat, target: nat, es: seq<Step>)
    requires Inv(s) && Running(s, c) && CanRun(s, [Sleep(c, target), Schedule(c)] + es)
    requires target > s.timer + Ticks(es)
    ensures NotCurrent(Run(s, [Sleep(c, target), Schedule(c)] + es), s.cpus[c])
  {
    hide WellPlaced, Next, Run, CanRun;
    var e, k := Sleep(c, target), s.cpus[c];
    TwoSteps(s, e, Schedule(c), es);
    var s1 := Next(s, e);
    Changed(s, c, e);
    LeavesCpu(s1, c, k);
    TimerOf(s1, Schedule(c));
    SleepsOn(Next(s1, Schedule(c)), es, k);
  }

  lemma TwoSteps(s: State, e: Step, f: Step, es: seq<Step>)
    requires WellPlaced(s) && CanRun(s, [e, f] + es)
    ensures Enabled(s, e) && WellPlaced(Next(s, e)) && Enabled(Next(s, e), f)
    ensures var r := Next(Next(s, e), f); WellPlaced(r) && CanRun(r, es) && Run(s, [e, f] + es) == Run(r, es)
  {
    hide WellPlaced, Next;
    var all := [e, f] + es;
    assert all[0] == e && all[1..] == [f] + es && ([f] + es)[1..] == es;
    assert CanRun(Next(s, e), [f] + es);
  }

  /** What a sleep or a wait changes before the thread gives up its CPU, and that no other CPU runs it. */
  lemma Changed(s: State, c: nat, e: Step)
    requires Inv(s) && Running(s, c) && (e.Sleep? || e.Register? || e.Deadline?) && e.cpu == c
    requires WellPlaced(Next(s, e))
    ensures var k, r := s.cpus[c], Next(s, e);
            && r.cpus == s.cpus && r.timer == s.timer && r.counts == s.counts && k < r.total && At(r, k) == At(s, k)
            && (forall d :: 0 <= d < |r.cpus| && d != c ==> r.cpus[d] != k)
            && var h := s.threads[At(s, k)];
            r.threads[At(r, k)] == if e.Sleep? then h.(yieldTarget := e.target)
                                   else if e.Deadline? then h.(timeout := e.target)
                                   else h.(waiting := true, events := e.events)
  {
  }

  /** The thread of a CPU that may not go on is on no CPU after the decision, and otherwise unchanged. */
  lemma LeavesCpu(s: State, c: nat, k: nat)
    requires WellPlaced(s) && Enabled(s, Schedule(c)) && s.cpus[c] == k && k < s.total
    requires forall d :: 0 <= d < |s.cpus| && d != c ==> s.cpus[d] != k
    requires var h := s.threads[At(s, k)]; Sleeping(h, s.timer) || Blocked(h, s.timer, s.counts)
    ensures var r := Next(s, Schedule(c));
            && WellPlaced(r) && k < r.total && At(r, k) == At(s, k) && NotCurrent(r, k)
            && r.threads[At(r, k)] == s.threads[At(s, k)].(locked := false)
  {
    NotPicked(s, c, k);
    hide Pick, Taken, Consume;
  }

  /** Nothing in the run concerns the waiting thread: no abort, and no notification of its events. */
  ghost predicate Undisturbed(es: seq<Step>, t: nat, events: seq<nat>) {
    forall i :: 0 <= i < |es| ==> es[i] != Abort(t) && (es[i].Notify? ==> es[i].event !in events)
  }

  /** Counters grow by notifications only. */
  lemma StaysQuiet(s: State, e: Step, events: seq<nat>)
    requires WellPlaced(s) && Enabled(s, e) && !AnyPositive(s.counts, events)
    requires e.Notify? ==> e.event !in events
    ensures !AnyPositive(Next(s, e).counts, events)
  {
    hide WellPlaced, Pick, Taken;
    var r := Next(s, e);
    assert |r.counts| == |s.counts| by { hide Consume; }
    forall i | 0 <= i < |events| && events[i] < |s.counts| ensures r.counts[events[i]] == 0 {
      assert s.counts[events[i]] == 0;
      match e
      case Schedule(c) =>
        var p := Decision(s, c);
        if p != -1 { ConsumeLeaves(s.counts, s.threads[At(s, p)].events, []); }
      case FastPath(evs) => ConsumeLeaves(s.counts, evs, []);
      case _ =>
    }
  }

  /** A waiting thread is not picked by any CPU, and so does not run, unless one of its events is notified, its
      deadline passes or it is aborted. */
  lemma {:induction false} WaitsOn(s: State, es: seq<Step>, k: nat)
    requires WellPlaced(s) && CanRun(s, es) && k < s.total && NotCurrent(s, k)
    requires var h := s.threads[At(s, k)];
             Blocked(h, s.timer + Ticks(es), s.counts) && Undisturbed(es, At(s, k), h.events)
    ensures NotCurrent(Run(s, es), k) && forall c: nat :: k !in Decisions(s, es, c)
    decreases |es|
  {
    hide WellPlaced, Next, Pick, Unlock, AnyPositive;
    if es != [] {
      var e := es[0];
      if e.Schedule? { NotPicked(s, e.cpu, k); }
      Untouched(s, e, k);
      TimerOf(s, e);
      StaysQuiet(s, e, s.threads[At(s, k)].events);
      assert forall i :: 0 <= i < |es[1..]| ==> es[1..][i] == es[i + 1];
      WaitsOn(Next(s, e), es[1..], k);
    }
  }

  /** events_await: if no event has come, the caller gives up its CPU and runs nowhere until one comes, or until
      the deadline that its thread still carries. */
  lemma AwaitCall(s: State, c: nat, events: seq<nat>, es: seq<Step>)
    requires Inv(s) && Running(s, c) && CanRun(s, [Register(c, events), Schedule(c)] + es)
    requires !AnyPositive(s.counts, events) && Undisturbed(es, At(s, s.cpus[c]), events)
    requires var h := s.threads[At(s, s.cpus[c])];
             !h.abort && (h.timeout == 0 || h.timeout > s.timer + Ticks(es))
    ensures NotCurrent(Run(s, [Register(c, events), Schedule(c)] + es), s.cpus[c])
  {
    hide WellPlaced, Next, Run, CanRun, AnyPositive;
    var e, k := Register(c, events), s.cpus[c];
    TwoSteps(s, e, Schedule(c), es);
    var s1 := Next(s, e);
    Changed(s, c, e);
    LeavesCpu(s1, c, k);
    TimerOf(s1, Schedule(c));
    StaysQuiet(s1, Schedule(c), events);
    WaitsOn(Next(s1, Schedule(c)), es, k);
  }

  /** event_array_await_timeout: the deadline given in the call counts, whatever an earlier wait left behind. */
  lemma TimedAwaitCall(s: State, c: nat, target: nat, events: seq<nat>, es: seq<Step>)
    requires Inv(s) && Running(s, c) && CanRun(s, [Deadline(c, target)] + ([Register(c, events), Schedule(c)] + es))
    requires !AnyPositive(s.counts, events) && Undisturbed(es, At(s, s.cpus[c]), events)
    requires !s.threads[At(s, s.cpus[c])].abort && target > s.timer + Ticks(es)
    ensures NotCurrent(Run(s, [Deadline(c, target)] + ([Register(c, events), Schedule(c)] + es)), s.cpus[c])
  {
    var e, rest := Deadline(c, target), [Register(c, events), Schedule(c)] + es;
    hide Next, CanRun, Run, AnyPositive, WellPlaced, Exclusive;
    OneStep(s, e, rest);
    StepKeeps(s, e);
    Changed(s, c, e);
    AwaitCall(Next(s, e), c, events, es);
  }

  lemma OneStep(s: State, e: Step, es: seq<Step>)
    requires WellPlaced(s) && CanRun(s, [e] + es)
    ensures Enabled(s, e) && WellPlaced(Next(s, e)) && CanRun(Next(s, e), es)
    ensures Run(s, [e] + es) == Run(Next(s, e), es)
  {
    hide WellPlaced, Next;
    assert ([e] + es)[1..] == es;
  }

  /** A waiting thread whose sleep is over is ready once its deadline is reached or it is aborted. */
  lemma DeadlineMakesReady(s: State, k: nat)
    requires WellPlaced(s) && k < s.total
    requires var h := s.threads[At(s, k)]; !h.locked && h.yieldTarget <= s.timer && h.waiting
    ensures 0 < s.threads[At(s, k)].timeout <= s.timer ==> Ready(s, k)
    ensures var r := Next(s, Abort(At(s, k))); WellPlaced(r) && Ready(r, k)
  {
    var r := Next(s, Abort(At(s, k)));
    assert WellPlaced(r) && r.threads[At(r, k)] == s.threads[At(s, k)].(abort := true) && r.timer == s.timer;
    hide WellPlaced, Ready, AnyPositive, Next;
    ReadyMeans(s, k);
    ReadyMeans(r, k);
  }

  /** A new thread is ready as soon as it has a slot. */
  lemma NewThreadIsReady(s: State)
    requires WellPlaced(s) && s.total < SLOTS && WellPlaced(Next(s, NewThread))
    ensures var r := Next(Next(s, NewThread), AddTask(|s.threads|));
            WellPlaced(r) && r.total == s.total + 1 && At(r, s.total) == |s.threads| && Ready(r, s.total)
  {
    var n := Next(s, NewThread);
    var r := Next(n, AddTask(|s.threads|));
    assert r.threads[|s.threads|] == FRESH.(taskID := s.total);
    assert WellPlaced(r) && At(r, s.total) == |s.threads|;
    hide WellPlaced, Ready, AnyPositive, Next;
    ReadyMeans(r, s.total);
  }

  /** A notification makes a waiting thread ready, if its sleep is over and the counter does not wrap. */
  lemma NotifyMakesReady(s: State, k: nat, v: nat)
    requires WellPlaced(s) && k < s.total && v < |s.counts| && s.counts[v] + 1 < COUNTS
    requires var h := s.threads[At(s, k)]; !h.locked && h.yieldTarget <= s.timer && h.waiting && v in h.events
    ensures WellPlaced(Next(s, Notify(v))) && Ready(Next(s, Notify(v)), k)
  {
    var r := Next(s, Notify(v));
    var h := s.threads[At(s, k)];
    assert WellPlaced(r) && r.threads[At(r, k)] == h && r.counts[v] > 0;
    var i :| 0 <= i < |h.events| && h.events[i] == v;
    assert AnyPositive(r.counts, h.events);
    hide WellPlaced, Ready;
    ReadyMeans(r, k);
  }

  // ----- the running scheduler -----

  /** The loop over a list of events, as `events_await` and the scan run it. */
  method ScanEvents(before: seq<nat>, events: seq<nat>) returns (counts: seq<nat>, out: seq<bool>, wake: bool)
    ensures (counts, out, wake) == Consume(before, events, [])
  {
    counts, out, wake := before, [], false;
    ghost var goal := Consume(before, events, []);
    for i := 0 to |events|
      invariant var rest := Consume(counts, events[i..], out);
        (rest.0, rest.1, wake || rest.2) == goal
    {
      var e := events[i];
      assert events[i..][1..] == events[i + 1..];
      if e < |counts| && counts[e] > 0 {
        wake := true;
        counts := counts[e := counts[e] - 1];
        out := out + [true];
      } else {
        out := out + [false];
      }
    }
  }

  class Kernel {
    var threads: seq<Thread>
    var active: seq<Slot>
    var total: nat
    var cpus: seq<int>
    var timer: nat
    var counts: seq<nat>

    ghost function Now(): State
      reads this
    {
      State(threads, active, total, cpus, timer, counts)
    }

    /** scheduler_init, before the first task is created. */
    constructor (cpuCount: nat, eventCount: nat)
      ensures Init(Now()) && Inv(Now()) && |cpus| == cpuCount && |counts| == eventCount
    {
      threads, total, timer := [], 0, 0;
      active := seq(SLOTS, _ => Empty);
      cpus := seq(cpuCount, _ => -1);
      counts := seq(eventCount, _ => 0);
    }

    method SetThread(t: nat, h: Thread)
      requires t < |threads|
      modifies this`threads
      ensures threads == old(threads)[t := h]
    {
      threads := threads[t := h];
    }

    /** One thread of the scan: its lock is tried, its events are consumed, and it is unlocked again if
        nothing woke it. */
    method TryTake(t: nat) returns (taken: bool)
      requires t < |threads|
      modifies this`threads, this`counts
      ensures taken == old(Eligible(threads[t], timer, counts))
      ensures var h := old(threads[t]);
              taken <==> && !h.locked && h.yieldTarget <= timer
                         && (!h.waiting || h.abort || AnyPositive(old(counts), h.events) || 0 < h.timeout <= timer)
      ensures threads == if taken then old(threads[t := Taken(threads[t], counts)]) else old(threads)
      ensures counts == if taken && old(threads[t].waiting && !threads[t].abort)
                        then old(Wakes(threads[t], counts).0) else old(counts)
    {
      var h := threads[t];
      ConsumeWakes(counts, h.events, []);
      if h.yieldTarget > timer || h.locked {
        return false;
      }
      h := h.(locked := true);
      if h.waiting && !h.abort {
        var wake;
        var c, out;
        c, out, wake := ScanEvents(counts, h.events);
        if h.timeout <= timer && h.timeout != 0 && !wake {
          h := h.(waiting := false, timeout := 0);
          wake := true;
        }
        if !wake {
          return false;
        }
        counts := c;
        h := h.(waiting := false, out := out);
      }
      SetThread(t, h);
      return true;
    }

    method TrySlot(k: nat) returns (taken: bool)
      requires WellPlaced(Now()) && k < total
      modifies this`threads, this`counts
      ensures taken == old(Ready(Now(), k))
      ensures Now() == if taken then old(Held(Now(), k)) else old(Now())
    {
      hide Eligible, Taken, Wakes;
      taken := TryTake(active[k].thread);
    }

    /** scheduler_get_next_task: the slot found, whose thread stays locked, or -1. It reads behind the table
        exactly if it starts behind the last slot; elsewhere it wraps in time, also in a full table. */
    method GetNextTask(currentTask: int) returns (r: int)
      requires WellPlaced(Now()) && -1 <= currentTask < total
      modifies this`threads, this`counts
      ensures r == OUT_OF_TABLE <==> currentTask + 1 == SLOTS
      ensures r != OUT_OF_TABLE ==> r == old(Pick(Now(), currentTask + 1, 0))
      ensures r < 0 ==> Now() == old(Now())
      ensures r >= 0 ==> Now() == old(Held(Now(), r))
      ensures r != OUT_OF_TABLE ==> Found(old(Now()), r)
    {
      hide Ready, Held, Pick, Turn, Found;
      ghost var s := Now();
      ghost var first := currentTask + 1;
      PickMeans(s, currentTask);
      PickEnds(s, first);
      var k := currentTask + 1;
      var i := 0;
      while i < total
        invariant 0 <= i <= total && 0 <= k <= total && Now() == s
        invariant (k == SLOTS <==> first == SLOTS) && (k == SLOTS ==> i == 0)
        invariant Pick(s, first, i) == Pick(s, first, 0)
        invariant i < total ==> Turn(first, i, total) == if k == total then 0 else k
      {
        PickStep(s, first, i);
        if k == SLOTS {
          return OUT_OF_TABLE;
        }
        if active[k] == Empty {
          k := 0;
          if active[k] == Empty {
            break;
          }
        }
        var taken := TrySlot(k);
        if taken {
          return k;
        }
        i := i + 1;
        k := k + 1;
        if k == SLOTS {
          k := 0;
        }
      }
      r := -1;
    }

    /** The lock of the thread that the CPU runs is freed. */
    method GiveUp(c: nat)
      requires WellPlaced(Now()) && c < |cpus|
      modifies this`threads
      ensures Now() == old(Unlock(Now(), c))
    {
      if cpus[c] != -1 {
        var t := active[cpus[c]].thread;
        SetThread(t, threads[t].(locked := false));
      }
    }

    /** scheduler_schedule on CPU `c`; the whole of it is one step of the system. `ok` is false if the scan
        would read behind the table, which it does exactly if the CPU runs the last slot. */
    method ScheduleOn(c: nat) returns (ok: bool)
      requires Inv(Now()) && c < |cpus|
      modifies this`threads, this`counts, this`cpus
      ensures ok <==> old(cpus[c] + 1 < SLOTS)
      ensures ok ==> Now() == old(Next(Now(), Schedule(c))) && Inv(Now())
      ensures ok ==> Found(old(Unlock(Now(), c)), cpus[c])
    {
      hide WellPlaced, Exclusive, Unlock, Held, Found, Pick, Next;
      ghost var s := Now();
      InRange(s, c);
      var current := cpus[c];
      GiveUp(c);
      ghost var u := Now();
      var next := GetNextTask(current);
      if next == OUT_OF_TABLE {
        return false;
      }
      SwitchIs(s, u, c, next, Now());
      ScheduleKeeps(s, c);
      cpus := cpus[c := next];
      ok := true;
    }

    /** scheduler_add_task: the first free slot, or -1 if there is no such thread, if it has a slot already,
        or if the table is full. */
    method Add(t: nat) returns (taskID: int)
      requires Inv(Now())
      modifies this`threads, this`active, this`total
      ensures Now() == old(Next(Now(), AddTask(t))) && Inv(Now())
      ensures taskID == -1 <==> Now() == old(Now())
      ensures taskID == -1 <==> old(t >= |threads| || threads[t].taskID != -1 || total == SLOTS)
      ensures taskID != -1 ==> 0 <= taskID < SLOTS && active[taskID] == Task(t) && threads[t].taskID == taskID
    {
      AddKeeps(Now(), t);
      if t >= |threads| || threads[t].taskID != -1 {
        return -1;
      }
      taskID := 0;
      while taskID < SLOTS
        invariant 0 <= taskID <= total && Now() == old(Now())
      {
        if active[taskID] == Empty {
          SetThread(t, threads[t].(taskID := taskID));
          active := active[taskID := Task(t)];
          total := total + 1;
          return;
        }
        taskID := taskID + 1;
      }
      return -1;
    }

    // The steps of event.c. A thread that calls them runs on CPU `c`.

    /** event_notify */
    method NotifyEvent(v: nat)
      requires Inv(Now()) && Enabled(Now(), Notify(v))
      modifies this`counts
      ensures Now() == old(Next(Now(), Notify(v))) && Inv(Now())
      ensures counts == old(counts)[v := (old(counts[v]) + 1) % 0x1_0000]
    {
      StepKeeps(Now(), Notify(v));
      counts := counts[v := (counts[v] + 1) % COUNTS];
    }

    /** event_reset: decrements until nothing is left. */
    method ResetEvent(v: nat)
      requires Inv(Now()) && Enabled(Now(), Reset(v))
      modifies this`counts
      ensures Now() == old(Next(Now(), Reset(v))) && Inv(Now())
      ensures counts == old(counts)[v := 0]
    {
      StepKeeps(Now(), Reset(v));
      while counts[v] > 0
        invariant |counts| == old(|counts|) && counts == old(counts)[v := counts[v]]
        decreases counts[v]
      {
        counts := counts[v := counts[v] - 1];
      }
    }

    /** events_await up to the point where the thread yields: it returns at once if an event has come. */
    method AwaitEvents(c: nat, events: seq<nat>) returns (wake: bool)
      requires Inv(Now()) && Running(Now(), c)
      modifies this`counts, this`threads
      ensures Inv(Now()) && wake == old(AnyPositive(counts, events))
      ensures wake ==> Now() == old(Next(Now(), FastPath(events)))
      ensures !wake ==> Now() == old(Next(Now(), Register(c, events)))
      ensures wake ==> threads == old(threads)
      ensures !wake ==>
                var t := active[cpus[c]].thread;
                counts == old(counts) && threads == old(threads[t := threads[t].(waiting := true, events := events)])
      ensures |counts| == old(|counts|)
      ensures forall e :: 0 <= e < |counts| ==>
                counts[e] == if old(counts[e]) > Listed(events, e) then old(counts[e]) - Listed(events, e) else 0
    {
      ConsumeLeaves(counts, events, []);
      ConsumeWakes(counts, events, []);
      StepKeeps(Now(), FastPath(events));
      StepKeeps(Now(), Register(c, events));
      hide Exclusive, Consume, AnyPositive;
      var out;
      counts, out, wake := ScanEvents(counts, events);
      if !wake {
        var t := active[cpus[c]].thread;
        SetThread(t, threads[t].(waiting := true, events := events));
      }
    }
  }
}
