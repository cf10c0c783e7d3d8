/** Blocking pipe reads: one reader, any writers, and the event that connects them (kernel/fs/pipe/pipe.c,
    kernel/tasking/event.c, kernel/tasking/scheduler.c), as a system of small steps. */
module Wakeup {
  import opened Common
  import Pipe
  import opened ByteSeqs

  /** Where the reader is. `Locked` holds the pipe lock before the test of the size; `Unlocked` found too few
      bytes and is about to poll the event; `Polled` found the event zero; `Waiting` has set its
      `event_pointer` and sleeps; `Woken` is about to take the lock again. */
  datatype Reader = Idle | Locked(n: nat) | Unlocked(n: nat) | Polled(n: nat) | Waiting(n: nat) | Woken(n: nat)

  /** A writer (or a closing peer) in `Stored` holds the lock, has changed the pipe and has not notified yet. */
  datatype Writer = Free | Stored

  /** `notes` counts the notifications since the last reset that no one has consumed; `event` is the word. */
  datatype State = State(size: nat, references: nat, nonblock: bool, event: nat, notes: nat, reader: Reader,
                         writer: Writer)

  datatype Step = Call(n: nat) | Check | Poll | Register | Wake | Relock | Store(n: nat) | Close | Notify

  predicate Clamps(s: State) { s.nonblock || s.references == 1 }

  /** A read of `n` bytes need not wait. */
  predicate Available(s: State, n: nat) { n <= s.size || Clamps(s) }

  predicate Enabled(s: State, e: Step) {
    match e
    case Call(_) => s.reader.Idle? && s.writer.Free?
    case Check => s.reader.Locked?
    case Poll => s.reader.Unlocked?
    case Register => s.reader.Polled?
    case Wake => s.reader.Waiting? && s.event > 0
    case Relock => s.reader.Woken? && s.writer.Free?
    case Store(_) => !s.reader.Locked? && s.writer.Free?
    case Close => !s.reader.Locked? && s.writer.Free? && s.references > 1
    case Notify => s.writer.Stored?
  }

  function Next(s: State, e: Step): State
    requires Enabled(s, e)
  {
    match e
    case Call(n) => s.(reader := Locked(n))
    case Check =>
      var n := s.reader.n;
      if Available(s, n)
      then s.(size := if n <= s.size then s.size - n else 0, event := 0, notes := 0, reader := Idle)
      else s.(reader := Unlocked(n))
    case Poll =>
      if s.event > 0 then Consumed(s).(reader := Woken(s.reader.n)) else s.(reader := Polled(s.reader.n))
    case Register => s.(reader := Waiting(s.reader.n))
    case Wake => Consumed(s).(reader := Woken(s.reader.n))
    case Relock => s.(reader := Locked(s.reader.n))
    case Store(n) => s.(size := s.size + n, writer := Stored)
    case Close => s.(references := s.references - 1, writer := Stored)
    case Notify => s.(event := (s.event + 1) % COUNTS, notes := s.notes + 1, writer := Free)
  }

  function Consumed(s: State): State
  {
    s.(event := if s.event > 0 then s.event - 1 else COUNTS - 1, notes := if s.notes > 0 then s.notes - 1 else 0)
  }

  predicate Init(s: State) {
    s.size == 0 && s.references == 2 && s.event == 0 && s.notes == 0 && s.reader.Idle? && s.writer.Free?
  }

  /** The reader has found too few bytes and has not been woken since. */
  predicate Asleep(r: Reader) { r.Unlocked? || r.Polled? || r.Waiting? }

  predicate Inv(s: State) {
    && s.event == s.notes % COUNTS && s.references > 0
    && (s.reader.Locked? ==> s.writer.Free?)
    && (Asleep(s.reader) && s.writer.Free? && Available(s, s.reader.n) ==> s.notes > 0)
  }

  lemma CountStep(notes: nat)
    ensures (notes % COUNTS + 1) % COUNTS == (notes + 1) % COUNTS
    ensures notes % COUNTS > 0 ==> notes > 0 && (notes - 1) % COUNTS == notes % COUNTS - 1
  {
  }

  lemma StepKeeps(s: State, e: Step)
    requires Inv(s) && Enabled(s, e)
    ensures Inv(Next(s, e))
  {
    CountStep(s.notes);
  }

  // ----- runs -----

  predicate CanRun(s: State, es: seq<Step>)
    decreases |es|
  {
    es == [] || (Enabled(s, es[0]) && CanRun(Next(s, es[0]), es[1..]))
  }

  function Run(s: State, es: seq<Step>): State
    requires CanRun(s, es)
    decreases |es|
  {
    if es == [] then s else Run(Next(s, es[0]), es[1..])
  }

  lemma RunCons(s: State, e: Step, es: seq<Step>)
    requires Enabled(s, e) && CanRun(Next(s, e), es)
    ensures CanRun(s, [e] + es) && Run(s, [e] + es) == Run(Next(s, e), es)
  {
    assert ([e] + es)[1..] == es;
  }

  lemma {:induction false} RunKeeps(s: State, es: seq<Step>)
    requires Inv(s) && CanRun(s, es)
    ensures Inv(Run(s, es))
    decreases |es|
  {
    if es != [] {
      StepKeeps(s, es[0]);
      RunKeeps(Next(s, es[0]), es[1..]);
    }
  }

  /** No lost wakeup, with the exact condition: whenever the bytes a sleeping reader asked for are there and
      no writer is between storing and notifying, notifications are pending, and the event is positive unless
      their number is a multiple of 2^16. */
  lemma NoLostWakeup(s: State, es: seq<Step>)
    requires Init(s) && CanRun(s, es)
    ensures var r := Run(s, es);
      Asleep(r.reader) && r.writer.Free? && Available(r, r.reader.n) ==>
        r.notes > 0 && (r.event > 0 <==> r.notes % COUNTS != 0)
  {
    RunKeeps(s, es);
  }

  /** Then the reader needs only its own steps to finish, and takes what it asked for. */
  lemma SleeperFinishes(s: State, es: seq<Step>)
    requires Init(s) && CanRun(s, es)
    requires var r := Run(s, es);
      r.reader.Waiting? && r.writer.Free? && Available(r, r.reader.n) && r.notes < COUNTS
    ensures var r := Run(s, es);
      && CanRun(r, [Wake, Relock, Check])
      && var d := Run(r, [Wake, Relock, Check]);
      d.reader.Idle? && d.size == (if r.reader.n <= r.size then r.size - r.reader.n else 0)
  {
    RunKeeps(s, es);
    var r := Run(s, es);
    assert r.notes % COUNTS == r.notes;
    var steps := [Wake, Relock, Check];
    assert steps[1..] == [Relock, Check] && [Relock, Check][1..] == [Check] && [Check][1..] == [];
  }

  /** The test of the size is that of the pipe: on a pipe with the bytes `q` the reader goes on exactly if the
      read does not wait, and takes as many bytes. */
  lemma CheckIsRead(s: State, q: seq<Byte>)
    requires s.reader.Locked? && |q| == s.size
    ensures var n, r := s.reader.n, Next(s, Check);
      && (r.reader == Unlocked(n) <==> s.size < n && !s.nonblock && s.references != 1)
      && (r.reader == Idle <==> Pipe.Take(q, n, s.nonblock || s.references == 1).Data?)
      && Pipe.Serves(q, n, s.nonblock || s.references == 1, Pipe.Take(q, n, s.nonblock || s.references == 1),
                     Pipe.Left(q, Pipe.Take(q, n, s.nonblock || s.references == 1)))
      && r.size == |Pipe.Left(q, Pipe.Take(q, n, s.nonblock || s.references == 1))|
  {
    Pipe.TakeServes(q, s.reader.n, s.nonblock || s.references == 1);
  }

  /** A reader that waits when its last peer closes is woken and finishes with what is there. */
  lemma CloseWakes(s: State, es: seq<Step>)
    requires Init(s) && CanRun(s, es)
    requires var r := Run(s, es);
      r.reader.Waiting? && r.writer.Free? && r.references == 2 && r.notes + 1 < COUNTS && r.size < r.reader.n
    ensures var r, steps := Run(s, es), [Close] + ([Notify] + ([Wake] + ([Relock] + ([Check] + []))));
      CanRun(r, steps) && Run(r, steps).reader.Idle? && Run(r, steps).size == 0
  {
    RunKeeps(s, es);
    CloseSteps(Run(s, es));
  }

  lemma CloseSteps(r: State)
    requires Inv(r)
    requires r.reader.Waiting? && r.writer.Free? && r.references == 2 && r.notes + 1 < COUNTS && r.size < r.reader.n
    ensures var steps := [Close] + ([Notify] + ([Wake] + ([Relock] + ([Check] + []))));
      CanRun(r, steps) && Run(r, steps).reader.Idle? && Run(r, steps).size == 0
  {
    CountStep(r.notes);
    var r1 := Next(r, Close);
    var r2 := Next(r1, Notify);
    assert r2.event == (r.notes + 1) % COUNTS == r.notes + 1;
    var r3 := Next(r2, Wake);
    var r4 := Next(r3, Relock);
    var r5 := Next(r4, Check);
    assert r5.reader.Idle? && r5.size == 0 && CanRun(r5, []) && Run(r5, []) == r5;
    hide CanRun, Run, Inv, Next;
    RunCons(r4, Check, []);
    RunCons(r3, Relock, [Check] + []);
    RunCons(r2, Wake, [Relock] + ([Check] + []));
    RunCons(r1, Notify, [Wake] + ([Relock] + ([Check] + [])));
    RunCons(r, Close, [Notify] + ([Wake] + ([Relock] + ([Check] + []))));
  }

  // ----- the wrap -----

  /** `k` writes of one byte. */
  function Writes(k: nat): seq<Step> { if k == 0 then [] else [Store(1), Notify] + Writes(k - 1) }

  lemma {:induction false} WritesWhileWaiting(s: State, k: nat)
    requires s.reader.Waiting? && s.writer.Free? && s.event == s.notes % COUNTS
    ensures CanRun(s, Writes(k))
    ensures Run(s, Writes(k)) == s.(size := s.size + k, notes := s.notes + k, event := (s.notes + k) % COUNTS)
    decreases k
  {
    if k > 0 {
      var a := Next(s, Store(1));
      var b := Next(a, Notify);
      CountStep(s.notes);
      WritesWhileWaiting(b, k - 1);
      var es := Writes(k);
      assert es[1..] == [Notify] + Writes(k - 1) && es[1..][1..] == Writes(k - 1);
    }
  }

  /** The condition is needed: after 65536 one-byte writes to a reader that waits for 65536 bytes, all its
      bytes are there and the event is zero again, so nothing wakes it. */
  lemma WrapLosesWakeup(s: State)
    requires Init(s) && !s.nonblock
    ensures var es := [Call(COUNTS)] + ([Check] + ([Poll] + ([Register] + Writes(COUNTS))));
      && CanRun(s, es)
      && var r := Run(s, es);
      r.reader == Waiting(COUNTS) && r.writer.Free? && r.size == COUNTS && r.event == 0 && !Enabled(r, Wake)
  {
    hide Run, CanRun, Writes;
    var w := Writes(COUNTS);
    var s1 := Next(s, Call(COUNTS));
    var s2 := Next(s1, Check);
    var s3 := Next(s2, Poll);
    var s4 := Next(s3, Register);
    WritesWhileWaiting(s4, COUNTS);
    RunCons(s3, Register, w);
    RunCons(s2, Poll, [Register] + w);
    RunCons(s1, Check, [Poll] + ([Register] + w));
    RunCons(s, Call(COUNTS), [Check] + ([Poll] + ([Register] + w)));
  }
}
