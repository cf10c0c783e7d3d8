/** The byte pipe (kernel/fs/pipe/pipe.c): a buffer that grows and shrinks in steps, and a counting event. */
module Pipe {
  import opened ByteSeqs
  import opened Common
  import opened Memory

  const STEP := 32768          // PIPE_BUFFER_STEP

  datatype ReadResult = Data(bytes: seq<Byte>) | Blocked

  datatype Op = Write(data: seq<Byte>) | Read(n: nat)

  // ----- the queue it stands for -----

  /** A read of `n` bytes from a queue; `clamp` says that it does not wait for more bytes. */
  function Take(q: seq<Byte>, n: nat, clamp: bool): ReadResult {
    if n <= |q| then Data(q[..n]) else if clamp then Data(q) else Blocked
  }

  function Left(q: seq<Byte>, r: ReadResult): seq<Byte>
    requires r.Data? ==> |r.bytes| <= |q|
  {
    if r.Data? then q[|r.bytes|..] else q
  }

  /** What a read of `n` bytes owes its caller: it waits exactly if there are too few bytes and it may wait.
      Otherwise it takes the first bytes of the queue, `n` of them or all there are. */
  ghost predicate Serves(q: seq<Byte>, n: nat, clamp: bool, r: ReadResult, q': seq<Byte>) {
    && (r.Blocked? <==> |q| < n && !clamp)
    && (r.Blocked? ==> q' == q)
    && (r.Data? ==> r.bytes + q' == q && |r.bytes| <= n && (|r.bytes| < n ==> q' == []))
  }

  lemma TakeServes(q: seq<Byte>, n: nat, clamp: bool)
    ensures var r := Take(q, n, clamp); (r.Data? ==> |r.bytes| <= |q|) && Serves(q, n, clamp, r, Left(q, r))
  {
  }

  /** The answers and the queue after a run. */
  function Fifo(q: seq<Byte>, ops: seq<Op>, clamp: bool): (r: (seq<ReadResult>, seq<Byte>)) {
    if ops == [] then ([], q)
    else
      var before := Fifo(q, ops[..|ops| - 1], clamp);
      match ops[|ops| - 1]
      case Write(data) => (before.0, before.1 + data)
      case Read(n) =>
        var out := Take(before.1, n, clamp);
        (before.0 + [out], Left(before.1, out))
  }

  function BytesRead(rs: seq<ReadResult>): seq<Byte> {
    if rs == [] then []
    else BytesRead(rs[..|rs| - 1]) + if rs[|rs| - 1].Data? then rs[|rs| - 1].bytes else []
  }

  function BytesWritten(ops: seq<Op>): seq<Byte> {
    if ops == [] then []
    else BytesWritten(ops[..|ops| - 1]) + if ops[|ops| - 1].Write? then ops[|ops| - 1].data else []
  }

  /** What is read, followed by what is still queued, is what was queued followed by what is written. */
  lemma {:induction false} NothingLost(q: seq<Byte>, ops: seq<Op>, clamp: bool)
    ensures BytesRead(Fifo(q, ops, clamp).0) + Fifo(q, ops, clamp).1 == q + BytesWritten(ops)
    decreases |ops|
  {
    if ops != [] {
      var front := ops[..|ops| - 1];
      var before := Fifo(q, front, clamp);
      NothingLost(q, front, clamp);
      match ops[|ops| - 1]
      case Write(data) =>
        Regroup(BytesRead(before.0), before.1, data);
        Regroup(q, BytesWritten(front), data);
      case Read(n) =>
        var out := Take(before.1, n, clamp);
        var b := if out.Data? then out.bytes else [];
        assert (before.0 + [out])[..|before.0|] == before.0;
        assert b + Left(before.1, out) == before.1;
        Regroup(BytesRead(before.0), b, Left(before.1, out));
        assert BytesWritten(front) + [] == BytesWritten(front);
    }
  }

  /** Step `i` of a run is a read that is served from the queue at that point, and its answer is the next one. */
  ghost predicate ServedAt(q: seq<Byte>, ops: seq<Op>, clamp: bool, i: nat)
    requires i < |ops| && ops[i].Read?
  {
    var before, after := Fifo(q, ops[..i], clamp), Fifo(q, ops[..i + 1], clamp);
    var answers := Fifo(q, ops, clamp).0;
    && |before.0| < |answers| && answers[..|before.0|] == before.0
    && Serves(before.1, ops[i].n, clamp, answers[|before.0|], after.1)
  }

  /** Later steps do not change earlier answers. */
  lemma {:induction false} AnswersStay(q: seq<Byte>, ops: seq<Op>, clamp: bool, i: nat)
    requires i <= |ops|
    ensures Fifo(q, ops[..i], clamp).0 <= Fifo(q, ops, clamp).0
    decreases |ops|
  {
    if i < |ops| {
      var front := ops[..|ops| - 1];
      AnswersStay(q, front, clamp, i);
      assert front[..i] == ops[..i];
    } else {
      assert ops[..i] == ops;
    }
  }

  lemma EveryReadServed(q: seq<Byte>, ops: seq<Op>, clamp: bool, i: nat)
    requires i < |ops| && ops[i].Read?
    ensures ServedAt(q, ops, clamp, i)
  {
    var upTo := ops[..i + 1];
    assert upTo[..i] == ops[..i];
    var before, after := Fifo(q, ops[..i], clamp), Fifo(q, upTo, clamp);
    TakeServes(before.1, ops[i].n, clamp);
    AnswersStay(q, ops, clamp, i + 1);
    hide Fifo, Serves;
    assert after.0 == before.0 + [Take(before.1, ops[i].n, clamp)];
    var answers := Fifo(q, ops, clamp).0;
    assert answers[..|after.0|] == after.0;
  }

  /** Once the writer has closed the pipe, a reader that asks for enough gets every byte that was written. */
  lemma ClosedPipeDrains(ops: seq<Op>, n: nat)
    requires n >= |Fifo([], ops, true).1|
    ensures var r := Fifo([], ops + [Read(n)], true); BytesRead(r.0) == BytesWritten(ops) && r.1 == []
  {
    var all := ops + [Read(n)];
    assert all[..|ops|] == ops && all[..|ops| + 1] == all;
    assert BytesWritten(all) == BytesWritten(ops) + [];
    hide Fifo, BytesRead, BytesWritten;
    EveryReadServed([], all, true, |ops|);
    NothingLost([], all, true);
    var read, left := BytesRead(Fifo([], all, true).0), Fifo([], all, true).1;
    assert left == [];
    assert read + [] == read && [] + BytesWritten(all) == BytesWritten(ops);
  }

  lemma Regroup(a: seq<Byte>, b: seq<Byte>, c: seq<Byte>)
    ensures a + b + c == a + (b + c)
  {
  }

  /** On a new pipe, the bytes read are a prefix of the bytes written. */
  lemma ReadsArePrefix(ops: seq<Op>, clamp: bool)
    ensures BytesRead(Fifo([], ops, clamp).0) <= BytesWritten(ops)
  {
    NothingLost([], ops, clamp);
    assert [] + BytesWritten(ops) == BytesWritten(ops);
  }

  /** ROUND_UP(n, PIPE_BUFFER_STEP), for sizes of buffers that exist, far below the wrap. */
  function Rounded(n: nat): nat { (n + STEP - 1) / STEP * STEP }

  lemma RoundUpStep(n: nat)
    ensures n <= Rounded(n) < n + STEP && Rounded(n) % STEP == 0
    ensures Rounded(n) == 0 <==> n == 0
  {
  }

  lemma RoundUpGrows(m: nat, n: nat)
    requires m <= n
    ensures Rounded(m) <= Rounded(n)
  {
  }

  /** krealloc of the buffer: the leading bytes are kept, and there is no buffer of zero bytes. */
  method Realloc(buffer: array?<Byte>, capacity: nat) returns (r: array?<Byte>)
    requires buffer != null || capacity > 0
    ensures capacity == 0 <==> r == null
    ensures r != null ==> fresh(r) && r.Length == capacity
    ensures r != null && buffer != null ==>
              forall k :: 0 <= k < capacity && k < buffer.Length ==> r[k] == buffer[k]
  {
    if capacity == 0 {
      return null;
    }
    var b := new Byte[capacity](_ => 0);
    if buffer != null {
      for i := 0 to if buffer.Length < capacity then buffer.Length else capacity
        invariant fresh(b) && forall k :: 0 <= k < i ==> b[k] == buffer[k]
      {
        b[i] := buffer[i];
      }
    }
    return b;
  }

  class Queue {
    var buffer: array?<Byte>
    var size: nat
    var event: nat
    var references: nat
    var nonblock: bool
    var pollIn: bool

    /** The capacity is the size rounded up to the step, and there is a buffer exactly if there are bytes. */
    ghost predicate Valid()
      reads this
    {
      && (buffer == null <==> size == 0)
      && (buffer != null ==> buffer.Length == Rounded(size) >= size)
      && event < COUNTS
    }

    ghost function Stored(): seq<Byte>
      reads this, buffer
      requires Valid()
    {
      if buffer == null then [] else buffer[..size]
    }

    /** pipe_create */
    constructor ()
      ensures Valid() && Stored() == [] && references == 2 && event == 0 && !nonblock
    {
      buffer, size, event, references, nonblock, pollIn := null, 0, 0, 2, false, false;
    }

    /** pipe_write */
    method Write(data: seq<Byte>) returns (n: nat)
      requires Valid()
      modifies this, buffer
      ensures Valid() && (buffer == old(buffer) || buffer == null || fresh(buffer))
      ensures Stored() == old(Stored()) + data && n == |data| && pollIn
      ensures event == (old(event) + 1) % COUNTS && references == old(references) && nonblock == old(nonblock)
    {
      var steps := Rounded(size);
      var newSize := size + |data|;
      var newSteps := Rounded(newSize);
      RoundUpStep(size);
      RoundUpStep(newSize);
      RoundUpGrows(size, newSize);
      ghost var was := Stored();
      if newSteps > steps {
        buffer := Realloc(buffer, newSteps);
      }
      assert buffer != null ==> buffer[..size] == was;
      if buffer != null {
        Memcpy(buffer, size, data);
        assert buffer[..newSize] == was + data;
      }
      size := newSize;
      pollIn := true;
      event := (event + 1) % COUNTS;
      return |data|;
    }

    /** The part of pipe_read after the wait: `n` bytes are there. */
    method ReadNow(n: nat) returns (bytes: seq<Byte>)
      requires Valid() && n <= size
      modifies this, buffer
      ensures Valid() && (buffer == old(buffer) || buffer == null || fresh(buffer))
      ensures bytes == old(Stored())[..n] && Stored() == old(Stored())[n..]
      ensures event == 0 && references == old(references) && nonblock == old(nonblock)
      ensures pollIn == (old(pollIn) && Stored() != [])
    {
      event := 0;
      var steps := Rounded(size);
      var newSize := size - n;
      var newSteps := Rounded(newSize);
      RoundUpStep(size);
      RoundUpStep(newSize);
      RoundUpGrows(newSize, size);
      ghost var was := Stored();
      if buffer == null {
        bytes := [];
      } else {
        bytes := buffer[..n];
        Memmove(buffer, 0, n, newSize);
        assert buffer[..newSize] == was[n..];
      }
      if newSteps < steps {
        buffer := Realloc(buffer, newSteps);
        assert buffer != null ==> buffer[..newSize] == was[n..];
      }
      size := newSize;
      if newSize == 0 {
        pollIn := false;
      }
    }

    /** pipe_read up to the point where it would wait. */
    method TryRead(n: nat) returns (r: ReadResult)
      requires Valid()
      modifies this, buffer
      ensures Valid() && (buffer == old(buffer) || buffer == null || fresh(buffer))
      ensures references == old(references) && nonblock == old(nonblock)
      ensures r == Take(old(Stored()), n, old(nonblock || references == 1)) && Stored() == Left(old(Stored()), r)
      ensures Serves(old(Stored()), n, old(nonblock || references == 1), r, Stored())
      ensures event == if r.Data? then 0 else old(event)
    {
      TakeServes(Stored(), n, nonblock || references == 1);
      var wanted := n;
      if wanted > size {
        if !nonblock && references != 1 {
          return Blocked;
        }
        wanted := size;
      }
      var bytes := ReadNow(wanted);
      return Data(bytes);
    }

    /** The pipe is the queue: any run of reads and writes gives what the queue gives. */
    method Perform(ops: seq<Op>) returns (rs: seq<ReadResult>)
      requires Valid()
      modifies this, buffer
      ensures Valid()
      ensures (rs, Stored()) == Fifo(old(Stored()), ops, old(nonblock || references == 1))
      ensures forall i :: 0 <= i < |ops| && ops[i].Read? ==>
                ServedAt(old(Stored()), ops, old(nonblock || references == 1), i)
    {
      rs := [];
      ghost var q, clamp := Stored(), nonblock || references == 1;
      for i := 0 to |ops|
        invariant Valid() && clamp == (nonblock || references == 1)
        invariant buffer == old(buffer) || buffer == null || fresh(buffer)
        invariant (rs, Stored()) == Fifo(q, ops[..i], clamp)
      {
        hide Queue.Valid, Queue.Stored, Take;
        assert ops[..i + 1][..i] == ops[..i];
        match ops[i]
        case Write(data) =>
          var _ := Write(data);
        case Read(n) =>
          var r := TryRead(n);
          rs := rs + [r];
      }
      assert ops[..|ops|] == ops;
      forall i | 0 <= i < |ops| && ops[i].Read? ensures ServedAt(q, ops, clamp, i) {
        EveryReadServed(q, ops, clamp, i);
      }
    }
  }
}
