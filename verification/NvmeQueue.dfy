/** A submission and completion queue pair of kernel/devices/nvme.c, with the
    controller's side of the protocol (section 4.6 of NVM Express 1.4). */
module NvmeQueue {
  import opened Bits

  datatype Command = Command(id: nat, op: nat)

  /** The 16-bit status field of a completion entry: bit 0 is the phase tag, the rest the status. */
  type StatusWord = w: nat | w < 0x1_0000
  type Status = s: nat | s < 0x8000

  datatype Completion = Completion(word: StatusWord, id: nat)

  /** The phase tag of completion number `n` on a queue of the given size: 1 on the first lap. */
  function PhaseOf(n: nat, size: nat): nat
    requires size > 0
  {
    1 - n / size % 2
  }

  /** The ring position after `i`. */
  function Next(i: nat, size: nat): nat { if i + 1 == size then 0 else i + 1 }

  lemma NextPosition(n: nat, size: nat)
    requires size > 0
    ensures (n + 1) % size == Next(n % size, size)
    ensures PhaseOf(n + 1, size) == if n % size + 1 == size then 1 - PhaseOf(n, size) else PhaseOf(n, size)
  {
    var q, r := n / size, n % size;
    assert n == q * size + r;
    if r + 1 == size {
      assert (q + 1) * size == q * size + size;
      Quotient(n + 1, q + 1, 0, size);
    } else {
      Quotient(n + 1, q, r + 1, size);
    }
  }

  class QueuePair {
    const size: nat
    const commands: array<Command>
    const results: array<Completion>
    // the driver's registers
    var sqTail: nat
    var cqHead: nat
    var cqPhase: nat
    var commandId: nat
    // doorbells, and the controller's registers
    var sqDoorbell: nat
    var cqDoorbell: nat
    var deviceHead: nat
    var deviceTail: nat
    var devicePhase: nat
    ghost var completed: nat  // commands completed so far
    ghost var executed: seq<Command>  // what the controller has executed, in order

    ghost predicate InRange()
      reads this
    {
      && 2 <= size == commands.Length == results.Length
      && sqTail < size && cqHead < size && cqPhase < 2
      && deviceHead < size && deviceTail < size && devicePhase < 2
    }

    /** Driver and controller agree: positions and phase are those of `completed`, and exactly the entries
        before the head carry the tag of this lap. */
    ghost predicate Synced()
      reads this, results
    {
      && InRange()
      && sqTail == sqDoorbell == deviceHead == completed % size
      && cqHead == cqDoorbell == deviceTail == completed % size
      && cqPhase == devicePhase == PhaseOf(completed, size)
      && forall j :: 0 <= j < size ==> (results[j].word % 2 == cqPhase <==> j < cqHead)
    }

    /** The entry at the head is a failed completion that was already returned to a caller. */
    ghost predicate Stuck()
      reads this, results
    {
      InRange() && results[cqHead].word % 2 == cqPhase && results[cqHead].word / 2 != 0
    }

    /** `nvme_initialize_queue`: kmalloc returns zeroed pages. */
    constructor (slots: nat)
      requires slots >= 2
      ensures Synced() && size == slots && completed == 0 && executed == []
      ensures fresh(commands) && fresh(results)
    {
      size := slots;
      commands := new Command[slots](i => Command(0, 0));
      results := new Completion[slots](i => Completion(0, 0));
      sqTail, cqHead, cqPhase, commandId := 0, 0, 1, 0;
      sqDoorbell, cqDoorbell, deviceHead, deviceTail, devicePhase := 0, 0, 0, 0, 1;
      completed, executed := 0, [];
      new;
      Quotient(0, 0, 0, size);
    }

    /** The controller executes the command at its head and posts a completion. */
    method Execute(status: Status)
      requires InRange() && deviceHead != sqDoorbell
      modifies this`deviceHead, this`deviceTail, this`devicePhase, this`executed, results
      ensures InRange() && executed == old(executed) + [commands[old(deviceHead)]]
      ensures results[old(deviceTail)] == Completion(2 * status + old(devicePhase), old(commands[deviceHead]).id)
      ensures forall j :: 0 <= j < size && j != old(deviceTail) ==> results[j] == old(results[j])
      ensures deviceHead == Next(old(deviceHead), size)
      ensures deviceTail == Next(old(deviceTail), size)
      ensures devicePhase == if old(deviceTail) + 1 == size then 1 - old(devicePhase) else old(devicePhase)
    {
      results[deviceTail] := Completion(2 * status + devicePhase, commands[deviceHead].id);
      executed := executed + [commands[deviceHead]];
      deviceHead := Next(deviceHead, size);
      deviceTail := deviceTail + 1;
      if deviceTail == size { deviceTail, devicePhase := 0, 1 - devicePhase; }
    }

    /** `nvme_send_command`. */
    method SendCommand(command: Command)
      requires InRange()
      modifies this`sqTail, this`sqDoorbell, commands
      ensures InRange() && commands[..] == old(commands[..])[old(sqTail) := command]
      ensures sqTail == sqDoorbell == Next(old(sqTail), size)
    {
      var tail := sqTail;
      commands[tail] := command;
      tail := tail + 1;
      if tail == size { tail := 0; }
      sqDoorbell := tail;
      sqTail := tail;
    }

    /** The polling loop: it ends when the entry at the head carries the expected tag. The controller executes
        the pending command after `delay` polls. */
    method Poll(status: Status, delay: nat) returns (polls: nat)
      requires InRange()
      requires results[cqHead].word % 2 != cqPhase ==>
                 deviceHead != sqDoorbell && deviceTail == cqHead && devicePhase == cqPhase
      modifies this`deviceHead, this`deviceTail, this`devicePhase, this`executed, results
      ensures InRange() && results[cqHead].word % 2 == cqPhase
      ensures old(results[cqHead].word % 2) == cqPhase ==>
                polls == 0 && results[cqHead] == old(results[cqHead]) && executed == old(executed)
      ensures old(results[cqHead].word % 2) != cqPhase ==>
                && polls == delay && executed == old(executed) + [commands[old(deviceHead)]]
                && results[cqHead] == Completion(2 * status + cqPhase, commands[old(deviceHead)].id)
                && deviceHead == Next(old(deviceHead), size) && deviceTail == Next(cqHead, size)
                && devicePhase == if cqHead + 1 == size then 1 - cqPhase else cqPhase
      ensures forall j :: 0 <= j < size && j != cqHead ==> results[j] == old(results[j])
    {
      polls := 0;
      ghost var done := false;
      while results[cqHead].word % 2 != cqPhase
        invariant InRange() && polls <= delay
        invariant !done ==>
                    && deviceHead == old(deviceHead) && deviceTail == old(deviceTail) && devicePhase == old(devicePhase)
                    && executed == old(executed)
                    && forall j :: 0 <= j < size ==> results[j] == old(results[j])
        invariant old(results[cqHead].word % 2) == cqPhase ==> polls == 0 && !done
        invariant done ==>
                    && polls == delay && executed == old(executed) + [commands[old(deviceHead)]]
                    && results[cqHead] == Completion(2 * status + cqPhase, commands[old(deviceHead)].id)
                    && deviceHead == Next(old(deviceHead), size) && deviceTail == Next(cqHead, size)
                    && devicePhase == (if cqHead + 1 == size then 1 - cqPhase else cqPhase)
                    && forall j :: 0 <= j < size && j != cqHead ==> results[j] == old(results[j])
        decreases delay - polls, !done
      {
        if polls < delay {
          polls := polls + 1;
        } else {
          Execute(status);
          done := true;
        }
      }
    }

    /** `nvme_send_command_and_wait`. On a synced queue the driver waits for the controller, accepts the
        completion of this very command, and a success moves both sides on by one; a failure leaves the
        head where it is. On a stuck queue the call returns at once with the status of the earlier failure,
        whatever becomes of its own command. */
    method SendCommandAndWait(op: nat, status: Status, delay: nat) returns (r: Status, id: nat, polls: nat)
      requires Synced() || Stuck()
      modifies this, commands, results
      ensures commands[..] == old(commands[..])[old(sqTail) := Command(old(commandId) % 0x1_0000, op)]
      ensures old(Synced()) ==> r == status && id == old(commandId) % 0x1_0000 && polls == delay
      ensures executed == old(executed) + if old(Synced()) then [Command(old(commandId) % 0x1_0000, op)] else []
      ensures old(Synced()) && status == 0 ==> Synced() && completed == old(completed) + 1
      ensures old(Synced()) && status != 0 ==> Stuck() && completed == old(completed)
      ensures old(Stuck()) ==> Stuck() && r == old(results[cqHead].word / 2) && polls == 0
      ensures commandId == (old(commandId) + 1) % 0x1_0000_0000
    {
      hide PhaseOf;
      var command := Command(commandId % 0x1_0000, op);
      commandId := (commandId + 1) % 0x1_0000_0000;
      SendCommand(command);
      polls := Poll(status, delay);
      id := results[cqHead].id;
      r := results[cqHead].word / 2;
      if r != 0 { return; }
      Accept();
    }

    /** The end of that call: the entry at the head is accepted, and the controller is told. */
    method Accept()
      requires InRange()
      modifies this`cqHead, this`cqPhase, this`cqDoorbell, this`completed
      ensures InRange() && cqHead == cqDoorbell == Next(old(cqHead), size) && completed == old(completed) + 1
      ensures cqPhase == if old(cqHead) + 1 == size then 1 - old(cqPhase) else old(cqPhase)
      ensures completed % size == Next(old(completed) % size, size)
      ensures var phase := PhaseOf(old(completed), size);
              PhaseOf(completed, size) == if old(completed) % size + 1 == size then 1 - phase else phase
    {
      hide PhaseOf;
      NextPosition(completed, size);
      var head := cqHead + 1;
      if head == size {
        head := 0;
        cqPhase := 1 - cqPhase;
      }
      cqDoorbell := head;
      cqHead := head;
      completed := completed + 1;
    }

    /** Any number of commands, up to the first that fails: each waits for its own completion, and after
        `n` of them tail and head are `n % size` and the expected phase has flipped once per lap. */
    method SendAll(ops: seq<nat>, statuses: seq<Status>, delays: seq<nat>) returns (n: nat)
      requires |ops| == |statuses| == |delays| && Synced() && completed == 0
      modifies this, commands, results
      ensures n <= |ops| && forall i :: 0 <= i < n ==> statuses[i] == 0
      ensures n < |ops| ==> statuses[n] != 0 && Stuck()
      ensures n == |ops| ==> Synced() && sqTail == cqHead == n % size && cqPhase == PhaseOf(n, size)
      ensures |executed| == |old(executed)| + (if n < |ops| then n + 1 else n)
      ensures executed[..|old(executed)|] == old(executed)
      ensures forall i :: 0 <= i <= n && i < |ops| ==> executed[|old(executed)| + i].op == ops[i]
    {
      n := 0;
      while n < |ops|
        invariant n <= |ops| && Synced() && completed == n
        invariant forall i :: 0 <= i < n ==> statuses[i] == 0
        invariant |executed| == |old(executed)| + n && executed[..|old(executed)|] == old(executed)
        invariant forall i :: 0 <= i < n ==> executed[|old(executed)| + i].op == ops[i]
      {
        var r, id, polls := SendCommandAndWait(ops[n], statuses[n], delays[n]);
        if r != 0 { return; }
        n := n + 1;
      }
    }
  }
}
