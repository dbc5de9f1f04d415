/** The process manager of kernel/process.c.  Its calls change the table in place as the steps of
    the transition system say.  context_switch is the hand-over of the current pid: a process inside
    process_wait goes on with Resume when it becomes the current one. */
module ProcessManager {
  import opened Bits
  import opened ProcessTable

  class Manager {
    const table: array<Process>
    var currentPid: u32
    var nextPid: u32
    var schedulerEnabled: bool
    ghost var exits: map<nat, int>

    ghost function Abs(): State
      requires table.Length == MAX_PROCESSES
      reads this, table
    {
      State(table[..], currentPid, nextPid, schedulerEnabled, exits)
    }

    ghost predicate Valid()
      reads this, table
    {
      table.Length == MAX_PROCESSES && Inv(Abs())
    }

    /** process_init */
    constructor ()
      ensures Valid() && fresh(table) && Abs() == Init()
    {
      table := new Process[MAX_PROCESSES](i => NO_PROCESS);
      currentPid, nextPid, schedulerEnabled, exits := 0, 1, false, map[];
      new;
      table[0] := Process(0, Running, 0, 0, Idle);
      assert table[..] == Init().table;
      InitInv();
    }

    method FindFreeSlot() returns (i: nat)
      requires table.Length == MAX_PROCESSES
      ensures i == FreeFrom(table[..], 0)
    {
      i := 0;
      while i < MAX_PROCESSES && table[i].status != Free
        invariant i <= MAX_PROCESSES && FreeFrom(table[..], 0) == FreeFrom(table[..], i)
      {
        i := i + 1;
      }
    }

    method FindProcess(pid: nat) returns (i: nat)
      requires table.Length == MAX_PROCESSES
      ensures i == SlotOf(table[..], pid)
    {
      i := 0;
      while i < MAX_PROCESSES && !(table[i].pid == pid && table[i].status != Free)
        invariant i <= MAX_PROCESSES && SlotOf(table[..], pid) == SlotFrom(table[..], pid, i)
      {
        i := i + 1;
      }
    }

    /** The next ready slot, or the current one if it is running and no other is ready. */
    method FindNextReady() returns (r: nat)
      requires table.Length == MAX_PROCESSES
      ensures r == if Pick(table[..], currentPid) < MAX_PROCESSES then Pick(table[..], currentPid)
                   else if RunningAt(table[..], SlotOf(table[..], currentPid)) then SlotOf(table[..], currentPid)
                   else MAX_PROCESSES
    {
      hide SlotFrom;
      var k := 0;
      while k < MAX_PROCESSES
        invariant k <= MAX_PROCESSES && Pick(table[..], currentPid) == PickFrom(table[..], currentPid, k)
      {
        var idx := (currentPid + 1 + k) % MAX_PROCESSES;
        if table[idx].status == Ready { return idx; }
        k := k + 1;
      }
      var c := FindProcess(currentPid);
      if c < MAX_PROCESSES && table[c].status == Running { return c; }
      r := MAX_PROCESSES;
    }

    /** process_yield */
    method Yield()
      requires Valid()
      modifies this`currentPid, table
      ensures Valid()
      ensures Abs() == ProcessTable.Yield(old(Abs()))
      ensures var c, r := old(SlotOf(table[..], currentPid)), old(Pick(table[..], currentPid));
        && (!old(schedulerEnabled) || r == MAX_PROCESSES || r == c ==>
              table[..] == old(table[..]) && currentPid == old(currentPid))
        && (old(schedulerEnabled) && r != MAX_PROCESSES && r != c ==>
              && currentPid as nat == old(table[..])[r].pid && table[r] == old(table[..])[r].(status := Running)
              && (c < MAX_PROCESSES && old(table[..])[c].status == Running ==>
                    table[c] == old(table[..])[c].(status := Ready))
              && (forall i :: 0 <= i < MAX_PROCESSES && i != r && (i != c || old(table[..])[c].status != Running) ==>
                    table[i] == old(table[..])[i]))
    {
      hide SlotFrom, PickFrom, Inv;
      YieldInv(Abs());
      if !schedulerEnabled { return; }
      var current := FindProcess(currentPid);
      var next := FindNextReady();
      if next == MAX_PROCESSES || next == current { return; }
      PickBound(Abs(), next);
      ghost var t := table[..];
      if current < MAX_PROCESSES && table[current].status == Running {
        table[current] := table[current].(status := Ready);
      }
      assert table[..] == SwitchedOut(t, current);
      table[next] := table[next].(status := Running);
      assert table[..] == Mark(SwitchedOut(t, current), next, Running);
      currentPid := table[next].pid;
    }

    /** process_create; `stack` says whether kmalloc has a stack to give. */
    method Create(stack: bool) returns (pid: int)
      requires Valid() && nextPid < WORD - 1
      modifies this`nextPid, this`schedulerEnabled, table
      ensures Valid()
      ensures Abs() == ProcessTable.Create(old(Abs()), stack)
      ensures var f := old(FreeFrom(table[..], 0));
        if f == MAX_PROCESSES then table[..] == old(table[..]) && nextPid == old(nextPid)
        else nextPid as int == old(nextPid) + 1 && table[..] == old(table[..])[f :=
          Process(old(nextPid) as nat, if stack then Ready else Free, old(currentPid) as nat, 0, Idle)]
      ensures pid == -1 <==> old(FreeFrom(table[..], 0)) == MAX_PROCESSES || !stack
      ensures pid != -1 ==> pid == old(nextPid)
    {
      hide SlotFrom, FreeFrom, Inv;
      CreateInv(Abs(), stack);
      var i := FindFreeSlot();
      if i == MAX_PROCESSES { return -1; }
      ghost var t := table[..];
      table[i] := NO_PROCESS;
      table[i] := table[i].(pid := nextPid);
      nextPid := nextPid + 1;
      table[i] := table[i].(status := Ready, parent := currentPid);
      if !stack {
        table[i] := table[i].(status := Free);
        assert table[..] == t[i := Process(old(nextPid), Free, currentPid, 0, Idle)];
        return -1;
      }
      schedulerEnabled := true;
      assert table[..] == t[i := Process(old(nextPid), Ready, currentPid, 0, Idle)];
      pid := table[i].pid;
    }

    /** process_exit */
    method Exit(code: int)
      requires Valid() && Enabled(Abs(), DoExit(code))
      modifies this`currentPid, this`exits, table
      ensures Valid()
      ensures Abs() == ProcessTable.Exit(old(Abs()), code)
      ensures old(currentPid) == 0 ==> table[..] == old(table[..]) && currentPid == old(currentPid)
      ensures old(currentPid) != 0 ==>
        var c := old(SlotOf(table[..], currentPid));
        && c < MAX_PROCESSES && table[c] == old(table[..])[c].(status := Zombie, exitCode := code)
        && forall i :: 0 <= i < MAX_PROCESSES && i != c && old(table[..])[i].status == Blocked ==>
             (table[i].status != Blocked <==> old(table[..])[i].pid == old(table[..])[c].parent)
    {
      hide SlotFrom, PickFrom, Inv, ProcessTable.Yield;
      ghost var s := Abs();
      StepInv(s, DoExit(code));
      var c := FindProcess(currentPid);
      if c == MAX_PROCESSES || table[c].pid == 0 { return; }
      ExitingInv(s, code);
      ExitWakes(s, code);
      table[c] := table[c].(status := Zombie, exitCode := code);
      exits := exits[table[c].pid as nat := code];
      var p := FindProcess(table[c].parent);
      if p < MAX_PROCESSES && table[p].status == Blocked {
        table[p] := table[p].(status := Ready);
      }
      assert Abs() == Exiting(s, code);
      Yield();
    }

    /** One turn of the loop of process_wait: the child's exit code once it has exited. */
    method Resume() returns (done: bool, code: int)
      requires Valid() && Enabled(Abs(), DoResume)
      modifies this`currentPid, table
      ensures Valid()
      ensures Abs() == Turn(old(Abs()))
      ensures var c, t := old(SlotOf(table[..], currentPid)), old(table[..]);
        && c < MAX_PROCESSES && t[c].point.slot < MAX_PROCESSES
        && (done <==> t[t[c].point.slot].status == Zombie)
        && (done ==>
              && code == t[t[c].point.slot].exitCode && currentPid == old(currentPid)
              && table[..] == t[c := t[c].(point := Idle)][t[c].point.slot := t[t[c].point.slot].(status := Free)])
        && (!done ==> table[c] == t[c].(status := Blocked))
    {
      hide SlotFrom, PickFrom, Inv, ProcessTable.Yield;
      ghost var s := Abs();
      StepInv(s, DoResume);
      var c := FindProcess(currentPid);
      var child := table[c].point.slot;
      SlotInTable(s, c);
      if table[child].status != Zombie {
        table[c] := table[c].(status := Blocked);
        assert table[..] == Mark(s.table, c, Blocked);
        MarkInv(s, c, Blocked);
        YieldAsleep(Abs(), c);
        Yield();
        return false, 0;
      }
      code := table[child].exitCode;
      table[child] := table[child].(status := Free);
      table[c] := table[c].(point := Idle);
      assert table[..] == Collect(s).table;
      done := true;
    }

    /** process_wait up to its end or its first suspension. */
    method Wait(pid: u32) returns (done: bool, code: int)
      requires Valid() && Enabled(Abs(), DoWait(pid))
      modifies this`currentPid, table
      ensures Valid()
      ensures Abs() == ProcessTable.Wait(old(Abs()), pid)
      ensures old(SlotOf(table[..], pid)) == MAX_PROCESSES ==> done && code == -1
      ensures old(SlotOf(table[..], pid)) < MAX_PROCESSES ==>
        && (done <==> old(table[..][SlotOf(table[..], pid)].status == Zombie))
        && (done ==> code == old(table[..][SlotOf(table[..], pid)].exitCode))
      ensures done ==>
        var child := old(SlotOf(table[..], pid));
        && currentPid == old(currentPid)
        && table[..] == if child < MAX_PROCESSES then old(table[..])[child := old(table[..])[child].(status := Free)]
                        else old(table[..])
      ensures !done ==>
        var c, child := old(SlotOf(table[..], currentPid)), old(SlotOf(table[..], pid));
        c < MAX_PROCESSES && table[c] == old(table[..])[c].(status := Blocked, point := InWait(child, pid as nat))
    {
      hide SlotFrom, PickFrom, Inv, ProcessTable.Yield;
      ghost var s := Abs();
      WaitInv(s, pid);
      var child := FindProcess(pid);
      if child == MAX_PROCESSES { return true, -1; }
      var c := FindProcess(currentPid);
      if table[child].status == Zombie {
        ReapInv(s, pid);
        code := table[child].exitCode;
        table[child] := table[child].(status := Free);
        assert table[..] == Mark(s.table, child, Free);
        return true, code;
      }
      EnterInv(s, pid);
      SameSlot(s.table, Enter(s, pid).table, s.current);
      table[c] := table[c].(point := InWait(child, pid));
      assert table[..] == Enter(s, pid).table;
      done, code := Resume();
    }

    /** process_block.  All is well afterwards exactly when the process has not exited and does not
        sleep for a child that has. */
    method Block(pid: u32)
      requires Valid()
      modifies table
      ensures Abs() == ProcessTable.Block(old(Abs()), pid)
      ensures Valid() <==> old(SafeBlock(Abs(), pid))
      ensures var i := old(SlotOf(table[..], pid));
        table[..] == if i < MAX_PROCESSES then old(table[..])[i := old(table[..])[i].(status := Blocked)]
                     else old(table[..])
    {
      hide SlotFrom, Inv;
      BlockExactly(Abs(), pid);
      ghost var t := table[..];
      var i := FindProcess(pid);
      if i < MAX_PROCESSES {
        table[i] := table[i].(status := Blocked);
      }
      assert table[..] == Mark(t, i, Blocked);
    }

    /** process_unblock */
    method Unblock(pid: u32)
      requires Valid()
      modifies table
      ensures Valid()
      ensures Abs() == ProcessTable.Unblock(old(Abs()), pid)
      ensures var i := old(SlotOf(table[..], pid));
        table[..] == if i < MAX_PROCESSES && old(table[..])[i].status == Blocked
                     then old(table[..])[i := old(table[..])[i].(status := Ready)] else old(table[..])
    {
      hide SlotFrom, Inv;
      ghost var s := Abs();
      var i := FindProcess(pid);
      if i < MAX_PROCESSES && table[i].status == Blocked {
        table[i] := table[i].(status := Ready);
        MarkInv(s, i, Ready);
        assert table[..] == Mark(s.table, i, Ready);
      }
    }
  }

  predicate RunningAt(t: Table, i: nat) { i < MAX_PROCESSES && t[i].status == Running }

  lemma PickBound(s: State, next: nat)
    requires Inv(s) && next < MAX_PROCESSES && next != SlotOf(s.table, s.current)
    requires next == if Pick(s.table, s.current) < MAX_PROCESSES then Pick(s.table, s.current)
                     else if RunningAt(s.table, SlotOf(s.table, s.current)) then SlotOf(s.table, s.current)
                     else MAX_PROCESSES
    ensures next == Pick(s.table, s.current) && s.table[next].pid < s.next
  {
    hide PickFrom, SlotFrom;
    At(s, next);
  }

  lemma SlotInTable(s: State, c: nat)
    requires Inv(s) && Resuming(s) && c == SlotOf(s.table, s.current)
    ensures s.table[c].point.slot < MAX_PROCESSES
    ensures Collects(s) <==> s.table[s.table[c].point.slot].status == Zombie
    ensures s.table[s.table[c].point.slot].status == Zombie ==> s.table[c].point.slot != c
  {
    hide SlotFrom;
    At(s, c);
  }
}
