/** What holds in every run of the process manager. */
module Scheduling {
  import opened ProcessTable

  /** In every run, at most one process is running, it is the current one, and the pids in the table
      are distinct and below the next one to be given. */
  lemma OneRunning(steps: seq<Action>, i: nat, j: nat)
    requires Allowed(Init(), steps) && i < MAX_PROCESSES && j < MAX_PROCESSES
    ensures var s := Run(Init(), steps);
      && (s.table[i].status == Running && s.table[j].status == Running ==> i == j)
      && (s.table[i].status == Running ==> s.table[i].pid == s.current)
      && (s.table[i].status != Free && s.table[j].status != Free && s.table[i].pid == s.table[j].pid ==> i == j)
      && (s.table[i].status != Free ==> s.table[i].pid < s.next)
  {
    hide Run, Allowed, SlotFrom;
    InitInv();
    RunInv(Init(), steps);
    var s := Run(Init(), steps);
    CurrentOf(s);
    At(s, i);
    assert SamePid(s.table, i, j) ==> i == j;
  }

  /** No lost wakeup: in every run, the child of a process that sleeps in process_wait is in the
      table under its pid and has not exited. */
  lemma NoLostWakeup(steps: seq<Action>, i: nat)
    requires Allowed(Init(), steps) && i < MAX_PROCESSES
    requires Run(Init(), steps).table[i].status == Blocked && Run(Init(), steps).table[i].point.InWait?
    ensures var t := Run(Init(), steps).table; var w := t[i].point;
      w.slot < MAX_PROCESSES && t[w.slot].status != Zombie && t[w.slot].status != Free
      && t[w.slot].pid == w.pid && t[w.slot].parent == t[i].pid
  {
    hide Run, Allowed, SlotFrom;
    InitInv();
    RunInv(Init(), steps);
    At(Run(Init(), steps), i);
  }

  /** At step k of the run the process with that pid exits with that code. */
  predicate ExitsAt(s: State, steps: seq<Action>, k: nat, pid: nat, code: int) {
    k < |steps| && steps[k] == DoExit(code) && Run(s, steps[..k]).current == pid && Exits(Run(s, steps[..k]))
  }

  /** Only an exit is recorded. */
  lemma StepExits(s: State, a: Action)
    requires Inv(s) && Enabled(s, a)
    ensures Step(s, a).exits == if a.DoExit? && Exits(s) then s.exits[s.current := a.code] else s.exits
  {
    hide SlotFrom, PickFrom, FreeFrom;
  }

  lemma {:induction false} ExitHappened(steps: seq<Action>, pid: nat) returns (k: nat)
    requires Allowed(Init(), steps) && pid in Run(Init(), steps).exits
    ensures ExitsAt(Init(), steps, k, pid, Run(Init(), steps).exits[pid])
    decreases |steps|
  {
    hide Step, Enabled, Inv, Exits;
    var n := |steps| - 1;
    assert steps != [];
    var before, a := Run(Init(), steps[..n]), steps[n];
    InitInv();
    RunInv(Init(), steps[..n]);
    StepExits(before, a);
    if a.DoExit? && Exits(before) && before.current == pid {
      k := n;
    } else {
      k := ExitHappened(steps[..n], pid);
      assert steps[..n][..k] == steps[..k];
    }
  }

  /** When process_wait ends, in any run, the code it returns is the one its child exited with. */
  lemma WaitReturnsExitCode(steps: seq<Action>, c: nat) returns (k: nat)
    requires Allowed(Init(), steps) && c == SlotOf(Run(Init(), steps).table, Run(Init(), steps).current)
    requires Collects(Run(Init(), steps))
    ensures var t := Run(Init(), steps).table; ExitsAt(Init(), steps, k, t[c].point.pid, t[t[c].point.slot].exitCode)
  {
    hide Run, Allowed, SlotFrom;
    InitInv();
    RunInv(Init(), steps);
    var s := Run(Init(), steps);
    At(s, c);
    At(s, s.table[c].point.slot);
    k := ExitHappened(steps, s.table[c].point.pid);
  }

  /** The same for a parent that finds its child a zombie when it calls process_wait. */
  lemma WaitFindsExitCode(steps: seq<Action>, pid: nat, i: nat) returns (k: nat)
    requires Allowed(Init(), steps) && Enabled(Run(Init(), steps), DoWait(pid))
    requires i == SlotOf(Run(Init(), steps).table, pid) && i < MAX_PROCESSES
    requires Run(Init(), steps).table[i].status == Zombie
    ensures ExitsAt(Init(), steps, k, pid, Run(Init(), steps).table[i].exitCode)
    ensures var s := Run(Init(), steps); Wait(s, pid) == s.(table := Mark(s.table, i, Free))
  {
    hide Run, Allowed, SlotFrom;
    InitInv();
    RunInv(Init(), steps);
    var s := Run(Init(), steps);
    At(s, i);
    k := ExitHappened(steps, pid);
    ReapInv(s, pid);
  }

  // ---- sleeping in process_wait ----

  /** At step k of the run the process in slot i, asleep at that point of its code, is woken: by an exit of
      a child of its own, or by an unblock of its pid. */
  predicate WokenAt(steps: seq<Action>, k: nat, i: nat, point: Point)
    requires i < MAX_PROCESSES
  {
    && k < |steps|
    && var b := Run(Init(), steps[..k]);
       b.table[i].status == Blocked && b.table[i].point == point && Wakes(b, steps[k], b.table[i].pid)
  }

  predicate Wakes(s: State, a: Action, pid: nat) {
    match a
    case DoExit(_) =>
      var c := SlotOf(s.table, s.current);
      s.current != 0 && c < MAX_PROCESSES && s.table[c].parent == pid
    case DoUnblock(p) => p == pid
    case _ => false
  }

  /** The current process sleeps if it is inside process_wait after its call. */
  lemma OwnStep(s: State, a: Action)
    requires Inv(s) && Enabled(s, a)
    ensures var c := SlotOf(s.table, s.current);
      c < MAX_PROCESSES && (Step(s, a).table[c].point.InWait? ==> Step(s, a).table[c].status == Blocked)
  {
    hide SlotFrom, PickFrom, FreeFrom, Inv, Yield, Exiting;
    CurrentOf(s);
    var c := SlotOf(s.table, s.current);
    At(s, c);
    match a
    case DoCreate(ok) =>
    case DoExit(code) =>
      if Exits(s) {
        ExitingTable(s, code, c);
        YieldAsleep(Exiting(s, code), c);
      }
    case DoYield => YieldSame(s, c);
    case DoWait(pid) =>
      var i := SlotOf(s.table, pid);
      if i < MAX_PROCESSES {
        if s.table[i].status == Zombie {
          ReapInv(s, pid);
        } else {
          SameSlot(s.table, Enter(s, pid).table, s.current);
          OwnTurn(Enter(s, pid));
        }
      }
    case DoResume => OwnTurn(s);
    case _ =>
  }

  lemma OwnTurn(s: State)
    requires SlotOf(s.table, s.current) < MAX_PROCESSES
    ensures var c := SlotOf(s.table, s.current); Turn(s).table[c].point.InWait? ==> Turn(s).table[c].status == Blocked
  {
    hide SlotFrom, PickFrom, Yield;
    var c := SlotOf(s.table, s.current);
    if !Collects(s) { YieldAsleep(s.(table := Mark(s.table, c, Blocked)), c); }
  }

  /** A switch changes no pid and no point, and wakes nobody. */
  lemma YieldSame(s: State, i: nat)
    requires i < MAX_PROCESSES
    ensures var p, q := s.table[i], Yield(s).table[i];
      q.pid == p.pid && q.point == p.point && (p.status == Blocked ==> q.status == Blocked)
  {
    hide SlotFrom, PickFrom;
  }

  /** A call of another process leaves a process at its place inside process_wait, asleep unless the call
      wakes it. */
  lemma OthersStep(s: State, a: Action, i: nat)
    requires Inv(s) && Enabled(s, a) && i < MAX_PROCESSES && i != SlotOf(s.table, s.current)
    requires Step(s, a).table[i].point.InWait?
    ensures s.table[i].point == Step(s, a).table[i].point && s.table[i].pid == Step(s, a).table[i].pid
    ensures s.table[i].status == Blocked && Step(s, a).table[i].status != Blocked ==> Wakes(s, a, s.table[i].pid)
  {
    hide SlotFrom, PickFrom, FreeFrom, Inv, Yield, Exiting;
    StepInv(s, a);
    At(Step(s, a), i);
    At(s, i);
    match a
    case DoCreate(ok) =>
    case DoExit(code) =>
      if Exits(s) {
        ExitingTable(s, code, i);
        YieldSame(Exiting(s, code), i);
        OwnPid(s);
      }
    case DoYield => YieldSame(s, i);
    case DoWait(pid) =>
      var k := SlotOf(s.table, pid);
      if k < MAX_PROCESSES {
        if s.table[k].status == Zombie {
          ReapInv(s, pid);
        } else {
          SameSlot(s.table, Enter(s, pid).table, s.current);
          OthersTurn(Enter(s, pid), i);
        }
      }
    case DoResume => OthersTurn(s, i);
    case _ =>
  }

  lemma OwnPid(s: State)
    requires SlotOf(s.table, s.current) < MAX_PROCESSES
    ensures s.table[SlotOf(s.table, s.current)].pid == s.current
  {
    hide SlotFrom;
  }

  lemma OthersTurn(s: State, i: nat)
    requires SlotOf(s.table, s.current) < MAX_PROCESSES && i < MAX_PROCESSES && i != SlotOf(s.table, s.current)
    ensures var p, q := s.table[i], Turn(s).table[i];
      q.pid == p.pid && q.point == p.point && (p.status == Blocked ==> q.status == Blocked || q.status == Free)
  {
    hide SlotFrom, PickFrom, Yield;
    var c := SlotOf(s.table, s.current);
    if !Collects(s) { YieldSame(s.(table := Mark(s.table, c, Blocked)), i); }
  }

  /** In every run, a process inside process_wait sleeps, or it has been woken and has done nothing since:
      by the exit of a child of its own or by an unblock, at step k, while it slept in that same wait. */
  lemma {:induction false} SleepsUnlessWoken(steps: seq<Action>, i: nat) returns (k: nat)
    requires Allowed(Init(), steps) && i < MAX_PROCESSES
    requires Run(Init(), steps).table[i].point.InWait? && Run(Init(), steps).table[i].status != Blocked
    ensures WokenAt(steps, k, i, Run(Init(), steps).table[i].point)
    ensures forall m: nat :: k < m < |steps| ==> !Moves(steps, m, i)
    decreases |steps|
  {
    hide Step, Enabled, Inv, Wakes, SlotFrom;
    assert steps != [];
    var n := |steps| - 1;
    var before, a := Run(Init(), steps[..n]), steps[n];
    InitInv();
    RunInv(Init(), steps[..n]);
    StepInv(before, a);
    if i == SlotOf(before.table, before.current) {
      OwnStep(before, a);
      assert false;
    } else {
      OthersStep(before, a, i);
      if before.table[i].status == Blocked {
        k := n;
      } else {
        k := SleepsUnlessWoken(steps[..n], i);
        assert steps[..n][..k] == steps[..k];
        forall m: nat | k < m < n ensures !Moves(steps, m, i) {
          assert !Moves(steps[..n], m, i) && steps[..n][..m] == steps[..m];
        }
      }
    }
  }

  /** Step m of the run is a call of the process in slot i. */
  predicate Moves(steps: seq<Action>, m: nat, i: nat) {
    m < |steps| && var b := Run(Init(), steps[..m]); SlotOf(b.table, b.current) == i
  }

  /** A process that waits for its child sleeps, the exit of the child wakes it, and its next turn takes the
      child away. */
  lemma HandshakeInstance(code: int)
    ensures var steps := [DoCreate(true), DoWait(1), DoExit(code)];
      && Allowed(Init(), steps)
      && Run(Init(), steps[..2]).table[0] == Process(0, Blocked, 0, 0, InWait(1, 1))
      && Run(Init(), steps[..2]).current == 1
      && Run(Init(), steps).table[0] == Process(0, Running, 0, 0, InWait(1, 1))
      && Run(Init(), steps).table[1] == Process(1, Zombie, 0, code, Idle)
      && Run(Init(), steps).current == 0
  {
    hide Step, Enabled;
    var steps := [DoCreate(true), DoWait(1), DoExit(code)];
    SetupRun(1);
    assert SETUP[..1] == steps[..1] && steps[..2][..1] == steps[..1];
    assert steps[..3] == steps && steps[..3][..2] == steps[..2];
    WaitsForOne();
    ExitsOne(code);
    assert Run(Init(), steps[..2]) == Waited();
    assert Run(Init(), steps) == Step(Waited(), DoExit(code));
  }

  /** Pid 0 sleeps for pid 1, whose turn it is. */
  function Waited(): State {
    State(Init().table[0 := Process(0, Blocked, 0, 0, InWait(1, 1))][1 := Process(1, Running, 0, 0, Idle)],
          1, 2, true, map[])
  }

  lemma WaitsForOne()
    ensures Enabled(Spawned(1), DoWait(1)) && Step(Spawned(1), DoWait(1)) == Waited()
  {
    hide SlotFrom, PickFrom;
    var s := Spawned(1);
    SpawnFree(1);
    assert !Is(s.table[0], 1) && Is(s.table[1], 1);
    var e := Enter(s, 1);
    SameSlot(s.table, e.table, 0);
    var b := e.(table := Mark(e.table, 0, Blocked));
    SameSlot(s.table, b.table, 0);
    assert b.table[1].status == Ready && Pick(b.table, 0) == 1;
    var t, u := Step(s, DoWait(1)).table, Waited().table;
    forall i | 0 <= i < MAX_PROCESSES ensures t[i] == u[i] {
    }
  }

  lemma ExitsOne(code: int)
    ensures Enabled(Waited(), DoExit(code))
    ensures var s := Step(Waited(), DoExit(code));
      && s.current == 0 && s.table[0] == Process(0, Running, 0, 0, InWait(1, 1))
      && s.table[1] == Process(1, Zombie, 0, code, Idle)
  {
    hide SlotFrom, PickFrom;
    var s := Waited();
    assert !Is(s.table[0], 1) && Is(s.table[1], 1) && Is(s.table[0], 0);
    assert SlotOf(s.table, 1) == 1 && SlotOf(s.table, 0) == 0;
    var t := s.table[1 := s.table[1].(status := Zombie, exitCode := code)];
    SameSlot(s.table, t, 0);
    var e := Exiting(s, code);
    SameSlot(s.table, e.table, 1);
    assert e.table[0].status == Ready && Pick(e.table, 1) == 0;
  }

  // ---- bounded waiting ----

  /** Every process sits in the slot that its pid names. */
  predicate PidsNameSlots(t: Table) {
    forall i :: 0 <= i < MAX_PROCESSES && t[i].status != Free ==> t[i].pid % MAX_PROCESSES == i
  }

  /** Creating a process keeps this exactly when the pid to be given names the first free slot, or
      nothing is created. */
  lemma CreateKeepsNames(s: State, ok: bool)
    requires PidsNameSlots(s.table)
    ensures PidsNameSlots(Create(s, ok).table) <==>
      !ok || FreeFrom(s.table, 0) == MAX_PROCESSES || s.next % MAX_PROCESSES == FreeFrom(s.table, 0)
  {
    hide FreeFrom;
    var f := FreeFrom(s.table, 0);
    if ok && f != MAX_PROCESSES && s.next % MAX_PROCESSES != f {
      assert Create(s, ok).table[f].pid % MAX_PROCESSES != f;
    }
  }

  /** Slot v comes nearer by a move from `start` to p exactly when the slot that p names lies before it. */
  lemma AheadMoves(start: nat, p: nat, v: nat)
    requires v < MAX_PROCESSES
    ensures Ahead(p, v) < Ahead(start, v) <==> Ahead(start, p % MAX_PROCESSES) < Ahead(start, v)
  {
    var q: int, h := p % MAX_PROCESSES, p / MAX_PROCESSES;
    var i, a := Divided(v as int - start - 1);
    var j, b := Divided(q - start - 1);
    var m := MAX_PROCESSES;
    var r := if b < a then a - b - 1 else a - b - 1 + m;
    Residue(v as int - p - 1, if b < a then i - j - h else i - j - h - 1, r);
  }

  lemma Divided(x: int) returns (k: int, r: int)
    ensures x == MAX_PROCESSES * k + r && 0 <= r < MAX_PROCESSES && r == x % MAX_PROCESSES
  {
    k, r := x / MAX_PROCESSES, x % MAX_PROCESSES;
  }

  lemma Residue(x: int, k: int, r: int)
    requires x == MAX_PROCESSES * k + r && 0 <= r < MAX_PROCESSES
    ensures x % MAX_PROCESSES == r
  {
  }

  /** A call of process_yield that switches to another process brings a ready one nearer to its turn
      exactly when the slot that the new pid names comes before its slot in the scan. */
  lemma YieldExactly(s: State, v: nat, r: nat)
    requires Inv(s) && s.enabled && v < MAX_PROCESSES && s.table[v].status == Ready
    requires r == Pick(s.table, s.current) && r != v && r != SlotOf(s.table, s.current)
    ensures r < MAX_PROCESSES && Yield(s).current == s.table[r].pid && Yield(s).table[r].status == Running
    ensures s.table[v].pid != s.current ==> Yield(s).table[v] == s.table[v]
    ensures Ahead(Yield(s).current, v) < Ahead(s.current, v) <==>
      Ahead(s.current, s.table[r].pid % MAX_PROCESSES) < Ahead(s.current, v)
  {
    hide SlotFrom, PickFrom;
    CurrentOf(s);
    AllProbed(s.current);
    AheadMoves(s.current, s.table[r].pid, v);
  }

  /** So while pids name slots, each call of process_yield brings a ready process nearer to its turn,
      or gives it its turn. */
  lemma YieldCloser(s: State, v: nat)
    requires Inv(s) && PidsNameSlots(s.table) && s.enabled && v < MAX_PROCESSES
    requires s.table[v].status == Ready && s.table[v].pid != s.current
    ensures var s' := Yield(s);
      || (s'.current == s.table[v].pid && s'.table[v].status == Running)
      || (s'.table[v] == s.table[v] && s'.current != s.table[v].pid && Ahead(s'.current, v) < Ahead(s.current, v))
  {
    hide SlotFrom, PickFrom, Ahead;
    var c, r := SlotOf(s.table, s.current), Pick(s.table, s.current);
    CurrentOf(s);
    AllProbed(s.current);
    LastInTurn(s.current, c, v);
    assert r != c;
    if r != v {
      YieldExactly(s, v, r);
      NeverTied(s.current, r, v);
      assert !SamePid(s.table, r, v);
    }
  }

  lemma NeverTied(start: nat, r: nat, v: nat)
    requires r < MAX_PROCESSES && v < MAX_PROCESSES && r != v && Ahead(start, r) <= Ahead(start, v)
    ensures Ahead(start, r) < Ahead(start, v)
  {
    AllProbed(start);
  }

  /** The current slot is the last one looked at. */
  lemma LastInTurn(p: nat, c: nat, v: nat)
    requires p % MAX_PROCESSES == c && v < MAX_PROCESSES && v != c
    ensures Ahead(p, c) == MAX_PROCESSES - 1 && Ahead(p, v) < MAX_PROCESSES - 1
  {
  }

  /** How often a call calls process_yield. */
  function Yields(s: State, a: Action): nat {
    match a
    case DoYield => 1
    case DoExit(_) => if Exits(s) then 1 else 0
    case DoWait(pid) => if SlotOf(s.table, pid) < MAX_PROCESSES && !Collects(Enter(s, pid)) then 1 else 0
    case DoResume => if Collects(s) then 0 else 1
    case _ => 0
  }

  function YieldsIn(s: State, steps: seq<Action>): nat
    decreases |steps|
  {
    if steps == [] then 0
    else YieldsIn(s, steps[..|steps| - 1]) + Yields(Run(s, steps[..|steps| - 1]), steps[|steps| - 1])
  }

  /** The process in slot v is ready with that pid and not the current one. */
  predicate Waiting(s: State, v: nat, pid: nat)
    requires v < MAX_PROCESSES
  {
    s.table[v].status == Ready && s.table[v].pid == pid && s.current != pid
  }

  /** All along the run the process stays ready without getting its turn. */
  predicate WaitsThroughout(s: State, steps: seq<Action>, v: nat, pid: nat)
    requires v < MAX_PROCESSES
  {
    forall k: nat :: k <= |steps| ==> Fair(Run(s, steps[..k]), v, pid)
  }

  predicate Fair(s: State, v: nat, pid: nat)
    requires v < MAX_PROCESSES
  {
    Waiting(s, v, pid) && s.enabled && PidsNameSlots(s.table)
  }

  /** One step of a run brings the process as many slots nearer as it calls process_yield. */
  lemma StepCloser(s: State, a: Action, v: nat, pid: nat)
    requires Inv(s) && Enabled(s, a) && v < MAX_PROCESSES && Fair(s, v, pid) && Fair(Step(s, a), v, pid)
    ensures Ahead(Step(s, a).current, v) + Yields(s, a) <= Ahead(s.current, v)
  {
    hide SlotFrom, PickFrom, FreeFrom, Ahead, Inv, PidsNameSlots;
    match a
    case DoYield => YieldCloser(s, v);
    case DoExit(code) =>
      if Exits(s) {
        ExitingInv(s, code);
        ExitingReady(s, code, v);
        YieldCloser(Exiting(s, code), v);
      }
    case DoWait(w) =>
      if SlotOf(s.table, w) < MAX_PROCESSES {
        if s.table[SlotOf(s.table, w)].status != Zombie {
          EnterInv(s, w);
          SameSlot(s.table, Enter(s, w).table, s.current);
          EnterReady(s, w, v);
          TurnCloser(Enter(s, w), v, pid);
        } else {
          SameSlot(s.table, Enter(s, w).table, s.current);
          ReapInv(s, w);
        }
      }
    case DoResume => TurnCloser(s, v, pid);
    case _ =>
  }

  lemma TurnCloser(s: State, v: nat, pid: nat)
    requires Inv(s) && Resuming(s) && v < MAX_PROCESSES && Fair(s, v, pid)
    requires Waiting(Turn(s), v, pid)
    ensures Ahead(Turn(s).current, v) + (if Collects(s) then 0 else 1) <= Ahead(s.current, v)
  {
    hide SlotFrom, PickFrom, FreeFrom, Ahead, Inv;
    if !Collects(s) {
      var c := SlotOf(s.table, s.current);
      MarkInv(s, c, Blocked);
      YieldCloser(s.(table := Mark(s.table, c, Blocked)), v);
    }
  }

  lemma ExitingReady(s: State, code: int, v: nat)
    requires Inv(s) && Exits(s) && v < MAX_PROCESSES && s.table[v].status == Ready && s.table[v].pid != s.current
    requires PidsNameSlots(s.table)
    ensures PidsNameSlots(Exiting(s, code).table) && Exiting(s, code).table[v] == s.table[v]
    ensures Exiting(s, code).current == s.current && Exiting(s, code).enabled == s.enabled
  {
    hide SlotFrom;
  }

  lemma EnterReady(s: State, w: nat, v: nat)
    requires v < MAX_PROCESSES && s.table[v].pid != s.current && PidsNameSlots(s.table)
    ensures PidsNameSlots(Enter(s, w).table) && Enter(s, w).table[v] == s.table[v]
    ensures Enter(s, w).current == s.current && Enter(s, w).enabled == s.enabled
  {
    hide SlotFrom;
  }

  /** Bounded waiting: while pids name slots, a process that stays ready waits for fewer than 63
      calls of process_yield; the next one would run it. */
  lemma {:induction false} BoundedWaiting(s: State, steps: seq<Action>, v: nat, pid: nat)
    requires Inv(s) && Allowed(s, steps) && v < MAX_PROCESSES && WaitsThroughout(s, steps, v, pid)
    ensures YieldsIn(s, steps) + Ahead(Run(s, steps).current, v) <= Ahead(s.current, v)
    ensures YieldsIn(s, steps) < MAX_PROCESSES - 1
    decreases |steps|
  {
    hide Step, Enabled, Inv, Yields, Fair, Ahead;
    var n := |steps| - 1;
    assert steps[..|steps|] == steps && steps[..0] == [];
    assert Fair(Run(s, steps[..0]), v, pid);
    EndOfWait(s, v, pid);
    assert Fair(Run(s, steps[..|steps|]), v, pid);
    if steps != [] {
      assert forall k: nat :: k <= n ==> steps[..n][..k] == steps[..k];
      BoundedWaiting(s, steps[..n], v, pid);
      RunInv(s, steps[..n]);
      assert Fair(Run(s, steps[..n]), v, pid);
      StepCloser(Run(s, steps[..n]), steps[n], v, pid);
    }
  }

  lemma EndOfWait(s: State, v: nat, pid: nat)
    requires Inv(s) && v < MAX_PROCESSES && Fair(s, v, pid)
    ensures Ahead(s.current, v) < MAX_PROCESSES - 1
  {
    hide SlotFrom;
    LastInTurn(s.current, SlotOf(s.table, s.current), v);
  }

  // ---- without it ----

  /** A process is created, a creation fails for want of memory, and two more processes are created. */
  const SETUP: seq<Action> := [DoCreate(true), DoCreate(false), DoCreate(true), DoCreate(true)]

  /** Pid 1 is then in slot 1, pid 3 in slot 2 and pid 4 in slot 3; slot k has its turn. */
  function Crowded(k: nat): State
    requires k < 3
  {
    State(Init().table[0 := Process(0, if k == 0 then Running else Ready, 0, 0, Idle)]
                      [1 := Process(1, if k == 1 then Running else Ready, 0, 0, Idle)]
                      [2 := Process(3, if k == 2 then Running else Ready, 0, 0, Idle)]
                      [3 := Process(4, Ready, 0, 0, Idle)],
          if k == 2 then 3 else k, 5, true, map[])
  }

  lemma CrowdedPick(k: nat)
    requires k < 3
    ensures SlotOf(Crowded(k).table, Crowded(k).current) == k
    ensures Pick(Crowded(k).table, Crowded(k).current) == (k + 1) % 3
  {
    var s, there := Crowded(k), (k + 1) % 3;
    assert Is(s.table[k], s.current);
    AllProbed(s.current);
    assert Ahead(s.current, there) == if k == 2 then 60 else 0;
    assert k == 2 ==> Ahead(s.current, 1) == 61 && Ahead(s.current, 2) == 62 && Ahead(s.current, 3) == 63;
  }

  lemma CrowdedYield(k: nat)
    requires k < 3
    ensures Yield(Crowded(k)) == Crowded((k + 1) % 3) && Enabled(Crowded(k), DoYield)
  {
    hide SlotFrom, PickFrom, Pick;
    CrowdedPick(k);
    var t, u := Yield(Crowded(k)).table, Crowded((k + 1) % 3).table;
    forall i | 0 <= i < MAX_PROCESSES ensures t[i] == u[i] {
    }
  }

  function Child(pid: nat): Process { Process(pid, Ready, 0, 0, Idle) }

  /** The state after n of the calls: the second one fails, and leaves its pid in a slot that stays free. */
  function Spawned(n: nat): State
    requires n <= 4
  {
    var t := Init().table;
    var t2 := t[1 := Child(1)][2 := Process(2, Free, 0, 0, Idle)];
    State(if n == 0 then t
          else if n == 1 then t[1 := Child(1)]
          else if n == 2 then t2
          else if n == 3 then t2[2 := Child(3)]
          else t2[2 := Child(3)][3 := Child(4)],
          0, n + 1, n > 0, map[])
  }

  lemma SpawnFree(n: nat)
    requires n < 4
    ensures SlotOf(Spawned(n).table, 0) == 0
    ensures FreeFrom(Spawned(n).table, 0) == if n < 2 then n + 1 else n
  {
    assert Is(Spawned(n).table[0], 0);
  }

  lemma SpawnStep(n: nat)
    requires n < 4
    ensures Step(Spawned(n), SETUP[n]) == Spawned(n + 1) && Enabled(Spawned(n), SETUP[n])
  {
    hide SlotFrom, FreeFrom;
    SpawnFree(n);
    var t, u := Step(Spawned(n), SETUP[n]).table, Spawned(n + 1).table;
    forall i | 0 <= i < MAX_PROCESSES ensures t[i] == u[i] {
    }
  }

  lemma {:induction false} SetupRun(n: nat)
    requires n <= 4
    ensures Allowed(Init(), SETUP[..n]) && Run(Init(), SETUP[..n]) == Spawned(n)
  {
    hide Step, Enabled;
    if n > 0 {
      SetupRun(n - 1);
      assert SETUP[..n][..n - 1] == SETUP[..n - 1];
      SpawnStep(n - 1);
    }
  }

  lemma SpawnedCrowded()
    ensures Spawned(4) == Crowded(0)
  {
    var t, u := Spawned(4).table, Crowded(0).table;
    forall i | 0 <= i < MAX_PROCESSES ensures t[i] == u[i] {
    }
  }

  lemma CrowdedWaits(k: nat)
    requires k < 3
    ensures Waiting(Crowded(k), 3, 4)
  {
  }

  lemma RunYield(steps: seq<Action>)
    requires steps != [] && steps[|steps| - 1] == DoYield
    requires Allowed(Init(), steps[..|steps| - 1])
    ensures Run(Init(), steps) == Yield(Run(Init(), steps[..|steps| - 1]))
    ensures Allowed(Init(), steps) <==> Enabled(Run(Init(), steps[..|steps| - 1]), DoYield)
  {
    hide Yield, Enabled, Init;
  }

  /** When pids do not name slots a ready process can wait for ever: after this start each of the three
      processes in front hands its turn to the next, however often process_yield is called, and pid 4
      in slot 3 never runs. */
  lemma {:induction false} Starvation(turns: seq<Action>)
    requires forall k :: 0 <= k < |turns| ==> turns[k] == DoYield
    ensures Allowed(Init(), SETUP + turns)
    ensures Run(Init(), SETUP + turns) == Crowded(|turns| % 3)
    ensures Waiting(Run(Init(), SETUP + turns), 3, 4)
    decreases |turns|
  {
    hide SlotFrom, PickFrom, Enabled, Yield, Crowded, Spawned, Waiting, Run, Allowed, Init;
    CrowdedWaits(|turns| % 3);
    if turns == [] {
      SetupRun(4);
      assert SETUP + turns == SETUP[..4];
      SpawnedCrowded();
    } else {
      var n := |turns| - 1;
      var all := SETUP + turns;
      assert all[..|all| - 1] == SETUP + turns[..n] && all[|all| - 1] == DoYield;
      Starvation(turns[..n]);
      CrowdedYield(n % 3);
      RunYield(all);
    }
  }
}
