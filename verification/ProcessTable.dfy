/** The process table of kernel/process.c as a transition system: what each call does, and what
    every run of calls keeps. */
module ProcessTable {

  const MAX_PROCESSES := 64

  datatype Status = Free | Ready | Running | Blocked | Zombie

  /** Where a process stands: in code of its own, or inside process_wait, which holds the slot of the
      child with the given pid across its calls of process_yield. */
  datatype Point = Idle | InWait(slot: nat, pid: nat)

  datatype Process = Process(pid: nat, status: Status, parent: nat, exitCode: int, point: Point)

  type Table = t: seq<Process> | |t| == MAX_PROCESSES witness seq(MAX_PROCESSES, i => NO_PROCESS)

  const NO_PROCESS := Process(0, Free, 0, 0, Idle)

  /** exits remembers with which code a process exited; the source has no such record. */
  datatype State = State(table: Table, current: nat, next: nat, enabled: bool, exits: map<nat, int>)

  predicate Is(p: Process, pid: nat) { p.status != Free && p.pid == pid }

  /** find_process: the first slot, from k on, of a live process with that pid. */
  function SlotFrom(t: Table, pid: nat, k: nat): (i: nat)
    requires k <= MAX_PROCESSES
    ensures k <= i <= MAX_PROCESSES
    ensures i < MAX_PROCESSES ==> Is(t[i], pid)
    ensures forall j :: k <= j < i ==> !Is(t[j], pid)
    decreases MAX_PROCESSES - k
  {
    if k == MAX_PROCESSES || Is(t[k], pid) then k else SlotFrom(t, pid, k + 1)
  }

  function SlotOf(t: Table, pid: nat): nat { SlotFrom(t, pid, 0) }

  /** find_free_slot */
  function FreeFrom(t: Table, k: nat): (i: nat)
    requires k <= MAX_PROCESSES
    ensures k <= i <= MAX_PROCESSES
    ensures i < MAX_PROCESSES ==> t[i].status == Free
    ensures forall j :: k <= j < i ==> t[j].status != Free
    decreases MAX_PROCESSES - k
  {
    if k == MAX_PROCESSES || t[k].status == Free then k else FreeFrom(t, k + 1)
  }

  /** The k-th slot that find_next_ready looks at. */
  function Probe(start: nat, k: nat): nat { (start + 1 + k) % MAX_PROCESSES }

  /** How many slots find_next_ready looks at before slot v. */
  function Ahead(start: nat, v: nat): nat
    requires v < MAX_PROCESSES
  {
    (v as int - start - 1) % MAX_PROCESSES
  }

  lemma AheadProbe(start: nat, k: nat)
    requires k < MAX_PROCESSES
    ensures Ahead(start, Probe(start, k)) == k
  {
  }

  lemma AllProbed(start: nat)
    ensures forall v :: 0 <= v < MAX_PROCESSES ==> Ahead(start, v) < MAX_PROCESSES && Probe(start, Ahead(start, v)) == v
  {
  }

  /** find_next_ready's scan from the k-th slot on: the first ready slot after `start` in cyclic
      order; 64 if there is none. */
  function PickFrom(t: Table, start: nat, k: nat): (r: nat)
    requires k <= MAX_PROCESSES
    ensures r <= MAX_PROCESSES && (r < MAX_PROCESSES ==> t[r].status == Ready && k <= Ahead(start, r))
    ensures forall v :: 0 <= v < MAX_PROCESSES && t[v].status == Ready && k <= Ahead(start, v) ==>
              r < MAX_PROCESSES && Ahead(start, r) <= Ahead(start, v)
    decreases MAX_PROCESSES - k
  {
    AllProbed(start);
    if k == MAX_PROCESSES then k else
      AheadProbe(start, k);
      if t[Probe(start, k)].status == Ready then Probe(start, k) else PickFrom(t, start, k + 1)
  }

  function Pick(t: Table, start: nat): nat { PickFrom(t, start, 0) }

  // ---- the calls ----

  function Init(): State {
    State(seq(MAX_PROCESSES, i => NO_PROCESS)[0 := Process(0, Running, 0, 0, Idle)], 0, 1, false, map[])
  }

  function Mark(t: Table, i: nat, status: Status): Table {
    if i < MAX_PROCESSES then t[i := t[i].(status := status)] else t
  }

  function Yield(s: State): State {
    var c, r := SlotOf(s.table, s.current), Pick(s.table, s.current);
    if !s.enabled || r == MAX_PROCESSES || r == c then s else
      s.(table := Mark(SwitchedOut(s.table, c), r, Running), current := s.table[r].pid)
  }

  function SwitchedOut(t: Table, c: nat): Table {
    if c < MAX_PROCESSES && t[c].status == Running then Mark(t, c, Ready) else t
  }

  /** ok says whether there was memory for the kernel stack. */
  function Create(s: State, ok: bool): State {
    var f := FreeFrom(s.table, 0);
    if f == MAX_PROCESSES then s else
      s.(table := s.table[f := Process(s.next, if ok then Ready else Free, s.current, 0, Idle)],
         next := s.next + 1, enabled := s.enabled || ok)
  }

  /** Up to its call of process_yield. */
  function Exiting(s: State, code: int): State {
    var c := SlotOf(s.table, s.current);
    if c == MAX_PROCESSES || s.table[c].pid == 0 then s else
      var t := s.table[c := s.table[c].(status := Zombie, exitCode := code)];
      var p := SlotOf(t, t[c].parent);
      s.(table := if p < MAX_PROCESSES && t[p].status == Blocked then Mark(t, p, Ready) else t,
         exits := s.exits[s.table[c].pid := code])
  }

  predicate Exits(s: State) { SlotOf(s.table, s.current) < MAX_PROCESSES && s.current != 0 }

  function Exit(s: State, code: int): State {
    if Exits(s) then Yield(Exiting(s, code)) else s
  }

  /** The process in slot i is inside process_wait and its child is a zombie. */
  predicate Due(t: Table, i: nat)
    requires i < MAX_PROCESSES
  {
    t[i].point.InWait? && t[i].point.slot < MAX_PROCESSES && t[t[i].point.slot].status == Zombie
  }

  predicate Collects(s: State) {
    var c := SlotOf(s.table, s.current);
    c < MAX_PROCESSES && Due(s.table, c)
  }

  function Collect(s: State): State
    requires Collects(s)
  {
    var c := SlotOf(s.table, s.current);
    s.(table := Mark(s.table[c := s.table[c].(point := Idle)], s.table[c].point.slot, Free))
  }

  /** One turn of the loop of process_wait. */
  function Turn(s: State): State {
    if Collects(s) then Collect(s)
    else Yield(s.(table := Mark(s.table, SlotOf(s.table, s.current), Blocked)))
  }

  function Enter(s: State, pid: nat): State {
    var c, child := SlotOf(s.table, s.current), SlotOf(s.table, pid);
    if c == MAX_PROCESSES || child == MAX_PROCESSES then s else
      s.(table := s.table[c := s.table[c].(point := InWait(child, pid))])
  }

  /** process_wait as far as it gets at once. */
  function Wait(s: State, pid: nat): State {
    if SlotOf(s.table, pid) == MAX_PROCESSES then s else Turn(Enter(s, pid))
  }

  function Block(s: State, pid: nat): State {
    s.(table := Mark(s.table, SlotOf(s.table, pid), Blocked))
  }

  function Unblock(s: State, pid: nat): State {
    var i := SlotOf(s.table, pid);
    if i < MAX_PROCESSES && s.table[i].status == Blocked then s.(table := Mark(s.table, i, Ready)) else s
  }

  // ---- the invariant ----

  predicate SamePid(t: Table, i: nat, j: nat) {
    i < MAX_PROCESSES && j < MAX_PROCESSES && t[i].status != Free && t[j].status != Free && t[i].pid == t[j].pid
  }

  predicate SlotOk(s: State, i: nat)
    requires i < MAX_PROCESSES
  {
    var p := s.table[i];
    p.status != Free ==>
      && p.pid < s.next
      && (p.status == Running ==> p.pid == s.current)
      && (p.pid in s.exits <==> p.status == Zombie)
      && (p.status == Zombie ==> p.exitCode == s.exits[p.pid])
  }

  /** A process inside process_wait waits for a child of its own that is still in the table, and if
      it sleeps the child has not exited. */
  predicate WaitOk(t: Table, i: nat)
    requires i < MAX_PROCESSES
  {
    var p := t[i];
    p.point.InWait? ==>
      && (p.status == Ready || p.status == Running || p.status == Blocked)
      && p.point.slot < MAX_PROCESSES
      && Is(t[p.point.slot], p.point.pid) && t[p.point.slot].parent == p.pid
      && (p.status == Blocked ==> !Due(t, i))
  }

  ghost predicate Inv(s: State) {
    && (forall i, j :: SamePid(s.table, i, j) ==> i == j)
    && (forall i :: 0 <= i < MAX_PROCESSES ==> SlotOk(s, i))
    && (forall i :: 0 <= i < MAX_PROCESSES ==> WaitOk(s.table, i))
    && (forall pid :: pid in s.exits ==> pid < s.next)
    && SlotOf(s.table, s.current) < MAX_PROCESSES
  }

  /** The invariant at one slot. */
  lemma At(s: State, i: nat)
    requires Inv(s) && i < MAX_PROCESSES
    ensures SlotOk(s, i) && WaitOk(s.table, i)
  {
  }

  /** find_process looks at pids and at whether slots are free, no more. */
  lemma SameSlot(t: Table, t': Table, pid: nat)
    requires forall i :: 0 <= i < MAX_PROCESSES ==> (Is(t'[i], pid) <==> Is(t[i], pid))
    ensures SlotOf(t', pid) == SlotOf(t, pid)
  {
    var i, j := SlotOf(t, pid), SlotOf(t', pid);
    assert i < MAX_PROCESSES ==> Is(t'[i], pid);
    assert j < MAX_PROCESSES ==> Is(t[j], pid);
  }

  /** The slot find_process returns is the only one with that pid. */
  lemma OnlySlot(s: State, pid: nat, i: nat)
    requires Inv(s) && i < MAX_PROCESSES && Is(s.table[i], pid)
    ensures SlotOf(s.table, pid) == i
  {
    assert SamePid(s.table, SlotOf(s.table, pid), i);
  }

  predicate Active(st: Status) { st == Ready || st == Running || st == Blocked }

  /** When an active process changes to ready or blocked, all is kept, unless it falls asleep in
      process_wait after its child's exit. */
  lemma MarkInv(s: State, i: nat, st: Status)
    requires Inv(s) && i < MAX_PROCESSES && Active(s.table[i].status) && (st == Ready || st == Blocked)
    requires st == Blocked ==> !Due(s.table, i)
    ensures Inv(s.(table := Mark(s.table, i, st)))
  {
    hide SlotFrom;
    var s' := s.(table := Mark(s.table, i, st));
    assert forall a, b :: SamePid(s'.table, a, b) ==> SamePid(s.table, a, b);
    SameSlot(s.table, s'.table, s.current);
    forall j | 0 <= j < MAX_PROCESSES ensures SlotOk(s', j) && WaitOk(s'.table, j) { At(s, j); }
  }

  lemma SwitchInv(s: State, r: nat)
    requires Inv(s) && r < MAX_PROCESSES && s.table[r].status == Ready
    requires forall i :: 0 <= i < MAX_PROCESSES ==> s.table[i].status != Running
    ensures Inv(s.(table := Mark(s.table, r, Running), current := s.table[r].pid))
  {
    hide SlotFrom;
    var s' := s.(table := Mark(s.table, r, Running), current := s.table[r].pid);
    assert forall a, b :: SamePid(s'.table, a, b) ==> SamePid(s.table, a, b);
    assert Is(s'.table[r], s'.current);
    forall j | 0 <= j < MAX_PROCESSES ensures SlotOk(s', j) && WaitOk(s'.table, j) { At(s, j); }
  }

  /** There is a current process, and no other one is running. */
  lemma CurrentOf(s: State)
    requires Inv(s)
    ensures SlotOf(s.table, s.current) < MAX_PROCESSES
    ensures forall i :: 0 <= i < MAX_PROCESSES && s.table[i].status == Running ==> i == SlotOf(s.table, s.current)
  {
    forall i | 0 <= i < MAX_PROCESSES && s.table[i].status == Running ensures i == SlotOf(s.table, s.current) {
      At(s, i);
      OnlySlot(s, s.current, i);
    }
  }

  lemma YieldInv(s: State)
    requires Inv(s)
    ensures Inv(Yield(s))
  {
    hide SlotFrom, PickFrom, Inv;
    var c, r := SlotOf(s.table, s.current), Pick(s.table, s.current);
    if s.enabled && r != MAX_PROCESSES && r != c {
      CurrentOf(s);
      var s1 := s.(table := SwitchedOut(s.table, c));
      if s.table[c].status == Running { MarkInv(s, c, Ready); }
      SwitchInv(s1, r);
    }
  }

  /** A process that is asleep when another one is switched to stays as it is. */
  lemma YieldAsleep(s: State, i: nat)
    requires i < MAX_PROCESSES && s.table[i].status != Ready && s.table[i].status != Running
    ensures Yield(s).table[i] == s.table[i]
  {
    hide SlotFrom, PickFrom;
  }

  lemma CreateInv(s: State, ok: bool)
    requires Inv(s)
    ensures Inv(Create(s, ok))
  {
    hide SlotFrom, FreeFrom;
    var f, s' := FreeFrom(s.table, 0), Create(s, ok);
    if f != MAX_PROCESSES {
      forall j | 0 <= j < MAX_PROCESSES ensures SlotOk(s', j) && WaitOk(s'.table, j) { At(s, j); }
      At(s, SlotOf(s.table, s.current));
      assert forall a, b :: SamePid(s'.table, a, b) && a != f && b != f ==> SamePid(s.table, a, b);
      assert forall j :: 0 <= j < MAX_PROCESSES && j != f && s.table[j].status != Free ==> SlotOk(s, j);
      SameSlot(s.table, s'.table, s.current);
    }
  }

  predicate MayExit(s: State) {
    Exits(s) && s.table[SlotOf(s.table, s.current)].point.Idle? && s.table[SlotOf(s.table, s.current)].status != Zombie
  }

  /** The table after an exit, slot by slot: the current process is a zombie, and its parent, if it
      slept, is ready. */
  lemma ExitingTable(s: State, code: int, i: nat)
    requires Inv(s) && MayExit(s) && i < MAX_PROCESSES
    ensures var c := SlotOf(s.table, s.current); var p, p' := s.table[i], Exiting(s, code).table[i];
      p' == if i == c then p.(status := Zombie, exitCode := code)
            else if p.pid == s.table[c].parent && p.status == Blocked then p.(status := Ready) else p
  {
    hide SlotFrom;
    var c := SlotOf(s.table, s.current);
    var t := s.table[c := s.table[c].(status := Zombie, exitCode := code)];
    SameSlot(s.table, t, t[c].parent);
    if s.table[i].status != Free && s.table[i].pid == t[c].parent { OnlySlot(s, t[c].parent, i); }
  }

  /** Only an exit makes a zombie, and it wakes the parent. */
  lemma ExitingInv(s: State, code: int)
    requires Inv(s) && MayExit(s)
    ensures Inv(Exiting(s, code))
  {
    hide SlotFrom, Exiting;
    var c, s' := SlotOf(s.table, s.current), Exiting(s, code);
    ExitingRest(s, code);
    forall i: nat | i < MAX_PROCESSES ensures WaitOk(s'.table, i) && SlotOk(s', i) {
      ExitingTable(s, code, i);
      if s.table[i].point.InWait? && s.table[i].point.slot < MAX_PROCESSES {
        ExitingTable(s, code, s.table[i].point.slot);
      }
      At(s, i);
      if s.table[i].status != Free && s.table[i].pid == s.current { OnlySlot(s, s.current, i); }
    }
    forall i, j | SamePid(s'.table, i, j) ensures i == j {
      ExitingTable(s, code, i);
      ExitingTable(s, code, j);
      assert SamePid(s.table, i, j);
    }
    forall i | 0 <= i < MAX_PROCESSES ensures Is(s'.table[i], s.current) <==> Is(s.table[i], s.current) {
      ExitingTable(s, code, i);
    }
    SameSlot(s.table, s'.table, s.current);
    At(s, c);
  }

  /** After an exit the process is a zombie with its code, and of those that slept exactly its parent is awake. */
  lemma ExitWakes(s: State, code: int)
    requires Inv(s) && MayExit(s)
    ensures var c, t := SlotOf(s.table, s.current), Exit(s, code).table;
      && t[c] == s.table[c].(status := Zombie, exitCode := code)
      && forall i :: 0 <= i < MAX_PROCESSES && i != c && s.table[i].status == Blocked ==>
           (t[i].status != Blocked <==> s.table[i].pid == s.table[c].parent)
  {
    hide SlotFrom, Yield, Exiting, Inv;
    var c, e := SlotOf(s.table, s.current), Exiting(s, code);
    ExitingTable(s, code, c);
    YieldAsleep(e, c);
    forall i: nat | i < MAX_PROCESSES && i != c && s.table[i].status == Blocked
      ensures Yield(e).table[i].status != Blocked <==> s.table[i].pid == s.table[c].parent
    {
      ExitingTable(s, code, i);
      YieldBlocked(e, i);
    }
  }

  /** A switch neither puts a process to sleep nor wakes one. */
  lemma YieldBlocked(s: State, i: nat)
    requires i < MAX_PROCESSES
    ensures Yield(s).table[i].status == Blocked <==> s.table[i].status == Blocked
  {
    hide SlotFrom, PickFrom;
  }

  lemma ExitingRest(s: State, code: int)
    requires Inv(s) && MayExit(s)
    ensures var s' := Exiting(s, code);
      s'.current == s.current && s'.next == s.next && s'.enabled == s.enabled
      && s'.exits == s.exits[s.current := code]
  {
    hide SlotFrom;
  }

  /** A process that goes inside process_wait with its child there. */
  lemma EnterInv(s: State, pid: nat)
    requires Inv(s) && SlotOf(s.table, pid) < MAX_PROCESSES && s.table[SlotOf(s.table, pid)].parent == s.current
    requires Active(s.table[SlotOf(s.table, s.current)].status)
    requires s.table[SlotOf(s.table, pid)].status != Zombie
    ensures Inv(Enter(s, pid))
  {
    hide SlotFrom;
    var s' := Enter(s, pid);
    assert forall a, b :: SamePid(s'.table, a, b) ==> SamePid(s.table, a, b);
    SameSlot(s.table, s'.table, s.current);
    forall j | 0 <= j < MAX_PROCESSES ensures SlotOk(s', j) && WaitOk(s'.table, j) { At(s, j); }
  }

  /** A zombie that its parent finds at once is cleared away. */
  lemma ReapInv(s: State, pid: nat)
    requires Inv(s) && SlotOf(s.table, pid) < MAX_PROCESSES && s.table[SlotOf(s.table, pid)].status == Zombie
    requires s.table[SlotOf(s.table, pid)].parent == s.current && s.table[SlotOf(s.table, s.current)].point.Idle?
    requires Active(s.table[SlotOf(s.table, s.current)].status)
    ensures Inv(Wait(s, pid)) && Wait(s, pid) == s.(table := Mark(s.table, SlotOf(s.table, pid), Free))
  {
    hide SlotFrom;
    var c, slot, s1 := SlotOf(s.table, s.current), SlotOf(s.table, pid), Enter(s, pid);
    SameSlot(s.table, s1.table, s.current);
    var s' := Wait(s, pid);
    assert s'.table == Mark(s.table, slot, Free);
    assert forall a, b :: SamePid(s'.table, a, b) ==> SamePid(s.table, a, b);
    assert SamePid(s.table, slot, c) || s.table[slot].pid != s.current;
    SameSlot(s.table, s'.table, s.current);
    forall i: nat | i < MAX_PROCESSES ensures WaitOk(s'.table, i) && SlotOk(s', i) {
      At(s, i);
      assert s.table[i].point.InWait? && s.table[i].point.slot == slot ==> SamePid(s.table, i, c);
    }
  }

  lemma CollectInv(s: State)
    requires Inv(s) && Collects(s)
    ensures Inv(Collect(s))
  {
    hide SlotFrom;
    var c := SlotOf(s.table, s.current);
    var slot := s.table[c].point.slot;
    var s' := Collect(s);
    At(s, c);
    assert c != slot;
    assert forall a, b :: SamePid(s'.table, a, b) ==> SamePid(s.table, a, b);
    assert SamePid(s.table, slot, c) || s.table[slot].pid != s.current;
    SameSlot(s.table, s'.table, s.current);
    forall i: nat | i < MAX_PROCESSES ensures WaitOk(s'.table, i) && SlotOk(s', i) {
      At(s, i);
      assert s.table[i].point.InWait? && s.table[i].point.slot == slot ==> SamePid(s.table, i, c);
    }
  }

  // ---- runs ----

  datatype Action =
    | DoCreate(ok: bool)
    | DoExit(code: int)
    | DoYield
    | DoWait(pid: nat)
    | DoResume          // the next turn of the loop of process_wait
    | DoBlock(pid: nat)
    | DoUnblock(pid: nat)

  function Step(s: State, a: Action): State {
    match a
    case DoCreate(ok) => Create(s, ok)
    case DoExit(code) => Exit(s, code)
    case DoYield => Yield(s)
    case DoWait(pid) => Wait(s, pid)
    case DoResume => Turn(s)
    case DoBlock(pid) => Block(s, pid)
    case DoUnblock(pid) => Unblock(s, pid)
  }

  /** The current process runs code of its own: it has not exited and is not inside process_wait. */
  predicate Acting(s: State) {
    var c := SlotOf(s.table, s.current);
    c < MAX_PROCESSES && Active(s.table[c].status) && s.table[c].point.Idle?
  }

  predicate Resuming(s: State) {
    var c := SlotOf(s.table, s.current);
    c < MAX_PROCESSES && Active(s.table[c].status) && s.table[c].point.InWait?
  }

  /** Only its parent waits for a process. */
  predicate WaitsForChild(s: State, pid: nat) {
    var i := SlotOf(s.table, pid);
    i < MAX_PROCESSES ==> s.table[i].parent == s.current
  }

  /** The process has not exited, and it does not sleep for a child that has. */
  predicate SafeBlock(s: State, pid: nat) {
    var i := SlotOf(s.table, pid);
    i < MAX_PROCESSES ==> s.table[i].status != Zombie && !Due(s.table, i)
  }

  predicate Enabled(s: State, a: Action) {
    match a
    case DoResume => Resuming(s)
    case DoWait(pid) => Acting(s) && WaitsForChild(s, pid)
    case DoBlock(pid) => Acting(s) && SafeBlock(s, pid)
    case _ => Acting(s)
  }

  function Run(s: State, steps: seq<Action>): State
    decreases |steps|
  {
    if steps == [] then s else Step(Run(s, steps[..|steps| - 1]), steps[|steps| - 1])
  }

  predicate Allowed(s: State, steps: seq<Action>)
    decreases |steps|
  {
    steps == [] || (Allowed(s, steps[..|steps| - 1]) && Enabled(Run(s, steps[..|steps| - 1]), steps[|steps| - 1]))
  }

  /** process_block does no harm exactly to processes that have not exited and do not sleep for a
      child that has. */
  lemma BlockExactly(s: State, pid: nat)
    requires Inv(s)
    ensures Inv(Block(s, pid)) <==> SafeBlock(s, pid)
  {
    hide SlotFrom;
    var i, s' := SlotOf(s.table, pid), Block(s, pid);
    if i < MAX_PROCESSES {
      At(s, i);
      if SafeBlock(s, pid) {
        MarkInv(s, i, Blocked);
      } else if Inv(s') {
        At(s', i);
      }
    }
  }

  lemma TurnInv(s: State)
    requires Inv(s) && Resuming(s)
    ensures Inv(Turn(s))
  {
    hide SlotFrom, Yield, Inv;
    if Collects(s) {
      CollectInv(s);
    } else {
      var c := SlotOf(s.table, s.current);
      MarkInv(s, c, Blocked);
      YieldInv(s.(table := Mark(s.table, c, Blocked)));
    }
  }

  lemma WaitInv(s: State, pid: nat)
    requires Inv(s) && Acting(s) && WaitsForChild(s, pid)
    ensures Inv(Wait(s, pid))
  {
    hide SlotFrom, Yield, Turn, Inv;
    var i := SlotOf(s.table, pid);
    if i < MAX_PROCESSES {
      if s.table[i].status == Zombie {
        ReapInv(s, pid);
      } else {
        EnterInv(s, pid);
        SameSlot(s.table, Enter(s, pid).table, s.current);
        TurnInv(Enter(s, pid));
      }
    }
  }

  /** Every call keeps the invariant. */
  lemma StepInv(s: State, a: Action)
    requires Inv(s) && Enabled(s, a)
    ensures Inv(Step(s, a))
  {
    hide SlotFrom, Inv, Wait, Turn, Create, Yield;
    match a
    case DoCreate(ok) => CreateInv(s, ok);
    case DoExit(code) => if Exits(s) { ExitingInv(s, code); YieldInv(Exiting(s, code)); }
    case DoYield => YieldInv(s);
    case DoWait(pid) => WaitInv(s, pid);
    case DoResume => TurnInv(s);
    case DoBlock(pid) => BlockExactly(s, pid);
    case DoUnblock(pid) => if SlotOf(s.table, pid) < MAX_PROCESSES && s.table[SlotOf(s.table, pid)].status == Blocked {
      MarkInv(s, SlotOf(s.table, pid), Ready);
    }
  }

  lemma InitInv()
    ensures Inv(Init())
  {
    assert Is(Init().table[0], 0);
  }

  lemma {:induction false} RunInv(s: State, steps: seq<Action>)
    requires Inv(s) && Allowed(s, steps)
    ensures Inv(Run(s, steps))
    decreases |steps|
  {
    hide Step, Enabled, Inv;
    if steps != [] {
      RunInv(s, steps[..|steps| - 1]);
      StepInv(Run(s, steps[..|steps| - 1]), steps[|steps| - 1]);
    }
  }
}
