/** Runs of file operations on the tree of a DoriFS volume: create and symlink enter an object,
    unlink takes one out, write and truncate store the contents of a file. */
module DorifsRuns {
  import opened Bits
  import opened DorifsRecords
  import opened DorifsTree
  import opened DorifsView
  import opened DorifsDirs
  import opened Helpers

  datatype TreeOp =
    | Enter(parent: nat, name: seq<byte>, ino: nat, obj: Obj)
    | Leave(parent: nat, name: seq<byte>)
    | Store(ino: nat, data: seq<byte>)

  /** An object is entered under a name and an inode number that are not in use, a directory without entries. */
  ghost predicate Possible(t: Tree, op: TreeOp) {
    match op
    case Enter(p, name, ino, o) =>
      && p in t && t[p].Dir? && Find(t[p].entries, name) == |t[p].entries|
      && ino !in t && (o.Dir? ==> o.entries == [])
    case Leave(p, _) => p in t && t[p].Dir?
    case Store(ino, _) => ino in t && t[ino].File?
  }

  function StepTree(t: Tree, op: TreeOp): Tree {
    match op
    case Enter(p, name, ino, o) => AddObj(t, p, name, ino, o)
    case Leave(p, name) => RemoveObj(t, p, Find(EntriesIn(t, p), name))
    case Store(ino, data) => t[ino := File(data)]
  }

  ghost predicate PossibleRun(t: Tree, ops: seq<TreeOp>)
    decreases |ops|
  {
    ops == [] || (Possible(t, ops[0]) && PossibleRun(StepTree(t, ops[0]), ops[1..]))
  }

  function RunTree(t: Tree, ops: seq<TreeOp>): Tree
    decreases |ops|
  {
    if ops == [] then t else RunTree(StepTree(t, ops[0]), ops[1..])
  }

  // ---- trees in order ----

  function EntryAt(t: Tree, d: nat, k: nat): Entry {
    if k < |EntriesIn(t, d)| then EntriesIn(t, d)[k] else Gone
  }

  /** Slot k of directory d names the inode. */
  predicate Names(t: Tree, d: nat, k: nat, ino: nat) {
    RefersTo(EntryAt(t, d, k), ino)
  }

  /** No two entries name the same inode. */
  ghost predicate Single(t: Tree) {
    forall d: nat, k: nat, d': nat, k': nat, ino: nat ::
      Names(t, d, k, ino) && Names(t, d', k', ino) ==> d == d' && k == k'
  }

  ghost predicate Sound(t: Tree) {
    Closed(t) && Single(t) && forall d: nat :: Distinct(EntriesIn(t, d))
  }

  /** The tree of a consistent volume is in order. */
  lemma SoundTree(d: Disk, sb: Superblock, bm: seq<byte>, owner: Owner, refs: Refs)
    requires Consistent(d, sb, bm, owner, refs)
    ensures Sound(TreeOf(d))
  {
    hide Consistent, TreeOf, Nodes, NodeOf, InodeAt, Entries, Distinct, Mapped, Slots;
    TreeClosed(d, sb, bm, owner, refs);
    var t := TreeOf(d);
    forall i: nat, k: nat, ino: nat | Names(t, i, k, ino) ensures ino in refs && refs[ino] == (i, k) {
      DirFacts(d, sb, bm, owner, refs, i);
    }
    forall i: nat ensures Distinct(EntriesIn(t, i)) {
      if i in t && t[i].Dir? { DirFacts(d, sb, bm, owner, refs, i); } else { NoneDistinct(); }
    }
  }

  lemma NoneDistinct()
    ensures Distinct([])
  {
  }

  lemma NamesInTree(t: Tree, d: nat, k: nat, ino: nat)
    requires Closed(t) && Names(t, d, k, ino)
    ensures d in t && t[d].Dir? && k < |t[d].entries| && ino in t && ino != ROOT && ino != d
  {
  }

  // ---- one step, seen from each directory ----

  /** What an operation is for directory d. */
  function OpOn(op: TreeOp, d: nat): Option<DirOp> {
    match op
    case Enter(p, name, ino, o) => if p == d then Some(Add(name, ino, TypeCode(o))) else None
    case Leave(p, name) => if p == d then Some(DirOp.Remove(name)) else None
    case Store(_, _) => None
  }

  /** A directory that stays in the tree changes by the operations on itself alone. */
  lemma EntriesStep(t: Tree, op: TreeOp, d: nat)
    requires Sound(t) && Possible(t, op)
    requires d in t && t[d].Dir? && d in StepTree(t, op)
    ensures StepTree(t, op)[d].Dir?
    ensures match OpOn(op, d)
      case Some(dop) => Allowed(EntriesIn(t, d), dop) && EntriesIn(StepTree(t, op), d) == Step(EntriesIn(t, d), dop)
      case None => EntriesIn(StepTree(t, op), d) == EntriesIn(t, d)
  {
    hide Single, Distinct;
  }

  /** The entry that unlink finds, and the inode it names. */
  predicate Target(t: Tree, p: nat, name: seq<byte>, ino: nat) {
    Names(t, p, Find(EntriesIn(t, p), name), ino)
  }

  /** Which entries there are after a step. */
  lemma NamesStep(t: Tree, op: TreeOp, d: nat, k: nat, x: nat)
    requires Sound(t) && Possible(t, op)
    ensures Names(StepTree(t, op), d, k, x) <==>
      match op
      case Enter(p, _, ino, _) => Names(t, d, k, x) || (d == p && k == |EntriesIn(t, p)| && x == ino)
      case Leave(p, name) =>
        && Names(t, d, k, x) && !(d == p && k == Find(EntriesIn(t, p), name)) && !Target(t, p, name, d)
      case Store(_, _) => Names(t, d, k, x)
  {
    hide Single, Distinct;
    match op
    case Enter(p, name, ino, o) =>
      assert !Names(t, ino, k, x);
      assert d != p && d != ino ==> EntriesIn(StepTree(t, op), d) == EntriesIn(t, d);
    case Leave(p, name) =>
    case Store(ino, data) =>
  }

  /** Every operation keeps the tree in order. */
  lemma StepSound(t: Tree, op: TreeOp)
    requires Sound(t) && Possible(t, op)
    ensures Sound(StepTree(t, op))
  {
    StepClosed(t, op);
    StepSingle(t, op);
    StepDistinct(t, op);
    hide Closed, Single, Distinct, Possible, StepTree;
  }

  lemma StepClosed(t: Tree, op: TreeOp)
    requires Sound(t) && Possible(t, op)
    ensures Closed(StepTree(t, op))
  {
    hide Distinct;
    var t' := StepTree(t, op);
    forall d, k | d in t' && t'[d].Dir? && 0 <= k < |t'[d].entries| && t'[d].entries[k].Live?
      ensures t'[d].entries[k].ino in t' && t'[d].entries[k].ino != ROOT && t'[d].entries[k].ino != d
    {
      var x := t'[d].entries[k].ino;
      NamesStep(t, op, d, k, x);
      assert Names(t', d, k, x);
      KeysStep(t, op, x);
      if Names(t, d, k, x) { NamesInTree(t, d, k, x); }
    }
    RootStays(t, op);
  }

  lemma RootStays(t: Tree, op: TreeOp)
    requires Sound(t) && Possible(t, op)
    ensures ROOT in StepTree(t, op) && StepTree(t, op)[ROOT].Dir?
  {
    hide Single, Distinct;
  }

  lemma StepSingle(t: Tree, op: TreeOp)
    requires Sound(t) && Possible(t, op)
    ensures Single(StepTree(t, op))
  {
    hide Distinct;
    var t' := StepTree(t, op);
    forall d: nat, k: nat, d': nat, k': nat, x: nat | Names(t', d, k, x) && Names(t', d', k', x)
      ensures d == d' && k == k'
    {
      NamesStep(t, op, d, k, x);
      NamesStep(t, op, d', k', x);
      if Names(t, d, k, x) { NamesInTree(t, d, k, x); }
      if Names(t, d', k', x) { NamesInTree(t, d', k', x); }
    }
  }

  lemma StepDistinct(t: Tree, op: TreeOp)
    requires Sound(t) && Possible(t, op)
    ensures forall d: nat :: Distinct(EntriesIn(StepTree(t, op), d))
  {
    hide Single, Closed;
    var t' := StepTree(t, op);
    forall d: nat ensures Distinct(EntriesIn(t', d)) {
      if d in t && t[d].Dir? && d in t' {
        EntriesStep(t, op, d);
        if OpOn(op, d).Some? { StepRefines(EntriesIn(t, d), OpOn(op, d).value); }
      } else {
        NoneDistinct();
      }
    }
  }

  /** Every run keeps the tree in order. */
  lemma {:induction false} RunSound(t: Tree, ops: seq<TreeOp>)
    requires Sound(t) && PossibleRun(t, ops)
    ensures Sound(RunTree(t, ops))
    decreases |ops|
  {
    if ops != [] {
      StepSound(t, ops[0]);
      RunSound(StepTree(t, ops[0]), ops[1..]);
    }
  }

  // ---- a directory over a run ----

  /** Directory d is in the tree all through the run. */
  ghost predicate Stays(t: Tree, ops: seq<TreeOp>, d: nat)
    decreases |ops|
  {
    d in t && t[d].Dir? && (ops == [] || Stays(StepTree(t, ops[0]), ops[1..], d))
  }

  /** The operations of the run on directory d. */
  function OpsOn(ops: seq<TreeOp>, d: nat): seq<DirOp> {
    if ops == [] then []
    else match OpOn(ops[0], d)
      case Some(dop) => [dop] + OpsOn(ops[1..], d)
      case None => OpsOn(ops[1..], d)
  }

  /** Over any run of file operations a directory is the map from names to inodes, and its listing
      the list, that its own creates and unlinks make. */
  lemma {:induction false} DirectoryRefines(t: Tree, ops: seq<TreeOp>, d: nat)
    requires Sound(t) && PossibleRun(t, ops) && Stays(t, ops, d)
    ensures var es, es', dops := EntriesIn(t, d), EntriesIn(RunTree(t, ops), d), OpsOn(ops, d);
      && es' == Run(es, dops) && AllowedRun(es, dops)
      && NameMap(es') == RunMap(NameMap(es), dops)
      && LiveOf(es') == RunList(LiveOf(es), dops)
  {
    EntriesRun(t, ops, d);
    RunRefines(EntriesIn(t, d), OpsOn(ops, d));
  }

  lemma {:induction false} EntriesRun(t: Tree, ops: seq<TreeOp>, d: nat)
    requires Sound(t) && PossibleRun(t, ops) && Stays(t, ops, d)
    ensures AllowedRun(EntriesIn(t, d), OpsOn(ops, d))
    ensures EntriesIn(RunTree(t, ops), d) == Run(EntriesIn(t, d), OpsOn(ops, d))
    decreases |ops|
  {
    hide Sound, Possible, StepTree, Step, Allowed, EntriesIn;
    if ops != [] {
      EntriesStep(t, ops[0], d);
      StepSound(t, ops[0]);
      EntriesRun(StepTree(t, ops[0]), ops[1..], d);
      if OpOn(ops[0], d).Some? {
        assert OpsOn(ops, d)[1..] == OpsOn(ops[1..], d);
      }
    }
  }

  // ---- objects that no entry names ----

  ghost predicate Named(t: Tree, x: nat) {
    exists d: nat, k: nat :: Names(t, d, k, x)
  }

  /** Every inode in use other than the root has its entry. */
  ghost predicate NoOrphans(t: Tree) {
    forall x: nat :: x in t && x != ROOT ==> Named(t, x)
  }

  /** Unlink would leave nothing behind: what it takes out has no live entries of its own. */
  ghost predicate Spares(t: Tree, op: TreeOp) {
    op.Leave? ==> forall x, k, y: nat :: Target(t, op.parent, op.name, x) ==> !Names(t, x, k, y)
  }

  /** An operation keeps every inode named exactly when it does not unlink a directory that has
      entries. */
  lemma OrphansStep(t: Tree, op: TreeOp)
    requires Sound(t) && Possible(t, op) && NoOrphans(t)
    ensures NoOrphans(StepTree(t, op)) <==> Spares(t, op)
  {
    hide Distinct, StepTree;
    var t' := StepTree(t, op);
    if Spares(t, op) {
      forall x: nat | x in t' && x != ROOT ensures Named(t', x) { StaysNamed(t, op, x); }
    } else {
      var x, k, y :| Target(t, op.parent, op.name, x) && Names(t, x, k, y);
      LeftBehind(t, op, x, k, y);
    }
  }

  /** The inode that an operation takes out, if any, and the one it brings in. */
  lemma KeysStep(t: Tree, op: TreeOp, x: nat)
    requires Possible(t, op)
    ensures x in StepTree(t, op) <==>
      match op
      case Enter(p, _, ino, _) => x in t || x == ino
      case Leave(p, name) => x in t && !Target(t, p, name, x)
      case Store(_, _) => x in t
  {
  }

  lemma StaysNamed(t: Tree, op: TreeOp, x: nat)
    requires Sound(t) && Possible(t, op) && NoOrphans(t) && Spares(t, op)
    requires x in StepTree(t, op) && x != ROOT
    ensures Named(StepTree(t, op), x)
  {
    KeysStep(t, op, x);
    hide Distinct, StepTree, Closed, Single;
    if op.Enter? && x == op.ino {
      NamesStep(t, op, op.parent, |EntriesIn(t, op.parent)|, x);
    } else {
      var d: nat, k: nat :| Names(t, d, k, x);
      NamesStep(t, op, d, k, x);
    }
  }

  lemma LeftBehind(t: Tree, op: TreeOp, x: nat, k: nat, y: nat)
    requires Sound(t) && Possible(t, op) && op.Leave? && Target(t, op.parent, op.name, x) && Names(t, x, k, y)
    ensures y in StepTree(t, op) && y != ROOT && !Named(StepTree(t, op), y)
  {
    NamesInTree(t, x, k, y);
    KeysStep(t, op, y);
    hide Distinct, StepTree, Closed;
    forall d: nat, j: nat ensures !Names(StepTree(t, op), d, j, y) {
      NamesStep(t, op, d, j, y);
    }
  }

  /** What no entry names stays in the tree, unnamed, through every run. */
  lemma {:induction false} OrphanForever(t: Tree, ops: seq<TreeOp>, x: nat)
    requires Sound(t) && PossibleRun(t, ops) && x in t && !Named(t, x)
    ensures x in RunTree(t, ops) && !Named(RunTree(t, ops), x)
    decreases |ops|
  {
    if ops != [] {
      OrphanStays(t, ops[0], x);
      StepSound(t, ops[0]);
      OrphanForever(StepTree(t, ops[0]), ops[1..], x);
    }
  }

  lemma OrphanStays(t: Tree, op: TreeOp, x: nat)
    requires Sound(t) && Possible(t, op) && x in t && !Named(t, x)
    ensures x in StepTree(t, op) && !Named(StepTree(t, op), x)
  {
    KeysStep(t, op, x);
    hide Distinct, StepTree, Closed, Single;
    forall d: nat, k: nat ensures !Names(StepTree(t, op), d, k, x) {
      NamesStep(t, op, d, k, x);
    }
  }

  ghost predicate SparesAll(t: Tree, ops: seq<TreeOp>)
    decreases |ops|
  {
    ops == [] || (Spares(t, ops[0]) && SparesAll(StepTree(t, ops[0]), ops[1..]))
  }

  /** After a run every inode in use has its entry exactly when the run unlinked no directory
      that had entries. */
  lemma {:induction false} OrphansExactly(t: Tree, ops: seq<TreeOp>)
    requires Sound(t) && PossibleRun(t, ops) && NoOrphans(t)
    ensures NoOrphans(RunTree(t, ops)) <==> SparesAll(t, ops)
    decreases |ops|
  {
    hide Spares, StepTree, Sound, Possible, NoOrphans;
    if ops != [] {
      var t1 := StepTree(t, ops[0]);
      OrphansStep(t, ops[0]);
      StepSound(t, ops[0]);
      if NoOrphans(t1) {
        OrphansExactly(t1, ops[1..]);
      } else {
        var x := AnOrphan(t1);
        OrphanForever(t1, ops[1..], x);
        RunSound(t1, ops[1..]);
        IsOrphaned(RunTree(t1, ops[1..]), x);
      }
    }
  }

  lemma AnOrphan(t: Tree) returns (x: nat)
    requires !NoOrphans(t)
    ensures x in t && x != ROOT && !Named(t, x)
  {
    x :| x in t && x != ROOT && !Named(t, x);
  }

  lemma IsOrphaned(t: Tree, x: nat)
    requires x in t && x != ROOT && !Named(t, x)
    ensures !NoOrphans(t)
  {
  }

  // ---- the calls as operations ----

  /** A successful create or symlink is an operation, and keeps every inode named. */
  lemma EnterKeeps(d: Disk, sb: Superblock, bm: seq<byte>, owner: Owner, refs: Refs,
                   p: nat, name: seq<byte>, ino: nat, o: Obj)
    requires Consistent(d, sb, bm, owner, refs)
    requires RoomFor(TreeOf(d), p, name) && IsLowestFree(TreeOf(d), ino) && (o.Dir? ==> o.entries == [])
    ensures Sound(TreeOf(d)) && Possible(TreeOf(d), Enter(p, name, ino, o))
    ensures AddObj(TreeOf(d), p, name, ino, o) == StepTree(TreeOf(d), Enter(p, name, ino, o))
    ensures NoOrphans(TreeOf(d)) ==> NoOrphans(AddObj(TreeOf(d), p, name, ino, o))
  {
    hide Consistent, TreeOf, Sound, NoOrphans, AddObj;
    SoundTree(d, sb, bm, owner, refs);
    if NoOrphans(TreeOf(d)) { OrphansStep(TreeOf(d), Enter(p, name, ino, o)); }
  }

  /** So is every unlink, which keeps every inode named unless it takes out a directory that has
      entries. */
  lemma LeaveKeeps(d: Disk, sb: Superblock, bm: seq<byte>, owner: Owner, refs: Refs, p: nat, name: seq<byte>)
    requires Consistent(d, sb, bm, owner, refs) && p in TreeOf(d) && TreeOf(d)[p].Dir?
    ensures Sound(TreeOf(d)) && Possible(TreeOf(d), Leave(p, name))
    ensures NoOrphans(TreeOf(d)) ==>
      (NoOrphans(StepTree(TreeOf(d), Leave(p, name))) <==> Spares(TreeOf(d), Leave(p, name)))
  {
    hide Consistent, TreeOf, Sound, NoOrphans, StepTree, Spares;
    SoundTree(d, sb, bm, owner, refs);
    if NoOrphans(TreeOf(d)) { OrphansStep(TreeOf(d), Leave(p, name)); }
  }

  /** A fresh volume holds the root alone, so that the theorems on runs apply to it. */
  lemma FreshTree()
    ensures Sound(map[ROOT := Dir([])]) && NoOrphans(map[ROOT := Dir([])])
  {
  }

  lemma EnterFirst(t: Tree, p: nat, name: seq<byte>, ino: nat, o: Obj)
    requires p in t && t[p] == Dir([]) && ino !in t && (o.Dir? ==> o.entries == [])
    ensures Possible(t, Enter(p, name, ino, o))
    ensures StepTree(t, Enter(p, name, ino, o)) == t[ino := o][p := Dir([Live(name, ino, TypeCode(o))])]
  {
    assert [] + [Live(name, ino, TypeCode(o))] == [Live(name, ino, TypeCode(o))];
  }

  lemma LeaveOnly(t: Tree, p: nat, name: seq<byte>, ino: nat, typ: nat)
    requires p in t && t[p] == Dir([Live(name, ino, typ)])
    ensures Possible(t, Leave(p, name)) && StepTree(t, Leave(p, name)) == t[p := Dir([Gone])] - {ino}
  {
    assert [Live(name, ino, typ)][0 := Gone] == [Gone];
  }

  lemma RunOfThree(t: Tree, o1: TreeOp, o2: TreeOp, o3: TreeOp)
    requires Possible(t, o1) && Possible(StepTree(t, o1), o2) && Possible(StepTree(StepTree(t, o1), o2), o3)
    ensures PossibleRun(t, [o1, o2, o3])
    ensures RunTree(t, [o1, o2, o3]) == StepTree(StepTree(StepTree(t, o1), o2), o3)
  {
    hide Possible, StepTree;
    var t1 := StepTree(t, o1);
    var t2 := StepTree(t1, o2);
    assert [o1, o2, o3][1..] == [o2, o3] && [o2, o3][1..] == [o3] && [o3][1..] == [];
    assert RunTree(t2, [o3]) == RunTree(StepTree(t2, o3), []) && RunTree(t1, [o2, o3]) == RunTree(t2, [o3]);
    assert PossibleRun(StepTree(t2, o3), []);
    assert PossibleRun(t2, [o3]);
    assert PossibleRun(t1, [o2, o3]);
  }

  /** mkdir a, create a/b, unlink a: the file b is left without an entry. */
  lemma OrphanInstance(a: seq<byte>, b: seq<byte>)
    ensures var ops := [Enter(ROOT, a, 2, Dir([])), Enter(2, b, 3, File([])), Leave(ROOT, a)];
      && PossibleRun(map[ROOT := Dir([])], ops)
      && RunTree(map[ROOT := Dir([])], ops) == map[ROOT := Dir([Gone]), 3 := File([])]
  {
    hide StepTree, Possible, RunTree, PossibleRun;
    var t0: Tree := map[ROOT := Dir([])];
    EnterFirst(t0, ROOT, a, 2, Dir([]));
    var t1 := StepTree(t0, Enter(ROOT, a, 2, Dir([])));
    EnterFirst(t1, 2, b, 3, File([]));
    var t2 := StepTree(t1, Enter(2, b, 3, File([])));
    LeaveOnly(t2, ROOT, a, 2, 2);
    RunOfThree(t0, Enter(ROOT, a, 2, Dir([])), Enter(2, b, 3, File([])), Leave(ROOT, a));
  }
}
