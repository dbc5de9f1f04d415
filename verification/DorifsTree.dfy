/** The tree a DoriFS disk stands for: files as byte strings, directories as entry lists. */
module DorifsTree {
  import opened Bits

  datatype Entry = Gone | Live(name: seq<byte>, ino: nat, typ: nat)

  datatype Obj = File(data: seq<byte>) | Dir(entries: seq<Entry>) | Link(target: seq<byte>)

  type Tree = map<nat, Obj>

  // ---- files ----

  /** `data` with `src` written over it from `off`, extended where it reaches beyond the end. */
  function Splice(data: seq<byte>, off: nat, src: seq<byte>): (r: seq<byte>)
    requires off <= |data|
    ensures |r| == if off + |src| > |data| then off + |src| else |data|
  {
    data[..off] + src + if off + |src| < |data| then data[off + |src|..] else []
  }

  // ---- directories ----

  ghost predicate Distinct(es: seq<Entry>) {
    forall i, j :: 0 <= i < j < |es| && es[i].Live? && es[j].Live? ==> es[i].name != es[j].name
  }

  /** The first live slot from k on with this name, or |es|. */
  function FindFrom(es: seq<Entry>, name: seq<byte>, k: nat): (r: nat)
    requires k <= |es|
    ensures k <= r <= |es|
    ensures r < |es| ==> es[r].Live? && es[r].name == name
    ensures forall j :: k <= j < r ==> !(es[j].Live? && es[j].name == name)
    decreases |es| - k
  {
    if k == |es| || (es[k].Live? && es[k].name == name) then k else FindFrom(es, name, k + 1)
  }

  function Find(es: seq<Entry>, name: seq<byte>): (r: nat)
    ensures r <= |es| && (r < |es| ==> es[r].Live? && es[r].name == name)
  {
    FindFrom(es, name, 0)
  }

  /** The live entries, in creation order. */
  function LiveOf(es: seq<Entry>): seq<Entry> {
    if es == [] then [] else
      var front := LiveOf(es[..|es| - 1]);
      if es[|es| - 1].Live? then front + [es[|es| - 1]] else front
  }

  /** What a directory means: names to inodes. */
  ghost function NameMap(es: seq<Entry>): map<seq<byte>, nat> {
    if es == [] then map[] else
      var front := NameMap(es[..|es| - 1]);
      if es[|es| - 1].Live? then front[es[|es| - 1].name := es[|es| - 1].ino] else front
  }

  lemma LiveOfNone(es: seq<Entry>)
    ensures LiveOf(es[..0]) == []
  {
  }

  lemma LiveOfStep(es: seq<Entry>, k: nat)
    requires k < |es|
    ensures LiveOf(es[..k + 1]) == LiveOf(es[..k]) + if es[k].Live? then [es[k]] else []
  {
    assert es[..k + 1][..k] == es[..k];
  }

  lemma {:induction false} LiveOfPrefix(es: seq<Entry>, k: nat)
    requires k <= |es|
    ensures LiveOf(es[..k]) <= LiveOf(es)
    decreases |es| - k
  {
    if k < |es| {
      LiveOfPrefix(es, k + 1);
      LiveOfStep(es, k);
    } else {
      assert es[..k] == es;
    }
  }

  // ---- a directory is a finite map, listed in creation order ----

  lemma {:induction false} FindTail(es: seq<Entry>, e: Entry, name: seq<byte>, k: nat)
    requires k <= |es|
    ensures FindFrom(es + [e], name, k) ==
      if FindFrom(es, name, k) < |es| then FindFrom(es, name, k)
      else if e.Live? && e.name == name then |es| else |es| + 1
    decreases |es| - k
  {
    if k < |es| {
      assert (es + [e])[k] == es[k];
      FindTail(es, e, name, k + 1);
    }
  }

  /** Looking a name up in the entries is looking it up in the map. */
  lemma {:induction false} FindIsLookup(es: seq<Entry>, name: seq<byte>)
    requires Distinct(es)
    ensures name in NameMap(es) <==> Find(es, name) < |es|
    ensures name in NameMap(es) ==> es[Find(es, name)].ino == NameMap(es)[name]
  {
    if es != [] {
      var front, e := es[..|es| - 1], es[|es| - 1];
      assert es == front + [e];
      FindIsLookup(front, name);
      FindTail(front, e, name, 0);
    }
  }

  lemma NameMapAdd(es: seq<Entry>, name: seq<byte>, ino: nat, typ: nat)
    ensures NameMap(es + [Live(name, ino, typ)]) == NameMap(es)[name := ino]
    ensures LiveOf(es + [Live(name, ino, typ)]) == LiveOf(es) + [Live(name, ino, typ)]
  {
    assert (es + [Live(name, ino, typ)])[..|es|] == es;
  }

  /** The entries of a list other than those of this name. */
  function Others(live: seq<Entry>, name: seq<byte>): seq<Entry> {
    if live == [] then [] else
      var front := Others(live[..|live| - 1], name);
      var e := live[|live| - 1];
      if e.Live? && e.name == name then front else front + [e]
  }

  lemma OthersTail(live: seq<Entry>, e: Entry, name: seq<byte>)
    ensures Others(live + [e], name) == Others(live, name) + if e.Live? && e.name == name then [] else [e]
  {
    assert (live + [e])[..|live|] == live;
  }

  /** Without an entry of the name nothing is left out. */
  lemma {:induction false} OthersNone(es: seq<Entry>, name: seq<byte>)
    requires forall i :: 0 <= i < |es| ==> !(es[i].Live? && es[i].name == name)
    ensures Others(LiveOf(es), name) == LiveOf(es) && name !in NameMap(es)
  {
    if es != [] {
      var front, e := es[..|es| - 1], es[|es| - 1];
      OthersNone(front, name);
      if e.Live? { OthersTail(LiveOf(front), e, name); }
    }
  }

  /** Turning the entry of a name into a tombstone deletes the name from the map, and from the
      listing nothing else. */
  lemma {:induction false} Tombstone(es: seq<Entry>, name: seq<byte>, k: nat)
    requires Distinct(es) && k < |es| && es[k].Live? && es[k].name == name
    ensures NameMap(es[k := Gone]) == NameMap(es) - {name}
    ensures LiveOf(es[k := Gone]) == Others(LiveOf(es), name)
  {
    var front, e := es[..|es| - 1], es[|es| - 1];
    assert es[k := Gone][..|es| - 1] == if k < |front| then front[k := Gone] else front;
    if k < |front| {
      Tombstone(front, name, k);
      if e.Live? { OthersTail(LiveOf(front), e, name); }
    } else {
      OthersNone(front, name);
      OthersTail(LiveOf(front), e, name);
    }
  }

  /** What create and symlink (Add) and unlink (Remove) do to one directory. */
  datatype DirOp = Add(name: seq<byte>, ino: nat, typ: nat) | Remove(name: seq<byte>)

  /** A name is added only when it is absent; unlink of an absent name changes nothing. */
  predicate Allowed(es: seq<Entry>, op: DirOp) {
    op.Add? ==> Find(es, op.name) == |es|
  }

  function Step(es: seq<Entry>, op: DirOp): seq<Entry> {
    match op
    case Add(name, ino, typ) => es + [Live(name, ino, typ)]
    case Remove(name) => if Find(es, name) < |es| then es[Find(es, name) := Gone] else es
  }

  ghost predicate AllowedRun(es: seq<Entry>, ops: seq<DirOp>)
    decreases |ops|
  {
    ops == [] || (Allowed(es, ops[0]) && AllowedRun(Step(es, ops[0]), ops[1..]))
  }

  function Run(es: seq<Entry>, ops: seq<DirOp>): seq<Entry>
    decreases |ops|
  {
    if ops == [] then es else Run(Step(es, ops[0]), ops[1..])
  }

  /** The same operations on a map and on a plain list. */
  ghost function StepMap(m: map<seq<byte>, nat>, op: DirOp): map<seq<byte>, nat> {
    match op case Add(name, ino, _) => m[name := ino] case Remove(name) => m - {name}
  }

  function StepList(live: seq<Entry>, op: DirOp): seq<Entry> {
    match op case Add(name, ino, typ) => live + [Live(name, ino, typ)] case Remove(name) => Others(live, name)
  }

  ghost function RunMap(m: map<seq<byte>, nat>, ops: seq<DirOp>): map<seq<byte>, nat>
    decreases |ops|
  {
    if ops == [] then m else RunMap(StepMap(m, ops[0]), ops[1..])
  }

  function RunList(live: seq<Entry>, ops: seq<DirOp>): seq<Entry>
    decreases |ops|
  {
    if ops == [] then live else RunList(StepList(live, ops[0]), ops[1..])
  }

  lemma StepRefines(es: seq<Entry>, op: DirOp)
    requires Distinct(es) && Allowed(es, op)
    ensures Distinct(Step(es, op))
    ensures NameMap(Step(es, op)) == StepMap(NameMap(es), op)
    ensures LiveOf(Step(es, op)) == StepList(LiveOf(es), op)
  {
    match op
    case Add(name, ino, typ) => NameMapAdd(es, name, ino, typ);
    case Remove(name) =>
      if Find(es, name) < |es| { Tombstone(es, name, Find(es, name)); } else { OthersNone(es, name); }
  }

  /** After any run of operations the directory is the map, and its listing the list, that the
      same operations make. */
  lemma {:induction false} RunRefines(es: seq<Entry>, ops: seq<DirOp>)
    requires Distinct(es) && AllowedRun(es, ops)
    ensures Distinct(Run(es, ops))
    ensures NameMap(Run(es, ops)) == RunMap(NameMap(es), ops)
    ensures LiveOf(Run(es, ops)) == RunList(LiveOf(es), ops)
    decreases |ops|
  {
    if ops != [] {
      StepRefines(es, ops[0]);
      RunRefines(Step(es, ops[0]), ops[1..]);
    }
  }

  // ---- writing is replacing ----

  /** Byte i of the result of a write. */
  lemma SpliceAt(data: seq<byte>, off: nat, src: seq<byte>, i: nat)
    requires off <= |data| && i < |Splice(data, off, src)|
    ensures Splice(data, off, src)[i] == if off <= i < off + |src| then src[i - off] else data[i]
  {
  }

  /** A write in two parts is the write of the whole. */
  lemma SpliceSplit(data: seq<byte>, off: nat, a: seq<byte>, b: seq<byte>)
    requires off <= |data|
    ensures Splice(Splice(data, off, a), off + |a|, b) == Splice(data, off, a + b)
  {
  }
}
