/** Path resolution of kernel/vfs.c, over the tree of a file system. */
module VfsPath {
  import opened Bits
  import opened DorifsRecords
  import opened DorifsTree
  import opened DorifsDirs

  const SLASH: byte := 47
  const MAX_COMPONENT := 255

  type Path = seq<byte>

  // ---- components ----

  function SkipSlashes(p: Path): (r: Path)
    ensures |r| <= |p| && (r != [] ==> r[0] != SLASH)
  {
    if p != [] && p[0] == SLASH then SkipSlashes(p[1..]) else p
  }

  /** The length of the component at the front, at most n. */
  function NameLength(p: Path, n: nat): (k: nat)
    ensures k <= n && k <= |p|
    ensures forall i :: 0 <= i < k ==> p[i] != SLASH
    ensures k == n || k == |p| || p[k] == SLASH
    decreases n
  {
    if n == 0 || p == [] || p[0] == SLASH then 0 else 1 + NameLength(p[1..], n - 1)
  }

  /** path_next_component: the component, and what follows it. */
  function Component(p: Path): (c: Path) {
    var q := SkipSlashes(p); q[..NameLength(q, MAX_COMPONENT)]
  }

  function Remainder(p: Path): (r: Path)
    ensures |r| <= |p| && (Component(p) != [] ==> |r| < |p|)
  {
    var q := SkipSlashes(p); q[NameLength(q, MAX_COMPONENT)..]
  }

  /** path_next_component skips slashes and takes what comes up to the next one, but at most 255 bytes. */
  method NextComponent(path: Path) returns (component: Path, rest: Path)
    ensures component == Component(path) && rest == Remainder(path)
    ensures Cuts(path, component, rest)
  {
    hide SkipSlashes, NameLength;
    rest := path;
    while rest != [] && rest[0] == SLASH
      invariant SkipSlashes(path) == SkipSlashes(rest)
      decreases |rest|
    {
      SkipStep(rest);
      rest := rest[1..];
    }
    SkipNone(rest);
    component := [];
    ghost var q, n := rest, NameLength(rest, MAX_COMPONENT);
    while rest != [] && rest[0] != SLASH && |component| < MAX_COMPONENT
      invariant |component| <= MAX_COMPONENT && |component| <= |q|
      invariant component == q[..|component|] && rest == q[|component|..]
      invariant n == |component| + NameLength(rest, MAX_COMPONENT - |component|)
      decreases |rest|
    {
      NameStep(rest, MAX_COMPONENT - |component|);
      component, rest := component + [rest[0]], rest[1..];
    }
    NameNone(rest, MAX_COMPONENT - |component|);
    ComponentCuts(path);
  }

  /** The path is some slashes, the component c and then r; c goes on to the next slash, the end or 255 bytes. */
  ghost predicate Cuts(p: Path, c: Path, r: Path) {
    var n := |p| - |c| - |r|;
    && 0 <= n && p == p[..n] + c + r
    && (forall i :: 0 <= i < n ==> p[i] == 47)
    && (forall i :: 0 <= i < |c| ==> c[i] != 47)
    && (|c| == 255 || (|c| < 255 && (r == [] || r[0] == 47)))
    && (c == [] ==> r == [])
  }

  lemma ComponentCuts(p: Path)
    ensures Cuts(p, Component(p), Remainder(p))
  {
    hide SkipSlashes, NameLength;
    SkippedSlashes(p);
    var q := SkipSlashes(p);
    var n, k := |p| - |q|, NameLength(q, MAX_COMPONENT);
    assert p == p[..n] + q && q == q[..k] + q[k..];
    assert p == p[..n] + Component(p) + Remainder(p);
    assert forall i :: 0 <= i < k ==> Component(p)[i] == q[i];
    assert q[k..] != [] ==> q[k..][0] == q[k];
  }

  lemma {:induction false} SkippedSlashes(p: Path)
    ensures var n := |p| - |SkipSlashes(p)|;
      p[n..] == SkipSlashes(p) && forall i :: 0 <= i < n ==> p[i] == SLASH
  {
    if p != [] && p[0] == SLASH {
      SkippedSlashes(p[1..]);
      var n := |p| - |SkipSlashes(p)|;
      assert p[n..] == p[1..][n - 1..];
      assert forall i :: 0 < i < n ==> p[i] == p[1..][i - 1];
    }
  }

  lemma SkipStep(p: Path)
    requires p != [] && p[0] == SLASH
    ensures SkipSlashes(p) == SkipSlashes(p[1..])
  {
  }

  lemma SkipNone(p: Path)
    requires p == [] || p[0] != SLASH
    ensures SkipSlashes(p) == p
  {
  }

  lemma NameStep(p: Path, n: nat)
    requires p != [] && p[0] != SLASH && n > 0
    ensures NameLength(p, n) == 1 + NameLength(p[1..], n - 1)
  {
  }

  lemma NameNone(p: Path, n: nat)
    requires p == [] || p[0] == SLASH || n == 0
    ensures NameLength(p, n) == 0
  {
  }

  // ---- resolution ----

  /** Null: no such node.  At: found.  Stuck: more symlinks deep than the fuel allows. */
  datatype Outcome = Null | At(ino: nat) | Stuck

  function StripSlash(p: Path): (r: Path)
    ensures |r| <= |p|
  {
    if p != [] && p[0] == SLASH then p[1..] else p
  }

  /** vfs_resolve_path, following at most `fuel` symlinks inside one another. */
  function Resolve(t: Tree, path: Path, fuel: nat): Outcome
    decreases fuel, 1, 0
  {
    WalkFrom(t, ROOT, StripSlash(path), fuel)
  }

  /** Its loop: the rest of the path is looked up from node cur. */
  function WalkFrom(t: Tree, cur: nat, path: Path, fuel: nat): Outcome
    decreases fuel, 0, |path|
  {
    var c := Component(path);
    if c == [] then At(cur) else
      var next := Enter(t, cur, c, fuel);
      if next.At? then WalkFrom(t, next.ino, Remainder(path), fuel) else next
  }

  /** One component: the named entry, or where its symlink leads. */
  function Enter(t: Tree, cur: nat, name: Path, fuel: nat): Outcome
    decreases fuel, 0, 0
  {
    if !(cur in t && t[cur].Dir?) then Null else
      var es := t[cur].entries;
      var k := Find(es, name);
      if k == |es| || !es[k].Live? then Null else
        var child := es[k].ino;
        if child in t && t[child].Link? then
          if t[child].target == [] then Null
          else if fuel == 0 then Stuck
          else Resolve(t, t[child].target, fuel - 1)
        else At(child)
  }

  lemma WalkStep(t: Tree, cur: nat, path: Path, fuel: nat)
    ensures Component(path) == [] ==> WalkFrom(t, cur, path, fuel) == At(cur)
    ensures Component(path) != [] ==>
      WalkFrom(t, cur, path, fuel) == Then(t, Enter(t, cur, Component(path), fuel), Remainder(path), fuel)
  {
  }

  /** The outcome of Enter when the directory, or the named child in it, is known. */
  lemma EnterCases(t: Tree, cur: nat, name: Path, fuel: nat)
    ensures !(cur in t && t[cur].Dir?) ==> Enter(t, cur, name, fuel) == Null
    ensures cur in t && t[cur].Dir? && Find(t[cur].entries, name) == |t[cur].entries| ==>
      Enter(t, cur, name, fuel) == Null
    ensures cur in t && t[cur].Dir? && Find(t[cur].entries, name) < |t[cur].entries| ==>
      Enter(t, cur, name, fuel) == FollowLink(t, t[cur].entries[Find(t[cur].entries, name)].ino, fuel)
  {
  }

  /** Where a node leads that may be a symlink. */
  function FollowLink(t: Tree, child: nat, fuel: nat): Outcome {
    if child in t && t[child].Link? then
      if t[child].target == [] then Null else if fuel == 0 then Stuck else Resolve(t, t[child].target, fuel - 1)
    else At(child)
  }

  // ---- slashes and composition ----

  lemma {:induction false} SkipAppend(p: Path, s: Path)
    ensures SkipSlashes(p) != [] ==> SkipSlashes(p + s) == SkipSlashes(p) + s
    ensures SkipSlashes(p) == [] ==> SkipSlashes(p + s) == SkipSlashes(s)
  {
    if p != [] && p[0] == SLASH {
      assert (p + s)[1..] == p[1..] + s;
      SkipAppend(p[1..], s);
    } else if p == [] {
      assert p + s == s;
    }
  }

  lemma {:induction false} NameAppend(q: Path, s: Path, n: nat)
    requires s != [] && s[0] == SLASH
    ensures NameLength(q + s, n) == NameLength(q, n)
    decreases n
  {
    if n > 0 && q != [] && q[0] != SLASH {
      assert (q + s)[1..] == q[1..] + s;
      NameAppend(q[1..], s, n - 1);
    }
  }

  /** A path followed by a slash and more has the same first component. */
  lemma ComponentAppend(p: Path, s: Path)
    requires s != [] && s[0] == SLASH
    ensures Component(p) != [] ==> Component(p + s) == Component(p) && Remainder(p + s) == Remainder(p) + s
    ensures Component(p) == [] ==> Component(p + s) == Component(s) && Remainder(p + s) == Remainder(s)
  {
    hide SkipSlashes, NameLength;
    SkipAppend(p, s);
    var q := SkipSlashes(p);
    NameAppend(q, s, MAX_COMPONENT);
    var k := NameLength(q, MAX_COMPONENT);
    if q != [] {
      assert (q + s)[..k] == q[..k] && (q + s)[k..] == q[k..] + s;
    }
  }

  /** What follows if the walk has come to an outcome. */
  function Then(t: Tree, o: Outcome, path: Path, fuel: nat): Outcome {
    if o.At? then WalkFrom(t, o.ino, path, fuel) else o
  }

  /** Walking along p and then s is walking along p, and then along s from there. */
  lemma {:induction false} WalkAppend(t: Tree, cur: nat, p: Path, s: Path, fuel: nat)
    requires s != [] && s[0] == SLASH
    ensures WalkFrom(t, cur, p + s, fuel) == Then(t, WalkFrom(t, cur, p, fuel), s, fuel)
    decreases |p|
  {
    ComponentAppend(p, s);
    var c := Component(p);
    if c != [] {
      var next := Enter(t, cur, c, fuel);
      if next.At? { WalkAppend(t, next.ino, Remainder(p), s, fuel); }
    }
  }

  /** A single component, without slashes and not too long. */
  ghost predicate IsName(c: Path) {
    0 < |c| <= MAX_COMPONENT && forall i :: 0 <= i < |c| ==> c[i] != SLASH
  }

  lemma {:induction false} NameWhole(c: Path, n: nat)
    requires |c| <= n && forall i :: 0 <= i < |c| ==> c[i] != SLASH
    ensures NameLength(c, n) == |c|
    decreases n
  {
    if c != [] { NameWhole(c[1..], n - 1); }
  }

  lemma WalkName(t: Tree, cur: nat, c: Path, fuel: nat)
    requires IsName(c)
    ensures WalkFrom(t, cur, c, fuel) == Enter(t, cur, c, fuel)
    ensures WalkFrom(t, cur, [SLASH] + c, fuel) == Enter(t, cur, c, fuel)
  {
    hide SkipSlashes, NameLength, Enter;
    var s := [SLASH] + c;
    assert s[1..] == c;
    SkipStep(s);
    SkipNone(c);
    NameWhole(c, MAX_COMPONENT);
    SameWalk(t, cur, s, c, fuel);
    assert Component(c) == c && Remainder(c) == [];
    WalkNone(t, fuel);
  }

  /** The end of a path. */
  lemma WalkNone(t: Tree, fuel: nat)
    ensures forall cur: nat :: WalkFrom(t, cur, [], fuel) == At(cur)
  {
  }

  /** Slashes in front do not matter. */
  lemma SameWalk(t: Tree, cur: nat, p: Path, q: Path, fuel: nat)
    requires SkipSlashes(p) == SkipSlashes(q)
    ensures WalkFrom(t, cur, p, fuel) == WalkFrom(t, cur, q, fuel)
  {
    hide SkipSlashes, NameLength, Enter;
  }

  function EnterAfter(t: Tree, o: Outcome, c: Path, fuel: nat): Outcome {
    if o.At? then Enter(t, o.ino, c, fuel) else o
  }

  /** Resolving `p/c` is resolving p and then entering c from there. */
  lemma ResolveComposes(t: Tree, p: Path, c: Path, fuel: nat)
    requires IsName(c)
    ensures Resolve(t, p + [SLASH] + c, fuel) == EnterAfter(t, Resolve(t, p, fuel), c, fuel)
  {
    var s := [SLASH] + c;
    assert p + [SLASH] + c == p + s;
    if p == [] {
      assert p + s == s;
      assert StripSlash(s) == c;
    } else {
      assert StripSlash(p + s) == StripSlash(p) + s;
      WalkAppend(t, ROOT, StripSlash(p), s, fuel);
    }
    WalkName(t, ROOT, c, fuel);
    var o := WalkFrom(t, ROOT, StripSlash(p), fuel);
    if o.At? { WalkName(t, o.ino, c, fuel); }
  }

  /** The root is reached by no component at all. */
  lemma ResolveRoot(t: Tree, fuel: nat)
    ensures Resolve(t, [], fuel) == At(ROOT) && Resolve(t, [47], fuel) == At(ROOT)
  {
    WalkNothing(t, ROOT, fuel);
  }

  /** Where `front/name` leads, by where `front` leads: to the named child, or, if that is a symlink, to
      where its target leads from the root. */
  lemma ResolveName(t: Tree, front: Path, name: Path, fuel: nat)
    requires IsName(name)
    ensures Resolve(t, front + [47] + name, fuel) ==
      match Resolve(t, front, fuel)
      case At(dir) =>
        if dir !in t || !t[dir].Dir? || Find(t[dir].entries, name) == |t[dir].entries| then Null else
          var child := t[dir].entries[Find(t[dir].entries, name)].ino;
          if !IsLink(t, child) then At(child)
          else if t[child].target == [] then Null
          else if fuel == 0 then Stuck
          else Resolve(t, t[child].target, fuel - 1)
      case o => o
  {
    hide Resolve, WalkFrom, Enter, Find;
    ResolveComposes(t, front, name, fuel);
    var o := Resolve(t, front, fuel);
    if o.At? { EnterCases(t, o.ino, name, fuel); }
  }

  /** However many slashes stand in front of a path, it is looked up alike. */
  lemma SlashesIgnored(t: Tree, cur: nat, p: Path, n: nat, fuel: nat)
    ensures WalkFrom(t, cur, seq(n, _ => SLASH) + p, fuel) == WalkFrom(t, cur, p, fuel)
  {
    SlashesSkipped(p, n);
    SameWalk(t, cur, seq(n, _ => SLASH) + p, p, fuel);
  }

  lemma {:induction false} SlashesSkipped(p: Path, n: nat)
    ensures SkipSlashes(seq(n, _ => SLASH) + p) == SkipSlashes(p)
  {
    hide SkipSlashes;
    var s := seq(n, _ => SLASH);
    if n == 0 {
      assert s + p == p;
    } else {
      assert (s + p)[1..] == seq(n - 1, _ => SLASH) + p;
      SkipStep(s + p);
      SlashesSkipped(p, n - 1);
    }
  }

  // ---- what resolution finds ----

  /** Resolution never ends at a symlink. */
  lemma {:induction false} NeverLink(t: Tree, cur: nat, path: Path, fuel: nat)
    requires !(cur in t && t[cur].Link?) && !(ROOT in t && t[ROOT].Link?)
    ensures var o := WalkFrom(t, cur, path, fuel); o.At? ==> !(o.ino in t && t[o.ino].Link?)
    decreases fuel, |path|
  {
    var c := Component(path);
    if c != [] {
      EnterNeverLink(t, cur, c, fuel);
      var next := Enter(t, cur, c, fuel);
      if next.At? { NeverLink(t, next.ino, Remainder(path), fuel); }
    }
  }

  lemma {:induction false} EnterNeverLink(t: Tree, cur: nat, c: Path, fuel: nat)
    requires !(ROOT in t && t[ROOT].Link?)
    ensures var o := Enter(t, cur, c, fuel); o.At? ==> !(o.ino in t && t[o.ino].Link?)
    decreases fuel, 0
  {
    hide FindFrom, WalkFrom, Component, Remainder, StripSlash;
    if fuel > 0 && cur in t && t[cur].Dir? {
      var es := t[cur].entries;
      var k := Find(es, c);
      if k < |es| && es[k].ino in t && t[es[k].ino].Link? {
        NeverLink(t, ROOT, StripSlash(t[es[k].ino].target), fuel - 1);
      }
    }
  }

  // ---- termination ----

  /** More fuel changes nothing once resolution does not get stuck. */
  lemma {:induction false} WalkMonotone(t: Tree, cur: nat, path: Path, f: nat, g: nat)
    requires f <= g && !WalkFrom(t, cur, path, f).Stuck?
    ensures WalkFrom(t, cur, path, g) == WalkFrom(t, cur, path, f)
    decreases f, |path|, 1
  {
    var c := Component(path);
    if c != [] {
      EnterMonotone(t, cur, c, f, g);
      var next := Enter(t, cur, c, f);
      if next.At? { WalkMonotone(t, next.ino, Remainder(path), f, g); }
    }
  }

  lemma {:induction false} EnterMonotone(t: Tree, cur: nat, c: Path, f: nat, g: nat)
    requires f <= g && !Enter(t, cur, c, f).Stuck?
    ensures Enter(t, cur, c, g) == Enter(t, cur, c, f)
    decreases f, 0, 0
  {
    hide FindFrom, WalkFrom, Component, Remainder, StripSlash;
    if cur in t && t[cur].Dir? {
      var es := t[cur].entries;
      var k := Find(es, c);
      if k < |es| && es[k].ino in t && t[es[k].ino].Link? && t[es[k].ino].target != [] {
        WalkMonotone(t, ROOT, StripSlash(t[es[k].ino].target), f - 1, g - 1);
      }
    }
  }

  type Rank = map<nat, nat>

  /** The walk meets only symlinks whose rank is below the bound. */
  predicate WithinRank(t: Tree, rank: Rank, bound: nat, cur: nat, path: Path)
    decreases |path|
  {
    var c := Component(path);
    c == [] || (
      && LinkBelow(t, rank, bound, cur, c)
      && var next := Enter(t, cur, c, bound);
         (next.At? ==> WithinRank(t, rank, bound, next.ino, Remainder(path))))
  }

  /** If the named entry is a symlink to follow, it is ranked below the bound. */
  predicate LinkBelow(t: Tree, rank: Rank, bound: nat, cur: nat, name: Path) {
    cur in t && t[cur].Dir? ==>
      var es := t[cur].entries;
      var k := Find(es, name);
      k < |es| && es[k].Live? && IsLink(t, es[k].ino) && t[es[k].ino].target != [] ==>
              es[k].ino in rank && rank[es[k].ino] < bound
  }

  predicate IsLink(t: Tree, ino: nat) { ino in t && t[ino].Link? }

  function Target(t: Tree, ino: nat): Path
    requires IsLink(t, ino)
  {
    StripSlash(t[ino].target)
  }

  /** The target of each symlink is resolved through symlinks of lower rank only. */
  ghost predicate Acyclic(t: Tree, rank: Rank) {
    forall l: nat :: IsLink(t, l) ==> l in rank && WithinRank(t, rank, rank[l], ROOT, Target(t, l))
  }

  /** A walk within the ranks of an acyclic tree does not get stuck. */
  lemma {:induction false} RankedWalk(t: Tree, rank: Rank, bound: nat, cur: nat, path: Path)
    requires Acyclic(t, rank) && WithinRank(t, rank, bound, cur, path)
    ensures !WalkFrom(t, cur, path, bound).Stuck?
    decreases bound, |path|, 1
  {
    var c := Component(path);
    if c != [] {
      RankedEnter(t, rank, bound, cur, c);
      var next := Enter(t, cur, c, bound);
      if next.At? { RankedWalk(t, rank, bound, next.ino, Remainder(path)); }
    }
  }

  lemma {:induction false} RankedEnter(t: Tree, rank: Rank, bound: nat, cur: nat, c: Path)
    requires Acyclic(t, rank) && LinkBelow(t, rank, bound, cur, c)
    ensures !Enter(t, cur, c, bound).Stuck?
    decreases bound, 0, 0
  {
    if cur in t && t[cur].Dir? {
      var es := t[cur].entries;
      var k := Find(es, c);
      if k < |es| && IsLink(t, es[k].ino) && t[es[k].ino].target != [] {
        var l := es[k].ino;
        RankedWalk(t, rank, rank[l], ROOT, Target(t, l));
        WalkMonotone(t, ROOT, Target(t, l), rank[l], bound - 1);
      }
    }
  }

  lemma {:induction false} AllWithin(t: Tree, rank: Rank, bound: nat, cur: nat, path: Path)
    requires Acyclic(t, rank) && forall l :: l in rank ==> rank[l] < bound
    ensures WithinRank(t, rank, bound, cur, path)
    decreases |path|
  {
    var c := Component(path);
    if c != [] {
      var next := Enter(t, cur, c, bound);
      if next.At? { AllWithin(t, rank, bound, next.ino, Remainder(path)); }
    }
  }

  /** With the symlinks ranked, every path is resolved, with fuel above all ranks. */
  lemma AcyclicResolves(t: Tree, rank: Rank, bound: nat, path: Path)
    requires Acyclic(t, rank) && forall l :: l in rank ==> rank[l] < bound
    ensures !Resolve(t, path, bound).Stuck?
  {
    AllWithin(t, rank, bound, ROOT, StripSlash(path));
    RankedWalk(t, rank, bound, ROOT, StripSlash(path));
  }

  /** The least fuel with which a path is resolved. */
  lemma {:induction false} LeastFuel(t: Tree, path: Path, f: nat) returns (k: nat)
    requires !WalkFrom(t, ROOT, path, f).Stuck?
    ensures k <= f && !WalkFrom(t, ROOT, path, k).Stuck?
    ensures forall g: nat :: g < k ==> WalkFrom(t, ROOT, path, g).Stuck?
  {
    if f == 0 || WalkFrom(t, ROOT, path, f - 1).Stuck? {
      k := f;
      forall g: nat | g < k ensures WalkFrom(t, ROOT, path, g).Stuck? {
        if !WalkFrom(t, ROOT, path, g).Stuck? { WalkMonotone(t, ROOT, path, g, f - 1); }
      }
    } else {
      k := LeastFuel(t, path, f - 1);
    }
  }

  ghost predicate IsLeastFuel(t: Tree, path: Path, k: nat) {
    && !WalkFrom(t, ROOT, path, k).Stuck?
    && forall g: nat :: g < k ==> WalkFrom(t, ROOT, path, g).Stuck?
  }

  /** The ranks made of the least fuels. */
  ghost predicate LeastRanks(t: Tree, rank: Rank) {
    forall l: nat :: IsLink(t, l) ==> l in rank && IsLeastFuel(t, Target(t, l), rank[l])
  }

  lemma {:induction false} LeastIsWithin(t: Tree, rank: Rank, bound: nat, cur: nat, path: Path)
    requires LeastRanks(t, rank) && !WalkFrom(t, cur, path, bound).Stuck?
    ensures WithinRank(t, rank, bound, cur, path)
    decreases |path|
  {
    var c := Component(path);
    if c != [] {
      LeastIsBelow(t, rank, bound, cur, c);
      var next := Enter(t, cur, c, bound);
      if next.At? { LeastIsWithin(t, rank, bound, next.ino, Remainder(path)); }
    }
  }

  lemma LeastIsBelow(t: Tree, rank: Rank, bound: nat, cur: nat, c: Path)
    requires LeastRanks(t, rank) && !Enter(t, cur, c, bound).Stuck?
    ensures LinkBelow(t, rank, bound, cur, c)
  {
    if cur in t && t[cur].Dir? {
      var es := t[cur].entries;
      var k := Find(es, c);
      if k < |es| && IsLink(t, es[k].ino) && t[es[k].ino].target != [] {
        assert IsLeastFuel(t, Target(t, es[k].ino), rank[es[k].ino]);
        assert !WalkFrom(t, ROOT, Target(t, es[k].ino), bound - 1).Stuck?;
      }
    }
  }

  /** The target of symlink l can be resolved. */
  ghost predicate Resolvable(t: Tree, l: nat) {
    IsLink(t, l) && exists f: nat :: !WalkFrom(t, ROOT, Target(t, l), f).Stuck?
  }

  lemma RankLinks(t: Tree, links: set<nat>) returns (rank: Rank)
    requires forall l :: l in links ==> Resolvable(t, l)
    ensures forall l :: l in links ==> IsLink(t, l) && l in rank && IsLeastFuel(t, Target(t, l), rank[l])
    decreases links
  {
    rank := map[];
    if links != {} {
      var l :| l in links;
      rank := RankLinks(t, links - {l});
      var f: nat :| !WalkFrom(t, ROOT, Target(t, l), f).Stuck?;
      var k := LeastFuel(t, Target(t, l), f);
      rank := rank[l := k];
    }
  }

  /** The symlinks can be ranked exactly when each of them can be resolved, that is when
      resolution terminates on every one. */
  lemma RankedExactly(t: Tree)
    ensures (exists rank :: Acyclic(t, rank)) <==> forall l: nat :: IsLink(t, l) ==> Resolvable(t, l)
  {
    if rank :| Acyclic(t, rank) {
      forall l: nat | IsLink(t, l) ensures Resolvable(t, l) {
        RankedWalk(t, rank, rank[l], ROOT, Target(t, l));
      }
    }
    if forall l: nat :: IsLink(t, l) ==> Resolvable(t, l) {
      var links := set l | l in t && IsLink(t, l);
      var rank := RankLinks(t, links);
      forall l: nat | IsLink(t, l) ensures l in rank && WithinRank(t, rank, rank[l], ROOT, Target(t, l)) {
        assert l in links;
        LeastIsWithin(t, rank, rank[l], ROOT, Target(t, l));
      }
      assert Acyclic(t, rank);
    }
  }

  /** A root directory with one entry, a symlink l to this target. */
  function OneLink(target: Path): Tree {
    map[ROOT := Dir([Live([108], 2, 3)]), 2 := Link(target)]
  }

  lemma OneLinkWalk(target: Path, c: Path, fuel: nat)
    requires IsName(c)
    ensures WalkFrom(OneLink(target), ROOT, c, fuel) ==
      if c == [108] then FollowLink(OneLink(target), 2, fuel) else Null
  {
    hide WalkFrom, Enter, FollowLink;
    WalkName(OneLink(target), ROOT, c, fuel);
    EnterCases(OneLink(target), ROOT, c, fuel);
  }

  /** A link to itself is stuck however deep one looks, and cannot be ranked. */
  lemma SelfLinkInstance()
    ensures forall fuel: nat :: Resolve(OneLink([108]), [108], fuel) == Stuck
    ensures !exists rank :: Acyclic(OneLink([108]), rank)
  {
    hide WalkFrom, Acyclic;
    var t := OneLink([108]);
    assert IsLink(t, 2) && Target(t, 2) == [108];
    forall fuel: nat ensures WalkFrom(t, ROOT, [108], fuel) == Stuck { SelfLinkStuck(fuel); }
    RankedExactly(t);
  }

  lemma {:induction false} SelfLinkStuck(fuel: nat)
    ensures WalkFrom(OneLink([108]), ROOT, [108], fuel) == Stuck
  {
    hide WalkFrom;
    OneLinkWalk([108], [108], fuel);
    if fuel > 0 { SelfLinkStuck(fuel - 1); }
  }

  // ---- a new entry ----

  /** The paths that led somewhere before an object was entered still lead there. */
  lemma {:induction false} WalkAdd(t: Tree, parent: nat, name: Path, ino: nat, o: Obj, cur: nat, path: Path, fuel: nat)
    requires NewEntry(t, parent, name, ino) && cur in t
    requires WalkFrom(t, cur, path, fuel).At?
    ensures WalkFrom(AddObj(t, parent, name, ino, o), cur, path, fuel) == WalkFrom(t, cur, path, fuel)
    ensures WalkFrom(t, cur, path, fuel).ino in t
    decreases fuel, |path|, 1
  {
    var c := Component(path);
    if c != [] {
      EnterAdd(t, parent, name, ino, o, cur, c, fuel);
      WalkAdd(t, parent, name, ino, o, Enter(t, cur, c, fuel).ino, Remainder(path), fuel);
    }
  }

  /** The name is not in the directory yet, the inode is not in use, and entries lead to objects. */
  ghost predicate NewEntry(t: Tree, parent: nat, name: Path, ino: nat) {
    && parent in t && t[parent].Dir? && ino !in t && Closed(t)
    && Find(t[parent].entries, name) == |t[parent].entries|
  }

  lemma {:induction false} EnterAdd(t: Tree, parent: nat, name: Path, ino: nat, o: Obj, cur: nat, c: Path, fuel: nat)
    requires NewEntry(t, parent, name, ino) && cur in t
    requires Enter(t, cur, c, fuel).At?
    ensures Enter(AddObj(t, parent, name, ino, o), cur, c, fuel) == Enter(t, cur, c, fuel)
    ensures Enter(t, cur, c, fuel).ino in t
    decreases fuel, 0, 0
  {
    var t' := AddObj(t, parent, name, ino, o);
    var es := t[cur].entries;
    var k := Find(es, c);
    FindTail(es, Live(name, ino, TypeCode(o)), c, 0);
    assert t'[cur].Dir? && Find(t'[cur].entries, c) == k && t'[cur].entries[k] == es[k];
    var child := es[k].ino;
    assert child in t && child != ino;
    assert IsLink(t, child) <==> IsLink(t', child);
    if IsLink(t, child) {
      assert child != parent && t'[child] == t[child];
      WalkAdd(t, parent, name, ino, o, ROOT, Target(t, child), fuel - 1);
    }
  }

  /** The new name leads to the new object, unless that is a symlink. */
  lemma EnterNew(t: Tree, parent: nat, name: Path, ino: nat, o: Obj, fuel: nat)
    requires NewEntry(t, parent, name, ino) && !o.Link?
    ensures Enter(AddObj(t, parent, name, ino, o), parent, name, fuel) == At(ino)
  {
    FindTail(t[parent].entries, Live(name, ino, TypeCode(o)), name, 0);
  }

  /** The new name leads where the target of the new symlink has led. */
  lemma EnterLinked(t: Tree, parent: nat, name: Path, ino: nat, target: Path, fuel: nat)
    requires NewEntry(t, parent, name, ino) && ROOT in t && target != [] && fuel > 0
    requires Resolve(t, target, fuel - 1).At?
    ensures Enter(AddObj(t, parent, name, ino, Link(target)), parent, name, fuel) == Resolve(t, target, fuel - 1)
  {
    hide WalkFrom, Enter;
    var t' := AddObj(t, parent, name, ino, Link(target));
    FindTail(t[parent].entries, Live(name, ino, TypeCode(Link(target))), name, 0);
    EnterCases(t', parent, name, fuel);
    WalkAdd(t, parent, name, ino, Link(target), ROOT, StripSlash(target), fuel - 1);
  }

  // ---- splitting a path into directory and name ----

  /** The position of the last slash, or -1. */
  function LastSlash(p: Path): (k: int)
    ensures -1 <= k < |p| && (k >= 0 ==> p[k] == SLASH)
    ensures forall i :: k < i < |p| ==> p[i] != SLASH
  {
    if p == [] then -1 else if p[|p| - 1] == SLASH then |p| - 1 else LastSlash(p[..|p| - 1])
  }

  function ParentPath(p: Path): Path {
    if LastSlash(p) <= 0 then [SLASH] else p[..LastSlash(p)]
  }

  function BaseName(p: Path): Path { p[LastSlash(p) + 1..] }

  /** Resolving a path is resolving its directory part and entering its name from there. */
  lemma ResolveSplit(t: Tree, p: Path, fuel: nat)
    requires IsName(BaseName(p))
    ensures Resolve(t, p, fuel) == EnterAfter(t, Resolve(t, ParentPath(p), fuel), BaseName(p), fuel)
  {
    hide Enter, WalkFrom, Resolve, LastSlash, StripSlash;
    if LastSlash(p) > 0 {
      SplitJoin(p);
      ResolveComposes(t, ParentPath(p), BaseName(p), fuel);
    } else {
      ResolveTop(t, p, BaseName(p), fuel);
    }
  }

  lemma SplitJoin(p: Path)
    requires LastSlash(p) > 0
    ensures p == ParentPath(p) + [SLASH] + BaseName(p)
  {
    hide LastSlash;
  }

  /** A name in the root directory, with or without a slash in front. */
  lemma ResolveTop(t: Tree, p: Path, c: Path, fuel: nat)
    requires IsName(c) && LastSlash(p) <= 0 && c == BaseName(p)
    ensures Resolve(t, p, fuel) == EnterAfter(t, Resolve(t, [SLASH], fuel), c, fuel)
  {
    hide Enter, WalkFrom, LastSlash, StripSlash;
    StripTop(p);
    WalkName(t, ROOT, c, fuel);
    WalkNothing(t, ROOT, fuel);
  }

  lemma StripTop(p: Path)
    requires LastSlash(p) <= 0
    ensures StripSlash(p) == BaseName(p)
  {
    hide LastSlash;
  }

  lemma WalkNothing(t: Tree, cur: nat, fuel: nat)
    ensures WalkFrom(t, cur, [], fuel) == At(cur) && StripSlash([SLASH]) == []
  {
  }

  /** After a path has been created, resolving it gives the new object. */
  lemma CreatedResolves(t: Tree, p: Path, parent: nat, ino: nat, o: Obj, fuel: nat)
    requires IsName(BaseName(p)) && NewEntry(t, parent, BaseName(p), ino) && !o.Link?
    requires Resolve(t, ParentPath(p), fuel) == At(parent)
    ensures Resolve(AddObj(t, parent, BaseName(p), ino, o), p, fuel) == At(ino)
  {
    var t' := AddObj(t, parent, BaseName(p), ino, o);
    WalkAdd(t, parent, BaseName(p), ino, o, ROOT, StripSlash(ParentPath(p)), fuel);
    ResolveSplit(t', p, fuel);
    EnterNew(t, parent, BaseName(p), ino, o, fuel);
  }

  /** After a symlink has been created, resolving its path gives what the target resolved to. */
  lemma LinkedResolves(t: Tree, p: Path, parent: nat, ino: nat, target: Path, fuel: nat)
    requires IsName(BaseName(p)) && NewEntry(t, parent, BaseName(p), ino) && target != [] && fuel > 0
    requires Resolve(t, ParentPath(p), fuel) == At(parent) && Resolve(t, target, fuel - 1).At?
    ensures Resolve(AddObj(t, parent, BaseName(p), ino, Link(target)), p, fuel) == Resolve(t, target, fuel - 1)
  {
    hide Enter, LastSlash;
    var t' := AddObj(t, parent, BaseName(p), ino, Link(target));
    WalkAdd(t, parent, BaseName(p), ino, Link(target), ROOT, StripSlash(ParentPath(p)), fuel);
    ResolveSplit(t', p, fuel);
    EnterLinked(t, parent, BaseName(p), ino, target, fuel);
  }

  /** The root holds a directory d and a symlink l to /d: the path /l leads to d. */
  lemma ArrivingInstance()
    ensures var t := map[1 := Dir([Live([100], 2, 2), Live([108], 3, 3)]), 2 := Dir([]), 3 := Link([47, 100])];
      Resolve(t, [47, 108], 1) == At(2)
  {
    hide Resolve, WalkFrom, Enter;
    var t := map[1 := Dir([Live([100], 2, 2), Live([108], 3, 3)]), 2 := Dir([]), 3 := Link([47, 100])];
    ResolveRoot(t, 0);
    ResolveRoot(t, 1);
    ResolveName(t, [], [108], 1);
    ResolveName(t, [], [100], 0);
    assert [] + [47] + [108] == [47, 108] && [] + [47] + [100] == [47, 100];
  }

  /** The directory has the name, as a symlink that leads nowhere. */
  predicate Dangling(t: Tree, dir: nat, name: Path, fuel: nat) {
    var es := EntriesIn(t, dir);
    var k := Find(es, name);
    k < |es| && IsLink(t, es[k].ino) && FollowLink(t, es[k].ino, fuel).Null?
  }

  /** open creates what it cannot resolve: it enters a name that the directory already has exactly
      when that is a symlink that leads nowhere. */
  lemma TwiceExactly(t: Tree, p: Path, parent: nat, fuel: nat)
    requires IsName(BaseName(p)) && parent in t && t[parent].Dir?
    requires Resolve(t, ParentPath(p), fuel) == At(parent) && Resolve(t, p, fuel).Null?
    ensures !NameFree(t, parent, BaseName(p)) <==> Dangling(t, parent, BaseName(p), fuel)
  {
    hide Resolve, Enter, LastSlash, Find;
    ResolveSplit(t, p, fuel);
    EnterCases(t, parent, BaseName(p), fuel);
  }

  /** l is a link to x, which is not there: open of /l enters l once more. */
  lemma DanglingInstance()
    ensures Resolve(OneLink([120]), [SLASH, 108], 1) == Null && !NameFree(OneLink([120]), ROOT, [108])
  {
    hide WalkFrom;
    OneLinkWalk([120], [108], 1);
    OneLinkWalk([120], [120], 0);
    assert StripSlash([SLASH, 108]) == [108] && StripSlash([120]) == [120];
  }

  method FindLastSlash(path: Path) returns (k: int)
    ensures k == LastSlash(path)
  {
    k := -1;
    var i := 0;
    while i < |path|
      invariant 0 <= i <= |path| && k == LastSlash(path[..i])
    {
      assert path[..i + 1][..i] == path[..i];
      if path[i] == SLASH { k := i; }
      i := i + 1;
    }
    assert path[..i] == path;
  }
}
