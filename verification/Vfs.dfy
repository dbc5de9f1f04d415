/** The virtual file system of kernel/vfs.c, with one DoriFS volume mounted at the root. */
module Vfs {
  import opened Bits
  import opened DorifsRecords
  import opened DorifsTree
  import opened DorifsView
  import opened DorifsFrames
  import opened DorifsDirs
  import opened Dorifs
  import opened VfsPath

  const MAX_OPEN_FILES := 64
  const MAX_PATH := 256

  // the open flags; `flags & f` is not 0 exactly when flags / f % 2 == 1, each f being a single bit
  const O_CREAT := 0x40
  const O_TRUNC := 0x200
  const O_APPEND := 0x400

  datatype Descriptor = Descriptor(node: VfsNode?, offset: u32, flags: nat, inUse: bool)

  const UNUSED := Descriptor(null, 0, 0, false)

  /** The path as it fits the buffer of vfs_create and vfs_unlink. */
  function Cut(path: Path): (p: Path)
    ensures |p| < MAX_PATH && p <= path
  {
    if |path| < MAX_PATH then path else path[..MAX_PATH - 1]
  }

  lemma ComponentNoNul(p: Path)
    requires NoNul(p)
    ensures NoNul(Component(p)) && NoNul(Remainder(p))
  {
    SuffixNoNul(p);
  }

  lemma {:induction false} SuffixNoNul(p: Path)
    requires NoNul(p)
    ensures NoNul(SkipSlashes(p))
  {
    if p != [] && p[0] == SLASH { SuffixNoNul(p[1..]); }
  }

  lemma ResolveIs(t: Tree, path: Path, fuel: nat)
    ensures Resolve(t, path, fuel) == WalkFrom(t, ROOT, StripSlash(path), fuel)
    ensures NoNul(path) ==> NoNul(StripSlash(path))
    ensures Component([]) == []
  {
  }

  lemma SplitFacts(path: Path, p: Path)
    requires p == Cut(path) && NoNul(path)
    ensures p[LastSlash(p) + 1..] == BaseName(p)
    ensures (if LastSlash(p) <= 0 then [SLASH] else p[..LastSlash(p)]) == ParentPath(p)
    ensures NoNul(ParentPath(p)) && NoNul(BaseName(p))
  {
    hide LastSlash;
  }

  predicate IsDirIn(t: Tree, ino: nat) { ino in t && t[ino].Dir? }

  function InoOf(o: Outcome): nat { if o.At? then o.ino else 0 }

  predicate IsDirAt(t: Tree, o: Outcome) { o.At? && IsDirIn(t, o.ino) }

  /** The root is there, and is a directory, after an object was entered. */
  lemma AddKeepsRoot(t: Tree, parent: nat, name: Path, ino: nat, o: Obj)
    requires Closed(t) && IsDirIn(t, parent)
    ensures IsLowestFree(t, ino) ==>
      && IsDirIn(AddObj(t, parent, name, ino, o), ROOT) && ino !in t
      && (parent != ROOT ==> AddObj(t, parent, name, ino, o)[ROOT] == t[ROOT])
  {
  }

  /** The tree after unlink of a name in a directory. */
  function Unlinked(t: Tree, dir: nat, name: Path): Tree {
    RemoveObj(t, dir, Find(EntriesIn(t, dir), name))
  }

  lemma RemoveKeepsRoot(t: Tree, parent: nat, name: Path)
    requires Closed(t) && IsDirIn(t, parent)
    ensures IsDirIn(Unlinked(t, parent, name), ROOT)
    ensures |EntriesIn(Unlinked(t, parent, name), ROOT)| == |EntriesIn(t, ROOT)|
    ensures t[ROOT].Dir? && |t[ROOT].entries| == |EntriesIn(t, ROOT)|
    ensures |Unlinked(t, parent, name)[ROOT].entries| == |EntriesIn(t, ROOT)|
  {
  }

  lemma CutShort(path: Path)
    requires |path| < MAX_PATH
    ensures Cut(path) == path
  {
  }

  lemma NotLink(t: Tree, path: Path, fuel: nat)
    requires IsDirIn(t, ROOT) && Resolve(t, path, fuel).At?
    ensures !IsLink(t, InoOf(Resolve(t, path, fuel)))
  {
    NeverLink(t, ROOT, StripSlash(path), fuel);
  }

  lemma AddedThere(t: Tree, parent: nat, name: Path, ino: nat, o: Obj)
    requires IsLowestFree(t, ino) && IsDirIn(t, parent)
    ensures ino in AddObj(t, parent, name, ino, o) && AddObj(t, parent, name, ino, o)[ino] == o
  {
  }

  /** What open cuts is a file. */
  lemma AddedFile(t: Tree, was: Outcome, t': Tree, parent: nat, name: Path, ino: nat)
    requires !IsDirAt(t, was) && ino in t' && !IsLink(t', ino)
    requires (was.At? && t' == t && ino == was.ino)
      || (IsLowestFree(t, ino) && IsDirIn(t, parent) && t' == AddObj(t, parent, name, ino, File([])))
    ensures t'[ino].File?
  {
    if !was.At? || t' != t { AddedThere(t, parent, name, ino, File([])); }
  }

  lemma NewFile()
    ensures NewObj(VFS_FILE as nat) == File([])
  {
    assert !Bit(1, 1) && !Bit(1, 2);
  }

  /** LinkedResolves, for what symlink enters. */
  lemma LinkLeads(t: Tree, p: Path, parent: nat, ino: nat, target: Path, fuel: nat)
    requires IsLowestFree(t, ino) && Closed(t) && IsDirIn(t, parent)
    requires Resolve(t, ParentPath(p), fuel) == At(parent)
    ensures NameFree(t, parent, BaseName(p)) && IsName(BaseName(p)) && target != [] && fuel > 0 ==>
      Resolve(t, target, fuel - 1).At? ==>
        Resolve(AddObj(t, parent, BaseName(p), ino, Link(target)), p, fuel) == Resolve(t, target, fuel - 1)
  {
    hide Resolve, LastSlash, Find;
    if NameFree(t, parent, BaseName(p)) && IsName(BaseName(p)) && target != [] && fuel > 0 {
      if Resolve(t, target, fuel - 1).At? { LinkedResolves(t, p, parent, ino, target, fuel); }
    }
  }

  class VirtualFs {
    const fs: FileSystem
    const root: VfsNode
    const fds: array<Descriptor>

    /** vfs_init, and vfs_mount of a volume at "/". */
    constructor (fs: FileSystem, root: VfsNode)
      requires fs.Valid() && root.ino == ROOT && fs.IsNode(root) && root.typ == VFS_DIRECTORY
      ensures Valid() && this.fs == fs && this.root == root && fresh(fds)
      ensures forall i :: 0 <= i < MAX_OPEN_FILES ==> fds[i] == UNUSED
    {
      hide Consistent, TreeOf;
      this.fs, this.root := fs, root;
      fds := new Descriptor[MAX_OPEN_FILES](_ => UNUSED);
    }

    ghost predicate Valid()
      reads this, fs, fs.bitmap, root
    {
      fs.Valid() && root.ino == ROOT && fs.IsNode(root) && root.typ == VFS_DIRECTORY && fds.Length == MAX_OPEN_FILES
    }

    ghost function Tree(): DorifsTree.Tree
      requires Valid()
      reads this, fs, fs.bitmap, root
    {
      fs.Tree()
    }

    // ---- paths ----

    /** vfs_resolve_path.  A symlink is resolved by recursion; `fuel` bounds its depth. */
    method ResolvePath(path: Path, ghost fuel: nat) returns (node: VfsNode?)
      requires Valid() && NoNul(path)
      requires !Resolve(Tree(), path, fuel).Stuck?
      ensures Valid() && Tree() == old(Tree())
      ensures node == null <==> Resolve(Tree(), path, fuel).Null?
      ensures node != null ==>
        && (node == root || (fresh(node) && node.ino != ROOT)) && fs.IsNode(node)
        && Resolve(Tree(), path, fuel) == At(node.ino as nat)
      decreases fuel, 1
    {
      hide Find, Component, Remainder, NoNul, Consistent, TreeOf, WalkFrom, Enter, Resolve, StripSlash;
      var current := root;
      var rest := StripSlash(path);
      ghost var t := Tree();
      ResolveIs(t, path, fuel);
      WalkStep(t, ROOT, rest, fuel);
      if rest == [] { return current; }
      while rest != []
        invariant (current == root || (fresh(current) && current.ino != ROOT)) && fs.IsNode(current)
        invariant WalkFrom(t, current.ino as nat, rest, fuel) == Resolve(t, path, fuel)
        invariant NoNul(rest) && Valid() && Tree() == t
        decreases |rest|
      {
        var component, next := NextComponent(rest);
        WalkStep(t, current.ino as nat, rest, fuel);
        if component == [] { break; }
        ComponentNoNul(rest);
        EnterCases(t, current.ino as nat, component, fuel);
        if current.typ != VFS_DIRECTORY { return null; }
        var child := fs.Finddir(current, component);
        if child == null { return null; }
        if child.typ == VFS_SYMLINK {
          child := Follow(child, fuel);
          if child == null { return null; }
        }
        current, rest := child, next;
      }
      WalkStep(t, current.ino as nat, rest, fuel);
      node := current;
    }

    ghost function TargetOf(link: VfsNode): Path
      requires Valid() && IsLink(Tree(), link.ino as nat)
      reads this, fs, fs.bitmap, root, link
    {
      Tree()[link.ino as nat].target
    }

    /** A symlink that vfs_resolve_path meets: its target is read and resolved from the root. */
    method Follow(link: VfsNode, ghost fuel: nat) returns (node: VfsNode?)
      requires Valid() && fs.IsNode(link) && IsLink(Tree(), link.ino as nat)
      requires TargetOf(link) != [] ==> fuel > 0 && !Resolve(Tree(), TargetOf(link), fuel - 1).Stuck?
      ensures Valid() && Tree() == old(Tree())
      ensures node == null <==>
        Tree()[link.ino as nat].target == [] || Resolve(Tree(), Tree()[link.ino as nat].target, fuel - 1).Null?
      ensures node != null ==>
        && (node == root || (fresh(node) && node.ino != ROOT)) && fs.IsNode(node)
        && Resolve(Tree(), Tree()[link.ino as nat].target, fuel - 1) == At(node.ino as nat)
      decreases fuel, 0
    {
      hide NoNul, Consistent, TreeOf, Resolve;
      var buf := new byte[MAX_PATH];
      var len := fs.Readlink(link, buf, MAX_PATH);
      if len <= 0 { return null; }
      LinkFacts(fs.disk, fs.sb, fs.bitmap[..], fs.owner, fs.refs, link.ino as nat);
      ghost var target := Tree()[link.ino as nat].target;
      assert target[..len] == target;
      node := ResolvePath(buf[..len], fuel - 1);
    }

    /** The directory that a path's last component is to be entered in. */
    ghost function ParentOf(path: Path, fuel: nat): Outcome
      requires Valid()
      reads this, fs, fs.bitmap, root
    {
      Resolve(Tree(), ParentPath(Cut(path)), fuel)
    }

    ghost predicate ParentReady(path: Path, fuel: nat)
      requires Valid()
      reads this, fs, fs.bitmap, root
    {
      && NoNul(path) && !ParentOf(path, fuel).Stuck?
      && (IsDirAt(Tree(), ParentOf(path, fuel)) ==>
            SlotFor(Tree(), InoOf(ParentOf(path, fuel)), BaseName(Cut(path))) && fs.InodeFree())
    }

    /** The last component is no entry of the directory in front of it. */
    ghost predicate NewName(path: Path, fuel: nat)
      requires Valid()
      reads this, fs, fs.bitmap, root
    {
      NameFree(Tree(), InoOf(ParentOf(path, fuel)), BaseName(Cut(path)))
    }

    /** The parent is a directory, and there is a block for its first entries. */
    ghost predicate CanEnter(path: Path, fuel: nat)
      requires Valid()
      reads this, fs, fs.bitmap, root
    {
      IsDirAt(Tree(), ParentOf(path, fuel))
        && (EntriesIn(Tree(), InoOf(ParentOf(path, fuel))) != [] || fs.sb.freeBlocks > 0)
    }

    /** The node of the directory part of the path, and the last component. */
    method SplitPath(path: Path, ghost o: Outcome, ghost fuel: nat) returns (parent: VfsNode?, name: Path)
      requires Valid() && NoNul(path)
      requires o == ParentOf(path, fuel) && !o.Stuck?
      ensures Valid() && Tree() == old(Tree())
      ensures name == BaseName(Cut(path))
      ensures parent == null <==> !IsDirAt(Tree(), o)
      ensures parent != null ==>
        && (parent == root || (fresh(parent) && parent.ino != ROOT)) && fs.IsNode(parent)
        && parent.ino as nat == InoOf(o)
    {
      hide Resolve, TreeOf, Consistent, LastSlash, ParentPath, BaseName, Cut, NoNul;
      var p := Cut(path);
      var k := FindLastSlash(p);
      SplitFacts(path, p);
      name := p[k + 1..];
      var parentPath := if k <= 0 then [SLASH] else p[..k];
      parent := ResolvePath(parentPath, fuel);
      if parent != null && parent.typ != VFS_DIRECTORY { parent := null; }
    }

    method Create(path: Path, typ: nat, ghost fuel: nat) returns (r: int, ghost ino: nat)
      requires Valid() && ParentReady(path, fuel)
      modifies fs`disk, fs`sb, fs`owner, fs`refs, fs.bitmap, root`size
      ensures r == if old(CanEnter(path, fuel)) then 0 else -1
      ensures |fs.disk| > TABLE_BLOCKS && (Valid() <==> r == -1 || old(NewName(path, fuel)))
      ensures !Valid() ==> forall o, r' :: !Consistent(fs.disk, fs.sb, fs.bitmap[..], o, r')
      ensures r == -1 ==> TreeOf(fs.disk) == old(Tree())
      ensures r == 0 ==>
        && IsLowestFree(old(Tree()), ino)
        && TreeOf(fs.disk) ==
           AddObj(old(Tree()), InoOf(old(ParentOf(path, fuel))), BaseName(Cut(path)), ino, NewObj(typ))
      ensures r == 0 && Valid() && IsName(BaseName(Cut(path))) && !NewObj(typ).Link? ==>
        Resolve(Tree(), Cut(path), fuel) == At(ino)
    {
      hide Resolve, TreeOf, Consistent, Find, NewObj, LastSlash, IsLowestFree, Closed;
      ino := 0;
      ghost var t := Tree();
      var parent, name := SplitPath(path, ParentOf(path, fuel), fuel);
      if parent == null { return -1, ino; }
      TreeClosed(fs.disk, fs.sb, fs.bitmap[..], fs.owner, fs.refs);
      r, ino := fs.Create(parent, name, typ);
      AddKeepsRoot(t, parent.ino as nat, name, ino, NewObj(typ));
      if r == 0 && NameFree(t, parent.ino as nat, name) && IsName(name) && !NewObj(typ).Link? {
        CreatedResolves(t, Cut(path), parent.ino as nat, ino, NewObj(typ), fuel);
      }
    }

    method Unlink(path: Path, ghost fuel: nat) returns (r: int)
      requires Valid() && NoNul(path) && !ParentOf(path, fuel).Stuck?
      modifies fs`disk, fs`sb, fs`owner, fs.bitmap
      ensures Valid()
      ensures r == 0 || (r == -1 && Tree() == old(Tree()))
      ensures r == 0 <==> (
        && IsDirAt(old(Tree()), old(ParentOf(path, fuel)))
        && var es := EntriesIn(old(Tree()), InoOf(old(ParentOf(path, fuel))));
           Find(es, BaseName(Cut(path))) < |es|)
      ensures r == 0 ==> Tree() == Unlinked(old(Tree()), InoOf(old(ParentOf(path, fuel))), BaseName(Cut(path)))
    {
      hide Resolve, TreeOf, Consistent, Find, LastSlash, Closed, RemoveObj, Cut, BaseName, NoNul, EntriesIn;
      ghost var t := Tree();
      SplitFacts(path, Cut(path));
      var parent, name := SplitPath(path, ParentOf(path, fuel), fuel);
      if parent == null { return -1; }
      TreeClosed(fs.disk, fs.sb, fs.bitmap[..], fs.owner, fs.refs);
      r := fs.Unlink(parent, name);
      RemoveKeepsRoot(t, parent.ino as nat, name);
    }

    method Symlink(target: Path, path: Path, ghost fuel: nat) returns (r: int, ghost ino: nat)
      requires Valid() && ParentReady(path, fuel) && NoNul(target) && |target| < WORD
      modifies fs`disk, fs`sb, fs`owner, fs`refs, fs.bitmap, root`size
      ensures r == if old(CanEnter(path, fuel)) then 0 else -1
      ensures |fs.disk| > TABLE_BLOCKS && (Valid() <==> r == -1 || old(NewName(path, fuel)))
      ensures !Valid() ==> forall o, r' :: !Consistent(fs.disk, fs.sb, fs.bitmap[..], o, r')
      ensures r == -1 ==> TreeOf(fs.disk) == old(Tree())
      ensures r == 0 ==>
        && IsLowestFree(old(Tree()), ino)
        && TreeOf(fs.disk) == AddObj(old(Tree()), InoOf(old(ParentOf(path, fuel))), BaseName(Cut(path)), ino,
                            Link(if |target| <= 255 then target else target[..255]))
      ensures r == 0 && Valid() && IsName(BaseName(Cut(path))) && target != [] && fuel > 0 ==>
        var was := Resolve(old(Tree()), if |target| <= 255 then target else target[..255], fuel - 1);
        was.At? ==> Resolve(Tree(), Cut(path), fuel) == was
    {
      hide Resolve, TreeOf, Consistent, Find, LastSlash, IsLowestFree, Closed, NoNul, BaseName, Cut, ParentPath;
      ino := 0;
      ghost var t := Tree();
      ghost var link := Link(if |target| <= 255 then target else target[..255]);
      var parent, name := SplitPath(path, ParentOf(path, fuel), fuel);
      if parent == null { return -1, ino; }
      TreeClosed(fs.disk, fs.sb, fs.bitmap[..], fs.owner, fs.refs);
      r, ino := fs.Symlink(parent, name, target);
      if r != 0 { return; }
      AddKeepsRoot(t, parent.ino as nat, name, ino, link);
      LinkLeads(t, Cut(path), parent.ino as nat, ino, link.target, fuel);
    }

    // ---- descriptors ----

    method FdAlloc() returns (fd: int)
      requires fds.Length == MAX_OPEN_FILES
      ensures fd == -1 <==> forall i :: 0 <= i < MAX_OPEN_FILES ==> fds[i].inUse
      ensures fd != -1 ==> 0 <= fd < MAX_OPEN_FILES && !fds[fd].inUse && forall i :: 0 <= i < fd ==> fds[i].inUse
    {
      for i := 0 to MAX_OPEN_FILES
        invariant forall j :: 0 <= j < i ==> fds[j].inUse
      {
        if !fds[i].inUse { return i; }
      }
      fd := -1;
    }

    /** The descriptor is open on a file whose size its node knows. */
    ghost predicate Opened(fd: int)
      requires Valid()
      reads this, fs, fs.bitmap, root, fds, if 0 <= fd < fds.Length then {fds[fd].node} else {}
    {
      && 0 <= fd < MAX_OPEN_FILES && fds[fd].inUse && fds[fd].node != null
      && fs.IsNode(fds[fd].node) && fs.IsFile(fds[fd].node)
    }

    ghost function DataOf(fd: int): seq<byte>
      requires Valid() && Opened(fd)
      reads this, fs, fs.bitmap, root, fds, if 0 <= fd < fds.Length then {fds[fd].node} else {}
    {
      Tree()[fds[fd].node.ino as nat].data
    }

    predicate InUse(fd: int)
      reads fds
    {
      0 <= fd < fds.Length && fds[fd].inUse
    }

    method Close(fd: int) returns (r: int)
      requires fds.Length == MAX_OPEN_FILES
      modifies fds
      ensures r == 0 <==> old(InUse(fd))
      ensures r == 0 || r == -1
      ensures fds[..] == if r == 0 then old(fds[..])[fd := UNUSED] else old(fds[..])
    {
      if fd < 0 || fd >= MAX_OPEN_FILES || !fds[fd].inUse { return -1; }
      fds[fd] := UNUSED;
      r := 0;
    }

    method Read(fd: int, buffer: array<byte>, size: u32) returns (n: int)
      requires Valid() && (InUse(fd) ==> Opened(fd)) && buffer != fs.bitmap && size <= buffer.Length
      requires InUse(fd) ==> fds[fd].offset as int + size < WORD
      modifies fds, buffer
      ensures Valid() && Tree() == old(Tree())
      ensures n == -1 <==> !old(InUse(fd))
      ensures n != -1 ==>
        var off, data := old(fds[fd].offset), old(DataOf(fd));
        && n == (if off >= |data| then 0 else if off as int + size > |data| then |data| - off else size)
        && (n > 0 ==> buffer[..n] == data[off..off + n])
        && fds[..] == old(fds[..])[fd := old(fds[fd]).(offset := fds[fd].offset)] && fds[fd].offset == off as int + n
    {
      hide TreeOf, Consistent;
      if fd < 0 || fd >= MAX_OPEN_FILES || !fds[fd].inUse { return -1; }
      var node := fds[fd].node;
      var off := fds[fd].offset;
      var m := fs.Read(node, off, size, buffer);
      n := m;
      if n > 0 { fds[fd] := fds[fd].(offset := off + n); }
    }

    /** Where the next write through the descriptor goes: at the end in append mode. */
    ghost function WriteOffset(fd: int): u32
      requires Valid() && Opened(fd)
      reads this, fs, fs.bitmap, root, fds, if 0 <= fd < fds.Length then {fds[fd].node} else {}
    {
      if fds[fd].flags / O_APPEND % 2 == 1 then fds[fd].node.size else fds[fd].offset
    }

    /** The number of bytes that a write with this plan stores. */
    ghost function Stored(plan: Plan, offset: u32, size: nat): int {
      if plan.Short? then plan.blocks * BLOCK - offset else size
    }

    /** What becomes of a write of `size` bytes through the descriptor. */
    ghost function PlanAt(fd: int, size: nat): Plan
      requires Valid()
      reads this, fs, fs.bitmap, root, fds, if 0 <= fd < fds.Length then {fds[fd].node} else {}
    {
      if Opened(fd) then fs.PlanOf(fds[fd].node, WriteOffset(fd), size) else Full
    }

    method Write(fd: int, buffer: seq<byte>) returns (n: int)
      requires Valid() && (InUse(fd) ==> Opened(fd))
      requires InUse(fd) ==> WriteOffset(fd) <= |DataOf(fd)| && WriteOffset(fd) as int + |buffer| < WORD
      modifies fs`disk, fs`sb, fs`owner, fs.bitmap, fds
      modifies if 0 <= fd < fds.Length && fds[fd].node != null then {fds[fd].node} else {}
      ensures n == -1 <==> !old(InUse(fd))
      ensures n == -1 ==> Valid() && Tree() == old(Tree()) && fds[..] == old(fds[..])
      ensures Valid() <==> !old(PlanAt(fd, |buffer|)).Leak?
      ensures n >= 0 && !Valid() ==>
        LostWrite(old(Tree()), old(PlanAt(fd, |buffer|)), old(WriteOffset(fd)) as nat, buffer, n,
          fs.disk, fs.sb, fs.bitmap[..], fs.owner, fs.refs, old(fds[fd].node.ino as nat))
      ensures n != -1 ==>
        && fds[..] == old(fds[..])[fd := old(fds[fd]).(offset := fds[fd].offset)]
        && fds[fd].offset == old(WriteOffset(fd)) as int + n
        && old(WriteOffset(fd)) ==
           (if old(fds[fd].flags) / O_APPEND % 2 == 1 then old(fds[fd].node.size) else old(fds[fd].offset))
      ensures n != -1 && Valid() ==>
        && n == Stored(old(PlanAt(fd, |buffer|)), old(WriteOffset(fd)), |buffer|)
        && 0 <= n <= |buffer|
        && Tree() == old(Tree())[old(fds[fd].node.ino as nat) :=
            File(Splice(old(DataOf(fd)), old(WriteOffset(fd)), buffer[..n]))]
        && Opened(fd)
    {
      hide TreeOf, Consistent, Splice, LostWrite, FileSystem.PlanOf;
      if fd < 0 || fd >= MAX_OPEN_FILES || !fds[fd].inUse { return -1; }
      var node := fds[fd].node;
      if fds[fd].flags / O_APPEND % 2 == 1 { fds[fd] := fds[fd].(offset := node.size); }
      var off := fds[fd].offset;
      var m := fs.Write(node, off, buffer);
      n := m;
      if n > 0 {
        fds[fd] := fds[fd].(offset := off + n);
        if fds[fd].offset > node.size { node.size := fds[fd].offset; }
      }
    }

    /** The first half of vfs_open: the node of the file, which is created if it is not there and
        the flags say so. */
    method FindOrCreate(path: Path, flags: nat, ghost fuel: nat)
      returns (node: VfsNode?, ghost ino: nat, ghost found: Tree)
      requires Valid() && NoNul(path) && |path| < MAX_PATH && !Resolve(Tree(), path, fuel).Stuck?
      requires Resolve(Tree(), path, fuel).Null? && flags / O_CREAT % 2 == 1 ==>
              ParentReady(path, fuel) && NewName(path, fuel) && IsName(BaseName(path))
      modifies fs`disk, fs`sb, fs`owner, fs`refs, fs.bitmap, root`size
      ensures Valid() && Tree() == found
      ensures node == null <==>
        old(Resolve(Tree(), path, fuel)).Null? && !(flags / O_CREAT % 2 == 1 && old(CanEnter(path, fuel)))
      ensures old(Resolve(Tree(), path, fuel)).At? ==>
        found == old(Tree()) && ino == InoOf(old(Resolve(Tree(), path, fuel)))
      ensures node == null ==> found == old(Tree())
      ensures old(Resolve(Tree(), path, fuel)).Null? && flags / O_CREAT % 2 == 1 && old(CanEnter(path, fuel)) ==>
        && IsLowestFree(old(Tree()), ino)
        && found == AddObj(old(Tree()), InoOf(old(ParentOf(path, fuel))), BaseName(path), ino, File([]))
        && Resolve(found, path, fuel) == At(ino)
      ensures node != null ==>
        && fs.IsNode(node) && node.ino as nat == ino && !IsLink(found, ino)
        && (node == root || (fresh(node) && node.ino != ROOT))
    {
      hide Resolve, TreeOf, Consistent, NoNul, BaseName, IsName, AddObj, NewObj, Find, IsLowestFree;
      ghost var t := Tree();
      found, ino := t, InoOf(Resolve(t, path, fuel));
      CutShort(path);
      node := ResolvePath(path, fuel);
      if node == null && flags / O_CREAT % 2 == 1 {
        var r;
        r, ino := Create(path, VFS_FILE as nat, fuel);
        if r != 0 { return; }
        NewFile();
        AddedThere(t, InoOf(old(ParentOf(path, fuel))), BaseName(path), ino, File([]));
        found := Tree();
        node := ResolvePath(path, fuel);
      }
      if node != null { NotLink(found, path, fuel); }
    }

    /** The second half of vfs_open: the file is cut if the flags say so, and gets a descriptor. */
    method OpenNode(node: VfsNode, flags: nat) returns (fd: int)
      requires Valid() && fs.IsNode(node) && (flags / O_TRUNC % 2 == 1 ==> fs.IsFile(node))
      modifies fs`disk, fs`sb, fs`owner, fs.bitmap, node`size, fds
      ensures Valid() && -1 <= fd < MAX_OPEN_FILES
      ensures fd == -1 <==> forall i :: 0 <= i < MAX_OPEN_FILES ==> old(fds[..])[i].inUse
      ensures fd == -1 ==> fds[..] == old(fds[..]) && Tree() == old(Tree())
      ensures fd != -1 ==>
        && !old(fds[..])[fd].inUse && (forall i :: 0 <= i < fd ==> old(fds[..])[i].inUse)
        && Tree() == (if flags / O_TRUNC % 2 == 1 then old(Tree())[node.ino as nat := File([])] else old(Tree()))
        && fs.IsNode(node)
        && fds[..] == old(fds[..])[fd :=
             Descriptor(node, if flags / O_APPEND % 2 == 1 then node.size else 0, flags, true)]
    {
      hide TreeOf, Consistent;
      fd := FdAlloc();
      assert forall i :: 0 <= i < MAX_OPEN_FILES ==> fds[i] == old(fds[..])[i];
      if fd < 0 { return; }
      if flags / O_TRUNC % 2 == 1 {
        var r := fs.Truncate(node, 0);
      }
      fds[fd] := Descriptor(node, if flags / O_APPEND % 2 == 1 then node.size else 0, flags, true);
    }

    /** vfs_open finds the file, creates it if asked to, cuts it if asked to, and gives out the
        lowest descriptor not in use. */
    method Open(path: Path, flags: nat, ghost fuel: nat) returns (fd: int, ghost ino: nat, ghost found: Tree)
      requires Valid() && NoNul(path) && |path| < MAX_PATH && !Resolve(Tree(), path, fuel).Stuck?
      requires Resolve(Tree(), path, fuel).Null? && flags / O_CREAT % 2 == 1 ==>
              ParentReady(path, fuel) && NewName(path, fuel) && IsName(BaseName(path))
      requires flags / O_TRUNC % 2 == 1 ==> !IsDirAt(Tree(), Resolve(Tree(), path, fuel))
      modifies fs`disk, fs`sb, fs`owner, fs`refs, fs.bitmap, root`size, fds
      ensures Valid() && -1 <= fd < MAX_OPEN_FILES
      ensures fd == -1 <==>
        || (old(Resolve(Tree(), path, fuel)).Null? && !(flags / O_CREAT % 2 == 1 && old(CanEnter(path, fuel))))
        || (forall i :: 0 <= i < MAX_OPEN_FILES ==> old(fds[..])[i].inUse)
      ensures old(Resolve(Tree(), path, fuel)).At? ==>
        found == old(Tree()) && ino == InoOf(old(Resolve(Tree(), path, fuel)))
      ensures old(Resolve(Tree(), path, fuel)).Null? && !(flags / O_CREAT % 2 == 1 && old(CanEnter(path, fuel))) ==>
              found == old(Tree())
      ensures old(Resolve(Tree(), path, fuel)).Null? && flags / O_CREAT % 2 == 1 && old(CanEnter(path, fuel)) ==>
        && IsLowestFree(old(Tree()), ino)
        && found == AddObj(old(Tree()), InoOf(old(ParentOf(path, fuel))), BaseName(path), ino, File([]))
        && Resolve(found, path, fuel) == At(ino)
      ensures fd != -1 ==>
        && !old(fds[..])[fd].inUse && (forall i :: 0 <= i < fd ==> old(fds[..])[i].inUse)
        && Tree() == (if flags / O_TRUNC % 2 == 1 then found[ino := File([])] else found)
        && ino in found && !IsLink(found, ino) && (flags / O_TRUNC % 2 == 1 ==> found[ino].File?)
        && fds[fd].node != null && fds[fd].node.ino as nat == ino && fs.IsNode(fds[fd].node)
        && (fds[fd].node == root || fresh(fds[fd].node))
        && fds[..] == old(fds[..])[fd :=
             Descriptor(fds[fd].node, if flags / O_APPEND % 2 == 1 then fds[fd].node.size else 0, flags, true)]
      ensures fd == -1 ==> fds[..] == old(fds[..]) && Tree() == found
    {
      hide Resolve, TreeOf, Consistent, NoNul, BaseName, IsName, AddObj, Find, IsLowestFree;
      ghost var was := Resolve(Tree(), path, fuel);
      var node;
      node, ino, found := FindOrCreate(path, flags, fuel);
      if node == null { return -1, ino, found; }
      if flags / O_TRUNC % 2 == 1 {
        AddedFile(old(Tree()), was, found, InoOf(old(ParentOf(path, fuel))), BaseName(path), ino);
      }
      fd := OpenNode(node, flags);
    }
  }
}
