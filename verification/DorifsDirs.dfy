/** Directories, and inodes coming and going. */
module DorifsDirs {
  import opened Bits
  import opened Bytes
  import opened DorifsRecords
  import opened DorifsTree
  import opened DorifsView
  import opened DorifsFrames

  /** What the invariant says of a directory. */
  lemma DirFacts(d: Disk, sb: Superblock, bm: seq<byte>, owner: Owner, refs: Refs, ino: nat)
    requires Consistent(d, sb, bm, owner, refs)
    requires ino in TreeOf(d) && TreeOf(d)[ino].Dir?
    ensures ino < USABLE_INODES
    ensures var n := NodeOf(d, InodeAt(d, ino));
      && n == Nodes(d)[ino] && n.rec.typ == TYPE_DIR
      && n.rec.size == DIRENT_BYTES * Slots(n) && Mapped(n, Blocks(n.rec.size), FILE_BLOCKS, FILE_BLOCKS)
      && TreeOf(d)[ino] == Dir(Entries(d, n))
      && Distinct(Entries(d, n))
      && (forall k :: 0 <= k < Slots(n) ==> EntryOk(Nodes(d), refs, ino, k, Entries(d, n)[k]))
      && (Slots(n) > 0 ==> n.ptrs[0] != 0)
    ensures InodeAt(d, ino).indirect < |d|
    ensures forall k :: 0 <= k < FILE_BLOCKS ==> NodeOf(d, InodeAt(d, ino)).ptrs[k] < |d|
  {
    hide Mapped, NodeOf, Nodes, Allocator, Owned, Distinct, EntryOk, Entries;
    NodeFacts(d, sb, bm, owner, refs, ino);
    var n := Nodes(d)[ino];
    assert DirOk(d, Nodes(d), refs, ino);
    FirstBlock(n);
  }

  lemma FirstBlock(n: Node)
    requires Shape(n) && n.rec.typ == TYPE_DIR
    ensures Mapped(n, Blocks(n.rec.size), FILE_BLOCKS, FILE_BLOCKS)
    ensures n.rec.size > 0 ==> n.ptrs[0] != 0
  {
  }

  // ---- inodes without blocks ----

  predicate RefersTo(e: Entry, ino: nat) { e.Live? && e.ino == ino }

  /** No entry refers to the inode. */
  ghost predicate Unreferenced(d: Disk, v: seq<Node>, ino: nat) {
    forall i, k :: 0 <= i < |v| && v[i].rec.typ == TYPE_DIR && 0 <= k < Slots(v[i]) ==>
      !RefersTo(Entries(d, v[i])[k], ino)
  }

  lemma FreeUnreferenced(d: Disk, refs: Refs, ino: nat)
    requires |d| > TABLE_BLOCKS && Dirs(d, Nodes(d), refs)
    requires ino < USABLE_INODES && Nodes(d)[ino].rec.typ == TYPE_FREE
    ensures Unreferenced(d, Nodes(d), ino)
  {
    hide Entries, Slots, Nodes, Distinct;
    var v := Nodes(d);
    forall i, k | 0 <= i < |v| && v[i].rec.typ == TYPE_DIR && 0 <= k < Slots(v[i])
      ensures !RefersTo(Entries(d, v[i])[k], ino)
    {
      assert DirOk(d, v, refs, i);
      assert EntryOk(v, refs, i, k, Entries(d, v[i])[k]);
    }
  }

  /** A record of an inode that has no data. */
  ghost predicate HollowRecord(rec: Inode) {
    && (forall k :: 0 <= k < DIRECT ==> rec.direct[k] == 0) && rec.indirect == 0 && rec.blockCount == 0
    && rec.typ <= TYPE_SYMLINK && rec.target[255] == 0
    && (rec.typ == TYPE_FILE || rec.typ == TYPE_DIR ==> rec.size == 0)
  }

  lemma HollowNode(d: Disk, rec: Inode)
    requires HollowRecord(rec)
    ensures Hollow(NodeOf(d, rec)) && Shape(NodeOf(d, rec))
    ensures forall s :: 0 <= s < SLOTS ==> Slot(NodeOf(d, rec), s) == 0
    ensures rec.typ == TYPE_DIR ==> rec.size == 0
    ensures ObjOf(d, NodeOf(d, rec)) == EmptyObj(rec)
  {
  }

  function EmptyObj(rec: Inode): Obj {
    if rec.typ == TYPE_FILE then File([]) else if rec.typ == TYPE_DIR then Dir([]) else Link(CString(rec.target))
  }

  /** All the pointers of a hollow node are zero. */
  lemma HollowSlots(n: Node)
    requires Hollow(n)
    ensures forall s :: 0 <= s < SLOTS ==> Slot(n, s) == 0
  {
  }

  /** The directories after the record of an unreferenced inode was replaced by a hollow one. */
  lemma DirsReplace(d: Disk, d1: Disk, refs: Refs, ino: nat, rec: Inode)
    requires OnlyNode(d, d1, ino) && Dirs(d, Nodes(d), refs)
    requires forall j :: 0 <= j < USABLE_INODES ==> Shape(Nodes(d)[j])
    requires Unreferenced(d, Nodes(d), ino) && ino != 0 && ino != ROOT
    requires HollowRecord(rec) && Nodes(d1)[ino] == NodeOf(d1, rec)
    ensures Dirs(d1, Nodes(d1), refs) && Unreferenced(d1, Nodes(d1), ino)
  {
    hide Shape, SameBlocksOf, Nodes, Entries, Distinct, NodeOf, HollowRecord;
    HollowNode(d1, rec);
    var v, w := Nodes(d), Nodes(d1);
    forall i | 0 <= i < USABLE_INODES
      ensures DirOk(d1, w, refs, i)
      ensures w[i].rec.typ == TYPE_DIR ==> forall k :: 0 <= k < Slots(w[i]) ==> !RefersTo(Entries(d1, w[i])[k], ino)
    {
      if i == ino {
        EmptyDirOk(d1, w, refs, ino);
      } else if w[i].rec.typ == TYPE_DIR {
        SameEntries(d, d1, v[i]);
        assert DirOk(d, v, refs, i);
      }
    }
  }

  lemma EmptyDirOk(d: Disk, v: seq<Node>, refs: Refs, i: nat)
    requires i < |v| && (v[i].rec.typ == TYPE_DIR ==> v[i].rec.size == 0)
    ensures DirOk(d, v, refs, i) && (v[i].rec.typ == TYPE_DIR ==> Slots(v[i]) == 0)
  {
  }

  /** An unreferenced inode without data gets another record without data. */
  lemma ReplaceHollow(d: Disk, sb: Superblock, bm: seq<byte>, owner: Owner, refs: Refs, ino: nat, rec: Inode,
                      d1: Disk, sb1: Superblock)
    requires Consistent(d, sb, bm, owner, refs)
    requires ino < USABLE_INODES && ino != 0 && ino != ROOT
    requires Hollow(Nodes(d)[ino]) && Unreferenced(d, Nodes(d), ino) && HollowRecord(rec)
    requires d1 == WithInode(d, ino, rec)
    requires sb1 == sb.(freeInodes := sb1.freeInodes)
    requires sb1.freeInodes + (if rec.typ == TYPE_FREE then 0 else 1)
      == sb.freeInodes + (if Nodes(d)[ino].rec.typ == TYPE_FREE then 0 else 1)
    ensures Consistent(d1, sb1, bm, owner, refs)
    ensures Unreferenced(d1, Nodes(d1), ino) && Hollow(Nodes(d1)[ino]) && Nodes(d1)[ino].rec == rec
    ensures TreeOf(d1) == if rec.typ == TYPE_FREE then TreeOf(d) - {ino} else TreeOf(d)[ino := EmptyObj(rec)]
  {
    hide Owned, NodeOf, SameBlocksOf, Kept, Shape, BitsAre, Cached, Dirs, Entries, WithInode, DataRegion, Hollow,
      InProgress, Nodes, Unreferenced, HollowRecord, TreeOf, ObjOf;
    Begin(d, owner, ino);
    RegionOf(d, sb, bm, owner);
    NodeFacts(d, sb, bm, owner, refs, ino);
    HollowNode(d, rec);
    HollowSlots(Nodes(d)[ino]);
    Rewrite(d, owner, ino, rec);
    Commit(d, owner, sb, ino, d, d1, rec, owner);
    HollowNode(d1, rec);
    CommittedNode(d, d1, ino, rec);
    AllocatorInode(d, sb, bm, owner.Keys, ino, rec);
    AllocatorCount(d1, sb, sb1, bm, owner.Keys);
    TreeStep(d, d1, ino);
    DirsReplace(d, d1, refs, ino, rec);
    UsedChange(Nodes(d), Nodes(d1), ino, USABLE_INODES);
  }

  lemma AllocatorCount(d: Disk, sb: Superblock, sb1: Superblock, bm: seq<byte>, S: set<nat>)
    requires Allocator(d, sb, bm, S) && sb1 == sb.(freeInodes := sb1.freeInodes)
    ensures Allocator(d, sb1, bm, S)
  {
  }

  lemma CommittedNode(d: Disk, d1: Disk, ino: nat, rec: Inode)
    requires |d| > TABLE_BLOCKS && ino < USABLE_INODES && d1 == WithInode(d, ino, rec)
    ensures Nodes(d1)[ino] == NodeOf(d1, rec)
  {
    InodeUpdate(d, ino, rec, ino);
  }

  /** Work on an inode with no pointers may start from any record without pointers. */
  lemma Rewrite(d: Disk, owner: Owner, ino: nat, rec: Inode)
    requires |d| > TABLE_BLOCKS && ino < USABLE_INODES && InProgress(d, owner, ino, d, InodeAt(d, ino), owner)
    requires forall s :: 0 <= s < SLOTS ==> Slot(Nodes(d)[ino], s) == 0 == Slot(NodeOf(d, rec), s)
    ensures InProgress(d, owner, ino, d, rec, owner)
  {
    hide NodeOf, Slot, Owned;
    SlotsOnly(Nodes(d), owner, ino, NodeOf(d, rec));
  }

  // ---- a directory changes ----

  /** The directories after directory ino has got new entries. */
  lemma DirsChange(d0: Disk, d1: Disk, refs: Refs, refs': Refs, ino: nat)
    requires OnlyNode(d0, d1, ino) && Dirs(d0, Nodes(d0), refs)
    requires forall j :: 0 <= j < USABLE_INODES ==> Shape(Nodes(d0)[j])
    requires Nodes(d1)[ino].rec.typ == Nodes(d0)[ino].rec.typ
    requires DirOk(d1, Nodes(d1), refs', ino)
    requires forall x :: x in refs ==> x in refs' && (refs'[x] == refs[x] || Unreferenced(d0, Nodes(d0), x))
    ensures Dirs(d1, Nodes(d1), refs')
  {
    hide Shape, SameBlocksOf, Nodes, Entries, Slots, Distinct, Unreferenced;
    var v, w := Nodes(d0), Nodes(d1);
    forall i | 0 <= i < USABLE_INODES && i != ino ensures DirOk(d1, w, refs', i) {
      if w[i].rec.typ == TYPE_DIR {
        SameEntries(d0, d1, v[i]);
        assert DirOk(d0, v, refs, i);
        forall k | 0 <= k < Slots(w[i]) ensures EntryOk(w, refs', i, k, Entries(d1, w[i])[k]) {
          var e := Entries(d0, v[i])[k];
          assert EntryOk(v, refs, i, k, e);
          if e.Live? && Unreferenced(d0, v, e.ino) {
            ReferredTo(d0, v, i, k);
          }
        }
      }
    }
  }

  lemma ReferredTo(d: Disk, v: seq<Node>, i: nat, k: nat)
    requires i < |v| && v[i].rec.typ == TYPE_DIR && k < Slots(v[i]) && Entries(d, v[i])[k].Live?
    ensures !Unreferenced(d, v, Entries(d, v[i])[k].ino)
  {
    assert RefersTo(Entries(d, v[i])[k], Entries(d, v[i])[k].ino);
  }

  /** Directory ino has got new entries; everything else is as it was. */
  lemma FinishDir(d0: Disk, sb0: Superblock, bm0: seq<byte>, owner0: Owner, refs: Refs,
                  d1: Disk, sb: Superblock, bm: seq<byte>, owner: Owner, refs': Refs, ino: nat)
    requires Consistent(d0, sb0, bm0, owner0, refs) && OnlyNode(d0, d1, ino)
    requires Allocator(d1, sb, bm, owner.Keys) && sb == sb0.(freeBlocks := sb.freeBlocks)
    requires Owned(Nodes(d1), owner)
    requires Nodes(d1)[ino].rec.typ == TYPE_DIR == Nodes(d0)[ino].rec.typ && Shape(Nodes(d1)[ino])
    requires DirOk(d1, Nodes(d1), refs', ino)
    requires forall x :: x in refs ==> x in refs' && (refs'[x] == refs[x] || Unreferenced(d0, Nodes(d0), x))
    ensures Consistent(d1, sb, bm, owner, refs')
    ensures TreeOf(d1) == TreeOf(d0)[ino := Dir(Entries(d1, Nodes(d1)[ino]))]
  {
    hide Owned, SameBlocksOf, Shape, Dirs, DirOk, Entries, Allocator, Unreferenced, TreeOf, Nodes;
    TreeStep(d0, d1, ino);
    DirsChange(d0, d1, refs, refs', ino);
    UsedChange(Nodes(d0), Nodes(d1), ino, USABLE_INODES);
  }

  /** A directory block with one entry stored: which entries it holds. */
  lemma EntryStored(d: Disk, n: Node, blk: Block, d1: Disk, n1: Node, k: nat, e: Dirent)
    requires k < DIR_SLOTS && DirBlock(d1, n1) == WithDirent(blk, k, e)
    requires Slots(n) > 0 ==> blk == DirBlock(d, n)
    ensures k < Slots(n) == Slots(n1) ==> Entries(d1, n1) == Entries(d, n)[k := EntryOf(e)]
    ensures k == Slots(n) == Slots(n1) - 1 ==> Entries(d1, n1) == Entries(d, n) + [EntryOf(e)]
  {
    forall j | 0 <= j < DIR_SLOTS
      ensures DirentAt(DirBlock(d1, n1), j) == if j == k then e else DirentAt(blk, j)
    {
      DirentUpdate(blk, k, e, j);
    }
  }

  /** Work on an inode whose record stays as it is needs no commit. */
  lemma Settled(d0: Disk, owner0: Owner, sb: Superblock, ino: nat, d: Disk, owner: Owner)
    requires |d0| > TABLE_BLOCKS && ino < USABLE_INODES
    requires InProgress(d0, owner0, ino, d, InodeAt(d0, ino), owner)
    requires DataRegion(sb, owner0)
    ensures OnlyNode(d0, d, ino) && Owned(Nodes(d), owner)
    ensures Nodes(d)[ino] == NodeOf(d, InodeAt(d0, ino))
  {
    hide Owned, NodeOf, DataRegion, SameBlocksOf;
    forall j | 0 <= j < USABLE_INODES ensures InodeAt(d, j) == InodeAt(d0, j) {
      InodeInTable(j);
    }
    forall j | 0 <= j < USABLE_INODES && j != ino
      ensures Nodes(d)[j] == Nodes(d0)[j] && SameBlocksOf(d0, d, Nodes(d0)[j], 0)
    {
      CommitOther(d0, owner0, sb, ino, d, d, j);
    }
    assert Nodes(d) == Nodes(d0)[ino := NodeOf(d, InodeAt(d0, ino))];
  }

  // ---- reading a directory ----

  /** The entry at byte 262 * k of the directory is its entry k, and it is compared by name. */
  lemma SlotFacts(d: Disk, v: seq<Node>, refs: Refs, i: nat, n: Node, k: nat, name: seq<byte>)
    requires k < Slots(n) && n.ptrs != [] && 0 != n.ptrs[0] < |d| && NoNul(name)
    requires EntryOk(v, refs, i, k, Entries(d, n)[k])
    ensures k * DIRENT_BYTES / BLOCK == 0 && k * DIRENT_BYTES % BLOCK == k * DIRENT_BYTES
    ensures k * DIRENT_BYTES + DIRENT_BYTES <= BLOCK
    ensures var e := DirentFrom(d[n.ptrs[0]][k * DIRENT_BYTES..k * DIRENT_BYTES + DIRENT_BYTES]);
      && Entries(d, n)[k] == EntryOf(e)
      && (Matches(e, name) <==> Entries(d, n)[k].Live? && Entries(d, n)[k].name == name)
      && e == DirentAt(d[n.ptrs[0]], k)
  {
    var e := DirentFrom(d[n.ptrs[0]][k * DIRENT_BYTES..k * DIRENT_BYTES + DIRENT_BYTES]);
    assert DirBlock(d, n) == d[n.ptrs[0]];
    assert e == DirentAt(d[n.ptrs[0]], k);
    assert Entries(d, n)[k] == EntryOf(e);
    if e.ino != 0 {
      MatchesExactly(e, name);
    }
  }

  const VFS_FILE: u32 := 1
  const VFS_DIRECTORY: u32 := 2
  const VFS_SYMLINK: u32 := 4

  function VfsType(typ: nat): u32 {
    if typ == TYPE_FILE as int then VFS_FILE else if typ == TYPE_DIR as int then VFS_DIRECTORY
    else if typ == TYPE_SYMLINK as int then VFS_SYMLINK else 0
  }

  /** The type of a node of the virtual file system that stands for this object. */
  function TypeOf(o: Obj): u32 {
    match o case File(_) => VFS_FILE case Dir(_) => VFS_DIRECTORY case Link(_) => VFS_SYMLINK
  }

  /** An inode's record against the object it stands for. */
  lemma RecordFacts(d: Disk, sb: Superblock, bm: seq<byte>, owner: Owner, refs: Refs, ino: nat)
    requires Consistent(d, sb, bm, owner, refs) && ino in TreeOf(d)
    ensures ino < USABLE_INODES && InodeBlock(ino) < |d|
    ensures var rec := InodeAt(d, ino); var o := TreeOf(d)[ino];
      && rec.typ != TYPE_FREE && VfsType(rec.typ) == TypeOf(o)
      && (rec.typ == TYPE_FILE <==> o.File?) && (rec.typ == TYPE_DIR <==> o.Dir?)
      && (rec.typ == TYPE_SYMLINK <==> o.Link?)
      && (o.File? ==> |o.data| == rec.size)
      && (o.Dir? ==> DIRENT_BYTES * |o.entries| == rec.size)
      && (o.Link? ==> rec.target[255] == 0 && o.target == CString(rec.target))
  {
    NodeFacts(d, sb, bm, owner, refs, ino);
    hide Mapped, Allocator, Owned, Distinct, EntryOk, NodeOf, Nodes, ByteAt;
    assert DirOk(d, Nodes(d), refs, ino);
  }

  /** A live entry names an inode in use, of the recorded type. */
  lemma EntryTarget(d: Disk, sb: Superblock, bm: seq<byte>, owner: Owner, refs: Refs, i: nat, k: nat, e: Entry)
    requires Consistent(d, sb, bm, owner, refs) && EntryOk(Nodes(d), refs, i, k, e) && e.Live?
    ensures e.ino != ROOT && e.ino != i && e.ino in TreeOf(d) && e.ino < USABLE_INODES
    ensures TypeOf(TreeOf(d)[e.ino]) == VfsType(e.typ)
  {
    hide Mapped, Allocator, Owned, Distinct, NodeOf, Dirs, Consistent, TreeOf, VfsType, TypeOf, InodeAt;
    NodeFacts(d, sb, bm, owner, refs, e.ino);
    RecordFacts(d, sb, bm, owner, refs, e.ino);
  }

  // ---- appending an entry ----

  /** The directory with the entry appended is in order. */
  lemma DirOkAppend(d0: Disk, v: seq<Node>, refs: Refs, d1: Disk, w: seq<Node>, i: nat, e: Entry)
    requires i < |v| == |w| && DirOk(d0, v, refs, i) && v[i].rec.typ == TYPE_DIR == w[i].rec.typ
    requires forall j :: 0 <= j < |v| ==> w[j].rec.typ == v[j].rec.typ
    requires Slots(v[i]) < DIR_SLOTS && w[i].rec.size == v[i].rec.size + DIRENT_BYTES
    requires Entries(d1, w[i]) == Entries(d0, v[i]) + [e]
    requires e.Live? && NoNul(e.name) && e.ino < |v| && e.ino != ROOT && e.ino != i
    requires v[e.ino].rec.typ == e.typ && e.typ != TYPE_FREE as int
    requires Find(Entries(d0, v[i]), e.name) == |Entries(d0, v[i])|
    requires Unreferenced(d0, v, e.ino)
    ensures DirOk(d1, w, refs[e.ino := (i, Slots(v[i]))], i)
  {
    hide Entries;
    var es, refs' := Entries(d0, v[i]), refs[e.ino := (i, Slots(v[i]))];
    forall k | 0 <= k < Slots(w[i]) ensures EntryOk(w, refs', i, k, (es + [e])[k]) {
      if k < Slots(v[i]) {
        assert EntryOk(v, refs, i, k, es[k]);
        if es[k].Live? {
          ReferredTo(d0, v, i, k);
        }
      }
    }
  }

  /** The record, the pointers and the block of a directory to which an entry was appended. */
  lemma AppendShape(d0: Disk, n: Node, d2: Disk, cur: Inode, blk: Block, de: Dirent)
    requires n.rec.typ == TYPE_DIR && n.rec.size == DIRENT_BYTES * Slots(n) && Slots(n) < DIR_SLOTS
    requires Mapped(n, Blocks(n.rec.size), FILE_BLOCKS, FILE_BLOCKS)
    requires cur.typ == TYPE_DIR && cur.size == n.rec.size + DIRENT_BYTES
    requires cur.blockCount == (if Slots(n) > 0 then n.rec.blockCount else n.rec.blockCount + 1)
    requires NodeOf(d2, cur).ptrs == n.ptrs[0 := NodeOf(d2, cur).ptrs[0]]
    requires 0 != NodeOf(d2, cur).ptrs[0] < |d2|
    requires d2[NodeOf(d2, cur).ptrs[0]] == WithDirent(blk, Slots(n), de)
    requires Slots(n) > 0 ==> blk == DirBlock(d0, n)
    ensures Shape(NodeOf(d2, cur))
    ensures Entries(d2, NodeOf(d2, cur)) == Entries(d0, n) + [EntryOf(de)]
  {
    hide NodeOf, WithDirent;
    var n2 := NodeOf(d2, cur);
    assert Slots(n2) == Slots(n) + 1;
    assert DirBlock(d2, n2) == d2[n2.ptrs[0]];
    EntryStored(d0, n, blk, d2, n2, Slots(n), de);
  }

  /** An entry for inode e.ino has been appended to directory p.  Nobody has looked whether the name
      is there already: the volume is in order exactly when it is not. */
  lemma AppendDone(d0: Disk, sb0: Superblock, bm0: seq<byte>, owner0: Owner, refs: Refs,
                   d2: Disk, sb: Superblock, bm: seq<byte>, own: Owner, p: nat, cur: Inode, d3: Disk, e: Entry)
    requires Consistent(d0, sb0, bm0, owner0, refs) && p in TreeOf(d0) && TreeOf(d0)[p].Dir?
    requires InProgress(d0, owner0, p, d2, cur, own)
    requires Allocator(d2, sb, bm, own.Keys) && sb == sb0.(freeBlocks := sb.freeBlocks)
    requires cur.typ == TYPE_DIR && Shape(NodeOf(d2, cur))
    requires var n := NodeOf(d0, InodeAt(d0, p));
      Slots(n) < DIR_SLOTS && cur.size == n.rec.size + DIRENT_BYTES
      && Entries(d2, NodeOf(d2, cur)) == Entries(d0, n) + [e]
    requires e.Live? && NoNul(e.name) && e.ino < USABLE_INODES && e.ino != ROOT && e.ino != p
    requires Nodes(d0)[e.ino].rec.typ == e.typ && e.typ != TYPE_FREE as int
    requires Unreferenced(d0, Nodes(d0), e.ino)
    requires d3 == WithInode(d2, p, cur)
    ensures |d3| > TABLE_BLOCKS && TreeOf(d3) == TreeOf(d0)[p := Dir(TreeOf(d0)[p].entries + [e])]
    ensures Find(TreeOf(d0)[p].entries, e.name) == |TreeOf(d0)[p].entries| ==>
      Consistent(d3, sb, bm, own, refs[e.ino := (p, |TreeOf(d0)[p].entries|)])
    ensures Find(TreeOf(d0)[p].entries, e.name) < |TreeOf(d0)[p].entries| ==>
      forall o, r :: !Consistent(d3, sb, bm, o, r)
  {
    hide Owned, NodeOf, SameBlocksOf, Kept, Shape, BitsAre, Cached, DirOk, Entries, WithInode, DataRegion,
      InProgress, Nodes, Unreferenced, TreeOf, Slots, Mapped, EntryOk, Distinct, Allocator, Find, InodeAt;
    RegionOf(d0, sb0, bm0, owner0);
    RegionOf(d2, sb, bm, own);
    RegionSame(sb0, sb, owner0);
    DirFacts(d0, sb0, bm0, owner0, refs, p);
    Commit(d0, owner0, sb, p, d2, d3, cur, own);
    KeptOf(d0, owner0, p, d2, cur, own);
    AllocatorInode(d2, sb, bm, own.Keys, p, cur);
    SameEntries(d2, d3, NodeOf(d2, cur));
    TreeStep(d0, d3, p);
    var es := TreeOf(d0)[p].entries;
    if Find(es, e.name) == |es| {
      DirOkAppend(d0, Nodes(d0), refs, d3, Nodes(d3), p, e);
      FinishDir(d0, sb0, bm0, owner0, refs, d3, sb, bm, own, refs[e.ino := (p, |es|)], p);
    } else {
      NotDistinct(es, e);
      forall o, r ensures !Consistent(d3, sb, bm, o, r) {
        if Consistent(d3, sb, bm, o, r) { DirFacts(d3, sb, bm, o, r, p); }
      }
    }
  }

  lemma NotDistinct(es: seq<Entry>, e: Entry)
    requires e.Live? && Find(es, e.name) < |es|
    ensures !Distinct(es + [e])
  {
    var k := Find(es, e.name);
    assert (es + [e])[k] == es[k] && (es + [e])[|es|] == e;
  }

  /** The block b of directory p was prepared on d1, for the record cur and with the contents blk. */
  ghost predicate Prepared(d0: Disk, p: nat, d1: Disk, cur: Inode, b: u32, blk: Block) {
    && InodeBlock(p) < |d0| && 0 != b < |d1| && cur.size < BLOCK
    && cur == InodeAt(d0, p).(direct := cur.direct, indirect := cur.indirect, blockCount := cur.blockCount)
    && NodeOf(d1, cur).ptrs == NodeOf(d0, InodeAt(d0, p)).ptrs[0 := b]
    && if HasBlock(NodeOf(d0, InodeAt(d0, p)), 0) then cur == InodeAt(d0, p) && blk == d1[b] && d1 == d0
       else cur.blockCount == (InodeAt(d0, p).blockCount + 1) % WORD
  }

  /** Entry e can be appended to directory p. */
  ghost predicate Enterable(d: Disk, p: nat, e: Entry) {
    && |d| > TABLE_BLOCKS && p in TreeOf(d) && TreeOf(d)[p].Dir? && |TreeOf(d)[p].entries| < DIR_SLOTS
    && e.Live? && NoNul(e.name) && e.ino < USABLE_INODES && e.ino != ROOT && e.ino != p
    && Nodes(d)[e.ino].rec.typ == e.typ && e.typ != TYPE_FREE as int && Unreferenced(d, Nodes(d), e.ino)
  }

  /** The entry was stored in slot k of block b, and then the record of inode p with its new size. */
  predicate DirentStored(d1: Disk, p: nat, cur: Inode, b: u32, blk: Block, k: nat, de: Dirent, d3: Disk) {
    && b < |d1| && InodeBlock(p) < |d1| && cur.size < BLOCK && k < DIR_SLOTS
    && d3 == WithInode(d1[b as nat := WithDirent(blk, k, de)], p, cur.(size := cur.size + DIRENT_BYTES))
  }

  lemma DirentDone(d0: Disk, sb0: Superblock, bm0: seq<byte>, owner0: Owner, refs: Refs, p: nat,
                   d1: Disk, sb: Superblock, bm: seq<byte>, cur: Inode, own: Owner, b: u32, blk: Block, de: Dirent,
                   d3: Disk)
    requires Consistent(d0, sb0, bm0, owner0, refs) && Enterable(d0, p, EntryOf(de))
    requires InProgress(d0, owner0, p, d1, cur, own) && sb == sb0.(freeBlocks := sb.freeBlocks)
    requires Allocator(d1, sb, bm, own.Keys) && sb.dataStart <= b && b as nat in own && own[b as nat] == (p, 0)
    requires Prepared(d0, p, d1, cur, b, blk) && DirentStored(d1, p, cur, b, blk, |EntriesIn(TreeOf(d0), p)|, de, d3)
    ensures |d3| > TABLE_BLOCKS && TreeOf(d3) == TreeOf(d0)[p := Dir(EntriesIn(TreeOf(d0), p) + [EntryOf(de)])]
    ensures NameFree(TreeOf(d0), p, EntryOf(de).name) ==>
      Consistent(d3, sb, bm, own, refs[EntryOf(de).ino := (p, |EntriesIn(TreeOf(d0), p)|)])
    ensures !NameFree(TreeOf(d0), p, EntryOf(de).name) ==> forall o, r :: !Consistent(d3, sb, bm, o, r)
  {
    hide NodeOf, InProgress, DataRegion, Allocator, InodeAt, Consistent, Nodes, TreeOf, WithInode, Owned, Entries,
      SameBlocksOf, Unreferenced, EntryOk, NameOf, Distinct, Mapped, NoNul, WithDirent, Find, BitsAre;
    DirFacts(d0, sb0, bm0, owner0, refs, p);
    AllocatorOf(d0, sb0, bm0, owner0, refs);
    RegionOf(d0, sb0, bm0, owner0);
    RegionSame(sb0, sb, owner0);
    var n, d2 := NodeOf(d0, InodeAt(d0, p)), d1[b as nat := WithDirent(blk, |TreeOf(d0)[p].entries|, de)];
    var cur' := cur.(size := cur.size + DIRENT_BYTES);
    FirstSlot(d0, n);
    InUse(d0, owner0, p, d1, cur, own, sb, bm, own.Keys);
    AllocatorFrame(d1, d2, sb, bm, own.Keys, b as nat);
    TouchData(d0, owner0, sb, p, d1, d2, cur, own, b as nat);
    Recount(d0, owner0, p, d2, cur, cur', own);
    AppendShape(d0, n, d2, cur', blk, de);
    AppendDone(d0, sb0, bm0, owner0, refs, d2, sb, bm, own, p, cur', d3, EntryOf(de));
  }

  lemma EmptyIsHollow()
    ensures HollowRecord(EMPTY_INODE) && EMPTY_INODE.typ == TYPE_FREE
  {
    assert forall k :: 0 <= k < DIRECT ==> EMPTY_INODE.direct[k] == 0;
  }

  lemma MadeEntry(ino: u32, typ: byte, name: seq<byte>)
    requires ino != 0 && |name| <= 255
    ensures EntryOf(MakeDirent(ino, typ, name)) == Live(name, ino, typ)
  {
    MadeName(ino, typ, name);
  }

  /** Slot k of a directory begins in its first block. */
  lemma SlotOffset(n: Node, k: nat)
    requires n.rec.size == DIRENT_BYTES * Slots(n) && k <= Slots(n) && Slots(n) < DIR_SLOTS
    ensures k * DIRENT_BYTES / BLOCK == 0 && k * DIRENT_BYTES % BLOCK == k * DIRENT_BYTES
    ensures n.rec.size / BLOCK == 0 && n.rec.size % BLOCK == DIRENT_BYTES * Slots(n)
    ensures k * DIRENT_BYTES + DIRENT_BYTES <= BLOCK
  {
  }

  /** A directory has its block exactly when it has had an entry. */
  lemma FirstSlot(d: Disk, n: Node)
    requires n.rec.size == DIRENT_BYTES * Slots(n) && Mapped(n, Blocks(n.rec.size), FILE_BLOCKS, FILE_BLOCKS)
    ensures HasBlock(n, 0) <==> Slots(n) > 0
    ensures Slots(n) > 0 && n.ptrs[0] < |d| ==> DirBlock(d, n) == d[n.ptrs[0]]
    ensures n.rec.blockCount < 2
  {
  }

  // ---- new inodes ----

  ghost predicate IsLowestFree(t: Tree, ino: nat) {
    1 <= ino < USABLE_INODES && ino !in t && forall i: nat :: 1 <= i < ino ==> i in t
  }

  /** What a new inode stands for, by the type flags given to create. */
  function NewObj(typ: nat): (o: Obj)
    ensures o.Dir? ==> o.entries == []
  {
    if Bit(typ, 1) then Dir([]) else if Bit(typ, 2) then Link([]) else File([])
  }

  /** With 2 among the flags it is a directory, else with 4 a link, and else a file. */
  lemma NewKinds(typ: nat)
    ensures NewObj(typ) ==
      if typ / 2 % 2 == 1 then Dir([]) else if typ / 4 % 2 == 1 then Link([]) else File([])
  {
    BitAt(typ, 1);
    BitAt(typ, 2);
  }

  function TypeCode(o: Obj): nat {
    match o case File(_) => 1 case Dir(_) => 2 case Link(_) => 3
  }

  /** The tree with a new object entered in a directory. */
  function AddObj(t: Tree, parent: nat, name: seq<byte>, ino: nat, o: Obj): Tree {
    t[ino := o][parent := Dir(EntriesIn(t, parent) + [Live(name, ino, TypeCode(o))])]
  }

  /** The entries of a directory of the tree. */
  function EntriesIn(t: Tree, dir: nat): seq<Entry> {
    if dir in t && t[dir].Dir? then t[dir].entries else []
  }

  /** There is room for one more entry of this name in the directory. */
  ghost predicate SlotFor(t: Tree, dir: nat, name: seq<byte>) {
    dir in t && t[dir].Dir? && |t[dir].entries| < DIR_SLOTS && NoNul(name) && |name| <= 255
  }

  /** The directory has no entry of this name. */
  predicate NameFree(t: Tree, dir: nat, name: seq<byte>) {
    Find(EntriesIn(t, dir), name) == |EntriesIn(t, dir)|
  }

  ghost predicate RoomFor(t: Tree, dir: nat, name: seq<byte>) {
    SlotFor(t, dir, name) && NameFree(t, dir, name)
  }

  lemma LinkedIsHollow()
    ensures HollowRecord(EMPTY_INODE.(links := 1))
  {
    assert forall k :: 0 <= k < DIRECT ==> EMPTY_INODE.direct[k] == 0;
  }

  lemma NewIsHollow(flags: nat, typ: u32)
    requires typ == if Bit(flags, 1) then TYPE_DIR else if Bit(flags, 2) then TYPE_SYMLINK else TYPE_FILE
    ensures var rec := EMPTY_INODE.(typ := typ, links := 1);
      HollowRecord(rec) && EmptyObj(rec) == NewObj(flags) && TypeCode(NewObj(flags)) == typ
  {
    assert forall k :: 0 <= k < DIRECT ==> EMPTY_INODE.direct[k] == 0;
    hide Bit;
  }

  lemma AddedObj(t: Tree, parent: nat, name: seq<byte>, ino: nat, o: Obj, code: nat)
    requires parent in t && t[parent].Dir? && 1 <= ino < USABLE_INODES && ino !in t && code == TypeCode(o)
    requires forall i: nat :: 1 <= i < ino ==> i in t
    ensures IsLowestFree(t, ino)
    ensures t[ino := o] - {ino} == t
    ensures AddObj(t, parent, name, ino, o) == t[ino := o][parent := Dir(t[parent].entries + [Live(name, ino, code)])]
  {
  }

  lemma StillRoom(t: Tree, parent: nat, ino: nat, o: Obj)
    requires parent in t && ino !in t
    ensures parent != ino && t[ino := o][parent] == t[parent]
  {
  }

  lemma {:induction false} CStringMeaning(s: seq<byte>, n: nat)
    requires n < |s| && s[n] == 0 && NoNul(s[..n])
    ensures CString(s) == s[..n]
  {
    if n > 0 {
      assert s[0] == s[..n][0];
      assert s[1..][..n - 1] == s[..n][1..];
      CStringMeaning(s[1..], n - 1);
      assert s[..n] == [s[0]] + s[1..][..n - 1];
    }
  }

  lemma {:induction false} CStringPrefix(s: seq<byte>)
    ensures CString(s) <= s
  {
    if s != [] && s[0] != 0 { CStringPrefix(s[1..]); }
  }

  /** A link keeps its target, cut to 255 bytes. */
  lemma LinkIsHollow(target: seq<byte>, rec: Inode)
    requires NoNul(target) && |target| < WORD
    requires rec == EMPTY_INODE.(typ := TYPE_SYMLINK, links := 1, size := |target|,
                                target := Strncpy(Zeros(256), target, 255))
    ensures HollowRecord(rec)
    ensures EmptyObj(rec) == Link(if |target| <= 255 then target else target[..255])
  {
    assert forall k :: 0 <= k < DIRECT ==> EMPTY_INODE.direct[k] == 0;
    var n := if |target| <= 255 then |target| else 255;
    var s := Strncpy(Zeros(256), target, 255);
    assert s[..n] == target[..n];
    CStringMeaning(s, n);
  }

  lemma {:induction false} UsedBound(v: seq<Node>, n: nat)
    requires n <= |v| && |v| > 0 && v[0].rec.typ == TYPE_FREE
    ensures UsedInodes(v, n) <= n && (n > 0 ==> UsedInodes(v, n) < n)
  {
    if n != 0 { UsedBound(v, n - 1); }
  }

  /** The inodes that are in the tree are those in use. */
  lemma FreeInodes(d: Disk, sb: Superblock, bm: seq<byte>, owner: Owner, refs: Refs)
    requires Consistent(d, sb, bm, owner, refs)
    ensures sb.freeInodes > MAX_INODES - USABLE_INODES - 1
    ensures forall i: nat :: i < USABLE_INODES ==> (i in TreeOf(d) <==> InodeAt(d, i).typ != TYPE_FREE)
    ensures TreeOf(d).Keys == set i: nat | i < USABLE_INODES && InodeAt(d, i).typ != TYPE_FREE
  {
    hide Owned, Allocator, Shape, DirOk, ObjOf, NodeOf, InodeAt, UsedInodes;
    DirsAre(d, sb, bm, owner, refs);
    UsedBound(Nodes(d), USABLE_INODES);
    forall i: nat | i < USABLE_INODES ensures i in TreeOf(d) <==> InodeAt(d, i).typ != TYPE_FREE {
      assert Nodes(d)[i].rec == InodeAt(d, i);
    }
  }

  /** The bytes at the place of record i, inside the table or behind it, read as a free inode. */
  predicate FreeRecord(d: Disk, i: nat) {
    InodeBlock(i) < |d| && InodeAt(d, i).typ == TYPE_FREE
  }

  lemma FreeRecordMeans(d: Disk, i: nat)
    ensures 1 + i / PER_BLOCK == InodeBlock(i) && InodeOffset(i) + INODE_BYTES <= BLOCK
    ensures FreeRecord(d, i) <==>
      InodeBlock(i) < |d| && InodeFrom(d[InodeBlock(i)][InodeOffset(i)..InodeOffset(i) + INODE_BYTES]).typ == TYPE_FREE
  {
  }

  lemma RecordStored(d: Disk, i: nat, rec: Inode)
    requires InodeBlock(i) < |d|
    ensures WithInode(d, i, rec) == d[InodeBlock(i) := Patch(d[InodeBlock(i)], InodeOffset(i), InodeBytes(rec))]
  {
  }

  /** Inside the table a record reads as free exactly when its inode is not in the tree. */
  lemma FreeRecords(d: Disk, sb: Superblock, bm: seq<byte>, owner: Owner, refs: Refs)
    requires Consistent(d, sb, bm, owner, refs)
    ensures forall i: nat :: i < USABLE_INODES ==> (FreeRecord(d, i) <==> i !in TreeOf(d))
  {
    hide TreeOf, InodeAt, Consistent;
    FreeInodes(d, sb, bm, owner, refs);
    forall i: nat | i < USABLE_INODES ensures FreeRecord(d, i) <==> i !in TreeOf(d) {
      NodeFacts(d, sb, bm, owner, refs, i);
    }
  }

  /** A record written behind the table is counted as an inode taken, and no inode was: no account
      makes the disk consistent. */
  lemma BeyondTable(d: Disk, sb: Superblock, bm: seq<byte>, owner: Owner, refs: Refs, ino: nat, rec: Inode,
                    d': Disk, sb': Superblock)
    requires Consistent(d, sb, bm, owner, refs)
    requires ino >= USABLE_INODES && InodeBlock(ino) < |d| && d' == WithInode(d, ino, rec)
    requires sb' == sb.(freeInodes := (sb.freeInodes + (WORD - 1)) % WORD)
    ensures forall o, r :: !Consistent(d', sb', bm, o, r)
  {
    hide Consistent, InodeAt, WithInode, TreeOf, UsedInodes, Nodes;
    FreeInodes(d, sb, bm, owner, refs);
    InodeTotal(d, sb, bm, owner, refs);
    SameTable(d, ino, rec, d');
    forall o, r ensures !Consistent(d', sb', bm, o, r) {
      if Consistent(d', sb', bm, o, r) { InodeTotal(d', sb', bm, o, r); }
    }
  }

  lemma InodeTotal(d: Disk, sb: Superblock, bm: seq<byte>, owner: Owner, refs: Refs)
    requires Consistent(d, sb, bm, owner, refs)
    ensures sb.freeInodes + UsedInodes(Nodes(d), USABLE_INODES) == MAX_INODES - 1
  {
    hide Owned, Allocator, Shape, Dirs, Nodes, UsedInodes;
  }

  lemma SameTable(d: Disk, ino: nat, rec: Inode, d': Disk)
    requires |d| > TABLE_BLOCKS && ino >= USABLE_INODES && InodeBlock(ino) < |d| && d' == WithInode(d, ino, rec)
    ensures |d'| == |d| && UsedInodes(Nodes(d'), USABLE_INODES) == UsedInodes(Nodes(d), USABLE_INODES)
  {
    hide InodeAt, WithInode, UsedInodes;
    InodeInTable(ino);
    forall i | 0 <= i < USABLE_INODES ensures |d'| == |d| && Nodes(d')[i].rec == Nodes(d)[i].rec {
      InodeInTable(i);
      ElsewhereSame(d, ino, rec, i);
    }
    UsedChange(Nodes(d), Nodes(d'), 0, USABLE_INODES);
  }

  lemma ElsewhereSame(d: Disk, ino: nat, rec: Inode, i: nat)
    requires InodeBlock(ino) < |d| && InodeBlock(i) < |d| && InodeBlock(i) != InodeBlock(ino)
    ensures |WithInode(d, ino, rec)| == |d| && InodeAt(WithInode(d, ino, rec), i) == InodeAt(d, i)
  {
  }

  lemma TakenInode(d: Disk, sb: Superblock, bm: seq<byte>, owner: Owner, refs: Refs, ino: nat)
    requires Consistent(d, sb, bm, owner, refs) && 1 <= ino < USABLE_INODES && InodeAt(d, ino).typ == TYPE_FREE
    ensures ino != ROOT && Hollow(Nodes(d)[ino]) && Unreferenced(d, Nodes(d), ino) && ino !in TreeOf(d)
    ensures Nodes(d)[ino].rec.typ == TYPE_FREE
  {
    hide Owned, Allocator, DirOk, ObjOf, Hollow, Unreferenced;
    assert Nodes(d)[ino].rec == InodeAt(d, ino);
    assert Shape(Nodes(d)[ino]);
    FreeUnreferenced(d, refs, ino);
  }

  // ---- removing an entry ----

  lemma DirOkRemove(d0: Disk, v: seq<Node>, refs: Refs, d1: Disk, w: seq<Node>, i: nat, k: nat)
    requires i < |v| == |w| && DirOk(d0, v, refs, i) && v[i].rec.typ == TYPE_DIR
    requires w == v && k < Slots(v[i])
    requires Entries(d1, w[i]) == Entries(d0, v[i])[k := Gone]
    ensures DirOk(d1, w, refs, i)
  {
    hide Entries;
    var es := Entries(d0, v[i]);
    var es' := es[k := Gone];
    forall j | 0 <= j < Slots(w[i]) ensures EntryOk(w, refs, i, j, es'[j]) {
      assert EntryOk(v, refs, i, j, es[j]);
    }
  }

  /** Since every live entry is the one entry of its inode, a removed one leaves none. */
  lemma OnlyEntry(d0: Disk, v: seq<Node>, refs: Refs, d1: Disk, p: nat, k: nat, e: Entry)
    requires |v| == USABLE_INODES && p < |v| && v[p].rec.typ == TYPE_DIR && k < Slots(v[p])
    requires forall i :: 0 <= i < |v| ==> DirOk(d0, v, refs, i)
    requires e == Entries(d0, v[p])[k] && e.Live?
    requires forall i :: 0 <= i < |v| && v[i].rec.typ == TYPE_DIR ==>
      Entries(d1, v[i]) == if i == p then Entries(d0, v[i])[k := Gone] else Entries(d0, v[i])
    ensures Unreferenced(d1, v, e.ino)
  {
    hide Entries, Slots, Distinct;
    assert DirOk(d0, v, refs, p);
    assert EntryOk(v, refs, p, k, e);
    forall i, j | 0 <= i < |v| && v[i].rec.typ == TYPE_DIR && 0 <= j < Slots(v[i])
      ensures !RefersTo(Entries(d1, v[i])[j], e.ino)
    {
      assert DirOk(d0, v, refs, i);
      assert EntryOk(v, refs, i, j, Entries(d0, v[i])[j]);
    }
  }

  /** The disk with entry k of directory p turned into a tombstone. */
  lemma RemoveEntry(d0: Disk, sb: Superblock, bm: seq<byte>, owner: Owner, refs: Refs, p: nat, k: nat, b: nat, d1: Disk)
    requires Consistent(d0, sb, bm, owner, refs) && p in TreeOf(d0) && TreeOf(d0)[p].Dir?
    requires k < |TreeOf(d0)[p].entries| && TreeOf(d0)[p].entries[k].Live?
    requires b == NodeOf(d0, InodeAt(d0, p)).ptrs[0] && b < |d0|
    requires d1 == d0[b := WithDirent(d0[b], k, DirentAt(d0[b], k).(ino := 0))]
    ensures Consistent(d1, sb, bm, owner, refs)
    ensures TreeOf(d1) == TreeOf(d0)[p := Dir(TreeOf(d0)[p].entries[k := Gone])]
    ensures Unreferenced(d1, Nodes(d1), TreeOf(d0)[p].entries[k].ino)
  {
    hide Owned, NodeOf, SameBlocksOf, Kept, Shape, BitsAre, Cached, DirOk, Entries, WithDirent, DataRegion,
      InProgress, Unreferenced, TreeOf, Nodes, Mapped, EntryOk, Distinct, Allocator, DirBlock, Dirs;
    RegionOf(d0, sb, bm, owner);
    DirFacts(d0, sb, bm, owner, refs, p);
    Begin(d0, owner, p);
    var n := NodeOf(d0, InodeAt(d0, p));
    DirBlockIs(d0, n);
    InUse(d0, owner, p, d0, InodeAt(d0, p), owner, sb, bm, owner.Keys);
    TouchData(d0, owner, sb, p, d0, d1, InodeAt(d0, p), owner, b);
    Settled(d0, owner, sb, p, d1, owner);
    AllocatorFrame(d0, d1, sb, bm, owner.Keys, b);
    DirBlockIs(d1, n);
    EntryStored(d0, n, d0[b], d1, n, k, DirentAt(d0[b], k).(ino := 0));
    assert Nodes(d1) == Nodes(d0);
    DirsAre(d0, sb, bm, owner, refs);
    DirOkRemove(d0, Nodes(d0), refs, d1, Nodes(d1), p, k);
    FinishDir(d0, sb, bm, owner, refs, d1, sb, bm, owner, refs, p);
    forall i | 0 <= i < USABLE_INODES && Nodes(d0)[i].rec.typ == TYPE_DIR && i != p
      ensures Entries(d1, Nodes(d0)[i]) == Entries(d0, Nodes(d0)[i])
    {
      SameEntries(d0, d1, Nodes(d0)[i]);
    }
    OnlyEntry(d0, Nodes(d0), refs, d1, p, k, TreeOf(d0)[p].entries[k]);
  }

  lemma DirBlockIs(d: Disk, n: Node)
    requires n.ptrs != [] && n.ptrs[0] < |d|
    ensures DirBlock(d, n) == d[n.ptrs[0]]
  {
  }

  lemma DirsAre(d: Disk, sb: Superblock, bm: seq<byte>, owner: Owner, refs: Refs)
    requires Consistent(d, sb, bm, owner, refs)
    ensures Nodes(d)[0].rec.typ == TYPE_FREE
    ensures forall i :: 0 <= i < USABLE_INODES ==> DirOk(d, Nodes(d), refs, i)
    ensures forall i :: 0 <= i < USABLE_INODES ==> Shape(Nodes(d)[i])
  {
  }

  // ---- giving back all the blocks of an inode ----

  /** The blocks in use when the first k pointers of inode t have been given back. */
  ghost function Left(owner: Owner, t: nat, k: nat): set<nat> {
    set b | b in owner && !(owner[b].0 == t && owner[b].1 < k)
  }

  lemma LeftStart(owner: Owner, t: nat)
    ensures Left(owner, t, 0) == owner.Keys
  {
  }

  lemma LeftStep(v: seq<Node>, owner: Owner, t: nat, k: nat)
    requires Owned(v, owner) && t < |v| && k < SLOTS
    ensures var p := Slot(v[t], k) as nat;
      if p == 0 then Left(owner, t, k + 1) == Left(owner, t, k)
      else p in Left(owner, t, k) && Left(owner, t, k + 1) == Left(owner, t, k) - {p}
  {
    var p := Slot(v[t], k) as nat;
    forall b: nat ensures b in Left(owner, t, k + 1) <==> b in Left(owner, t, k) && !(p != 0 && b == p) {
      if b in owner && owner[b] == (t, k) {
        assert Slot(v[owner[b].0], owner[b].1) == b;
      }
    }
  }

  lemma {:induction false} LeftSkip(v: seq<Node>, owner: Owner, t: nat, j: nat, k: nat)
    requires Owned(v, owner) && t < |v| && j <= k <= SLOTS
    requires forall s :: j <= s < k ==> Slot(v[t], s) == 0
    ensures Left(owner, t, k) == Left(owner, t, j)
    decreases k - j
  {
    if j < k {
      hide Owned, Slot, Left;
      LeftStep(v, owner, t, j);
      LeftSkip(v, owner, t, j + 1, k);
    }
  }

  /** What is owned without inode t. */
  ghost function Without(owner: Owner, t: nat): Owner {
    map b | b in owner && owner[b].0 != t :: owner[b]
  }

  lemma WithoutOwned(v: seq<Node>, owner: Owner, t: nat, n: Node)
    requires Owned(v, owner) && t < |v|
    requires forall s :: 0 <= s < SLOTS ==> Slot(n, s) == 0
    ensures Owned(v[t := n], Without(owner, t))
    ensures Without(owner, t).Keys == Left(owner, t, SLOTS)
  {
  }

  /** An unreferenced inode goes, with all its blocks. */
  lemma ReleaseNode(d0: Disk, sb0: Superblock, bm0: seq<byte>, owner: Owner, refs: Refs, t: nat,
                    d: Disk, sb: Superblock, bm: seq<byte>, d1: Disk, sb1: Superblock)
    requires Consistent(d0, sb0, bm0, owner, refs)
    requires t < USABLE_INODES && t != 0 && t != ROOT && t in TreeOf(d0)
    requires Unreferenced(d0, Nodes(d0), t)
    requires OnlyBitmap(d0, d, sb) && sb == sb0.(freeBlocks := sb.freeBlocks)
    requires Allocator(d, sb, bm, Left(owner, t, SLOTS))
    requires d1 == WithInode(d, t, EMPTY_INODE)
    requires sb1 == sb.(freeInodes := sb1.freeInodes) && sb1.freeInodes == sb.freeInodes as int + 1
    ensures Consistent(d1, sb1, bm, Without(owner, t), refs)
    ensures TreeOf(d1) == TreeOf(d0) - {t}
  {
    hide Owned, NodeOf, SameBlocksOf, Kept, Shape, BitsAre, Cached, DirOk, Entries, DataRegion, Slot, WithInode,
      Unreferenced, TreeOf, Nodes, Mapped, EntryOk, Distinct, Allocator, Dirs, HollowRecord, Without, Left, OnlyBitmap;
    RegionOf(d0, sb0, bm0, owner);
    RegionSame(sb0, sb, owner);
    NodeFacts(d0, sb0, bm0, owner, refs, t);
    AllocatorOf(d0, sb0, bm0, owner, refs);
    EmptyIsHollow();
    HollowNode(d, EMPTY_INODE);
    WithoutOwned(Nodes(d0), owner, t, NodeOf(d, EMPTY_INODE));
    BitmapKept(d0, owner, sb, t, d);
    assert InProgress(d0, owner, t, d, EMPTY_INODE, Without(owner, t));
    RegionOf(d, sb, bm, Without(owner, t));
    Commit(d0, owner, sb, t, d, d1, EMPTY_INODE, Without(owner, t));
    HollowNode(d1, EMPTY_INODE);
    CommittedNode(d, d1, t, EMPTY_INODE);
    AllocatorInode(d, sb, bm, Left(owner, t, SLOTS), t, EMPTY_INODE);
    AllocatorCount(d1, sb, sb1, bm, Left(owner, t, SLOTS));
    DirsAre(d0, sb0, bm0, owner, refs);
    TreeStep(d0, d1, t);
    DirsReplace(d0, d1, refs, t, EMPTY_INODE);
    UsedChange(Nodes(d0), Nodes(d1), t, USABLE_INODES);
    ShapesAfter(d0, d1, t);
  }

  lemma BitmapKept(d0: Disk, owner: Owner, sb: Superblock, t: nat, d: Disk)
    requires OnlyBitmap(d0, d, sb) && DataRegion(sb, owner) && |d0| > TABLE_BLOCKS
    ensures Kept(d0, d, owner, t)
  {
  }

  lemma ShapesAfter(d0: Disk, d1: Disk, t: nat)
    requires OnlyNode(d0, d1, t) && Shape(Nodes(d1)[t])
    requires forall i :: 0 <= i < USABLE_INODES ==> Shape(Nodes(d0)[i])
    ensures forall i :: 0 <= i < USABLE_INODES ==> Shape(Nodes(d1)[i])
  {
    hide Shape, Nodes, SameBlocksOf;
  }

  /** The tree without the entry in slot k of a directory and without the object it names. */
  function RemoveObj(t: Tree, parent: nat, k: nat): Tree {
    var es := EntriesIn(t, parent);
    if k < |es| && es[k].Live? then t[parent := Dir(es[k := Gone])] - {es[k].ino} else t
  }

  lemma RemoveNone(t: Tree, parent: nat)
    ensures RemoveObj(t, parent, |EntriesIn(t, parent)|) == t
  {
  }

  /** Unlink writes the bitmap, then the inode, then the directory block; the last two lie in
      different blocks, so the disk is the one where the entry went first. */
  lemma UnlinkDone(d0: Disk, sb0: Superblock, bm0: seq<byte>, owner: Owner, refs: Refs, p: nat, k: nat, b: nat, t: nat,
                   d: Disk, sb: Superblock, bm: seq<byte>, d1: Disk, sb1: Superblock)
    requires Consistent(d0, sb0, bm0, owner, refs) && p in TreeOf(d0) && TreeOf(d0)[p].Dir?
    requires k < |TreeOf(d0)[p].entries| && TreeOf(d0)[p].entries[k].Live? && t == TreeOf(d0)[p].entries[k].ino
    requires b == NodeOf(d0, InodeAt(d0, p)).ptrs[0] && b < |d0|
    requires OnlyBitmap(d0, d, sb) && sb == sb0.(freeBlocks := sb.freeBlocks)
    requires Allocator(d, sb, bm, Left(owner, t, SLOTS))
    requires |d| > TABLE_BLOCKS && t < USABLE_INODES
    requires d1 == WithInode(d, t, EMPTY_INODE)[b := WithDirent(d0[b], k, DirentAt(d0[b], k).(ino := 0))]
    requires sb1 == sb.(freeInodes := sb1.freeInodes) && sb1.freeInodes == sb.freeInodes as int + 1
    ensures Consistent(d1, sb1, bm, Without(owner, t), refs)
    ensures TreeOf(d1) == RemoveObj(TreeOf(d0), p, k)
  {
    hide Owned, NodeOf, SameBlocksOf, Kept, Shape, BitsAre, Cached, DirOk, Entries, DataRegion, Slot, WithDirent,
      Unreferenced, TreeOf, Nodes, Mapped, EntryOk, Distinct, Dirs, Without, Left, OnlyBitmap, Consistent,
      Allocator, InodeAt;
    DirFacts(d0, sb0, bm0, owner, refs, p);
    NodeFacts(d0, sb0, bm0, owner, refs, p);
    var e := TreeOf(d0)[p].entries[k];
    DirsAre(d0, sb0, bm0, owner, refs);
    TargetFacts(Nodes(d0), refs, p, k, e);
    NodeFacts(d0, sb0, bm0, owner, refs, t);
    var blk := WithDirent(d0[b], k, DirentAt(d0[b], k).(ino := 0));
    var dv := d0[b := blk];
    RemoveEntry(d0, sb0, bm0, owner, refs, p, k, b, dv);
    BothPatched(d0, d, sb, b, blk);
    AllocatorFrame(d, d[b := blk], sb, bm, Left(owner, t, SLOTS), b);
    assert d1 == WithInode(d[b := blk], t, EMPTY_INODE);
    ReleaseNode(dv, sb0, bm0, owner, refs, t, d[b := blk], sb, bm, d1, sb1);
  }

  lemma TargetFacts(v: seq<Node>, refs: Refs, p: nat, k: nat, e: Entry)
    requires EntryOk(v, refs, p, k, e) && e.Live? && v[0].rec.typ == TYPE_FREE
    ensures e.ino < |v| && e.ino != ROOT && e.ino != p && e.ino != 0 && v[e.ino].rec.typ != TYPE_FREE
  {
  }

  lemma BothPatched(d0: Disk, d: Disk, sb: Superblock, b: nat, blk: Block)
    requires OnlyBitmap(d0, d, sb) && b < |d0|
    ensures |d| == |d0| && OnlyBitmap(d0[b := blk], d[b := blk], sb)
  {
  }

  // ---- steps of unlink ----

  lemma TargetSlots(d: Disk, i: Inode)
    requires i.indirect < |d|
    ensures forall k :: 0 <= k < DIRECT ==> Slot(NodeOf(d, i), k) == i.direct[k]
    ensures i.indirect != 0 ==> forall k :: 0 <= k < INDIRECT ==>
      Slot(NodeOf(d, i), DIRECT + k) == Words(d[i.indirect])[k]
    ensures i.indirect == 0 ==> forall s :: DIRECT <= s < SLOTS ==> Slot(NodeOf(d, i), s) == 0
    ensures Slot(NodeOf(d, i), FILE_BLOCKS) == i.indirect
  {
  }

  lemma BitmapRefl(d: Disk, sb: Superblock)
    ensures OnlyBitmap(d, d, sb)
  {
  }

  lemma BitmapTrans(d0: Disk, d1: Disk, d2: Disk, sb0: Superblock, sb: Superblock)
    requires OnlyBitmap(d0, d1, sb0) && sb == sb0.(freeBlocks := sb.freeBlocks) && OnlyBitmap(d1, d2, sb)
    ensures OnlyBitmap(d0, d2, sb0)
  {
  }

  lemma BitmapSb(d0: Disk, d: Disk, sb0: Superblock, sb: Superblock)
    requires OnlyBitmap(d0, d, sb0) && sb == sb0.(freeBlocks := sb.freeBlocks)
    ensures OnlyBitmap(d0, d, sb)
  {
  }

  lemma BitmapAt(d0: Disk, d: Disk, sb: Superblock, b: nat)
    requires OnlyBitmap(d0, d, sb)
    ensures |d| == |d0|
    ensures b < |d| && (b < sb.bitmapStart || sb.dataStart <= b) ==> d[b] == d0[b]
  {
  }

  lemma InData(d: Disk, sb: Superblock, bm: seq<byte>, S: set<nat>)
    requires Allocator(d, sb, bm, S)
    ensures forall b :: b in S ==> sb.dataStart <= b < sb.totalBlocks
  {
  }

  lemma OwnedIn(v: seq<Node>, owner: Owner, t: nat, s: nat, d: Disk, sb: Superblock, bm: seq<byte>)
    requires Owned(v, owner) && Allocator(d, sb, bm, owner.Keys) && t < |v| && s < SLOTS && Slot(v[t], s) != 0
    ensures sb.dataStart <= Slot(v[t], s) < sb.totalBlocks <= |d|
  {
  }

  /** While some inode is in use, the count of free ones can grow. */
  lemma InodeCount(d: Disk, sb: Superblock, bm: seq<byte>, owner: Owner, refs: Refs, ino: nat)
    requires Consistent(d, sb, bm, owner, refs)
    ensures sb.freeInodes < MAX_INODES
  {
    hide Allocator, Owned, Shape, Dirs;
  }

  lemma PatchedSlot(blk: Block, k: nat, e: Dirent)
    requires k < DIR_SLOTS
    ensures k * DIRENT_BYTES + DIRENT_BYTES <= BLOCK
    ensures Patch(blk, k * DIRENT_BYTES, DirentBytes(e)) == WithDirent(blk, k, e)
  {
  }

  lemma PatchedEntry(blk: Block, k: nat, e: Dirent)
    requires k < DIR_SLOTS && e == DirentAt(blk, k)
    ensures k * DIRENT_BYTES + DIRENT_BYTES <= BLOCK
    ensures Patch(blk, k * DIRENT_BYTES, DirentBytes(e.(ino := 0))) == WithDirent(blk, k, DirentAt(blk, k).(ino := 0))
  {
  }

  /** Entries lead to objects of the tree, which has a root. */
  ghost predicate Closed(t: Tree) {
    && ROOT in t && t[ROOT].Dir?
    && forall d, k :: d in t && t[d].Dir? && 0 <= k < |t[d].entries| && t[d].entries[k].Live? ==>
         t[d].entries[k].ino in t && t[d].entries[k].ino != ROOT && t[d].entries[k].ino != d
  }

  lemma TreeClosed(d: Disk, sb: Superblock, bm: seq<byte>, owner: Owner, refs: Refs)
    requires Consistent(d, sb, bm, owner, refs)
    ensures Closed(TreeOf(d))
  {
    hide Consistent, TreeOf, EntryOk, Nodes, NodeOf, InodeAt, Entries, Distinct, Mapped, Slots;
    var t := TreeOf(d);
    RootThere(d, sb, bm, owner, refs);
    forall i, k | i in t && t[i].Dir? && 0 <= k < |t[i].entries| && t[i].entries[k].Live?
      ensures t[i].entries[k].ino in t && t[i].entries[k].ino != ROOT && t[i].entries[k].ino != i
    {
      DirFacts(d, sb, bm, owner, refs, i);
      EntryTarget(d, sb, bm, owner, refs, i, k, t[i].entries[k]);
    }
  }

  lemma RootThere(d: Disk, sb: Superblock, bm: seq<byte>, owner: Owner, refs: Refs)
    requires Consistent(d, sb, bm, owner, refs)
    ensures ROOT in TreeOf(d) && TreeOf(d)[ROOT].Dir?
  {
    hide Owned, Allocator, Shape, DirOk, NodeOf;
  }

  lemma {:induction false} CStringNoNul(s: seq<byte>, n: nat)
    requires n < |s| && s[n] == 0
    ensures NoNul(CString(s)) && |CString(s)| <= n
  {
    if s[0] != 0 { CStringNoNul(s[1..], n - 1); }
  }

  /** A stored link target is a C string that fits its 256 bytes. */
  lemma LinkFacts(d: Disk, sb: Superblock, bm: seq<byte>, owner: Owner, refs: Refs, ino: nat)
    requires Consistent(d, sb, bm, owner, refs) && ino in TreeOf(d) && TreeOf(d)[ino].Link?
    ensures NoNul(TreeOf(d)[ino].target) && |TreeOf(d)[ino].target| <= 255
  {
    hide Consistent, TreeOf, CString, InodeAt, NoNul;
    RecordFacts(d, sb, bm, owner, refs, ino);
    CStringNoNul(InodeAt(d, ino).target, 255);
  }
}
