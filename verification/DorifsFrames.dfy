/** What stays the same while one inode of a DoriFS disk is worked on. */
module DorifsFrames {
  import opened Bits
  import opened Bytes
  import opened DorifsRecords
  import opened DorifsTree
  import opened DorifsView
  import opened Helpers

  /** Every data block of the node, c apart, holds the same in d and d'. */
  ghost predicate SameBlocksOf(d: Disk, d': Disk, n: Node, c: nat) {
    |d'| == |d| && forall k :: 0 <= k < |n.ptrs| && 0 != n.ptrs[k] < |d| && n.ptrs[k] != c ==>
      d'[n.ptrs[k]] == d[n.ptrs[k]]
  }

  lemma SameNode(d: Disk, d': Disk, i: Inode)
    requires |d'| == |d| && (0 != i.indirect < |d| ==> d'[i.indirect] == d[i.indirect])
    ensures NodeOf(d', i) == NodeOf(d, i)
  {
  }

  lemma SameData(d: Disk, d': Disk, n: Node)
    requires SameBlocksOf(d, d', n, 0)
    requires Shape(n) && (n.rec.typ == TYPE_FILE || n.rec.typ == TYPE_DIR)
    ensures Data(d', n) == Data(d, n)
  {
    forall p | 0 <= p < n.rec.size ensures ByteAt(d', n, p) == ByteAt(d, n, p) {
      assert p / BLOCK < Blocks(n.rec.size);
      assert n.ptrs[p / BLOCK] != 0;
    }
  }

  lemma SameEntries(d: Disk, d': Disk, n: Node)
    requires SameBlocksOf(d, d', n, 0)
    requires Shape(n) && n.rec.typ == TYPE_DIR
    ensures Entries(d', n) == Entries(d, n)
  {
    if n.rec.size > 0 {
      assert 0 < Blocks(n.rec.size);
      assert n.ptrs[0] != 0;
    }
  }

  lemma SameObj(d: Disk, d': Disk, n: Node)
    requires SameBlocksOf(d, d', n, 0)
    requires Shape(n)
    ensures ObjOf(d', n) == ObjOf(d, n)
  {
    if n.rec.typ == TYPE_FILE { SameData(d, d', n); }
    else if n.rec.typ == TYPE_DIR { SameEntries(d, d', n); }
  }

  /** The inode table, and the blocks that other inodes than ino own, are as they were in d0. */
  ghost predicate Kept(d0: Disk, d: Disk, owner0: Owner, ino: nat): (r: bool)
    ensures r ==> |d| == |d0| > TABLE_BLOCKS
  {
    && |d| == |d0| > TABLE_BLOCKS
    && (forall b :: 0 <= b <= TABLE_BLOCKS ==> d[b] == d0[b])
    && (forall b :: b in owner0 && owner0[b].0 != ino && b < |d0| ==> d[b] == d0[b])
  }

  /** Work on inode ino is under way: its record `cur` is not on the disk yet, and `owner`
      accounts for all pointers, those of `cur` included. */
  ghost predicate InProgress(d0: Disk, owner0: Owner, ino: nat, d: Disk, cur: Inode, owner: Owner) {
    && ino < USABLE_INODES
    && Kept(d0, d, owner0, ino)
    && Owned(Nodes(d0), owner0)
    && Owned(Nodes(d0)[ino := NodeOf(d, cur)], owner)
  }

  lemma Begin(d0: Disk, owner0: Owner, ino: nat)
    requires |d0| > TABLE_BLOCKS && ino < USABLE_INODES && Owned(Nodes(d0), owner0)
    ensures InProgress(d0, owner0, ino, d0, InodeAt(d0, ino), owner0)
  {
    assert Nodes(d0)[ino := NodeOf(d0, InodeAt(d0, ino))] == Nodes(d0);
  }

  /** A block that `owner` gives to ino belonged to nobody else before. */
  lemma MineNow(d0: Disk, owner0: Owner, ino: nat, d: Disk, cur: Inode, owner: Owner, b: nat)
    requires InProgress(d0, owner0, ino, d, cur, owner)
    requires b in owner ==> owner[b].0 == ino
    ensures b in owner0 ==> owner0[b].0 == ino
  {
    hide NodeOf, Nodes, Kept, Slot;
    var v := Nodes(d0)[ino := NodeOf(d, cur)];
    assert b in owner0 ==> Slot(Nodes(d0)[owner0[b].0], owner0[b].1) == b;
    assert forall j :: 0 <= j < |v| && j != ino ==> v[j] == Nodes(d0)[j];
  }

  /** The pointers of the inode at work are accounted for. */
  lemma Pointers(d0: Disk, owner0: Owner, ino: nat, d: Disk, cur: Inode, owner: Owner)
    requires InProgress(d0, owner0, ino, d, cur, owner)
    ensures cur.indirect != 0 ==> cur.indirect in owner && owner[cur.indirect] == (ino, FILE_BLOCKS)
    ensures forall k :: 0 <= k < FILE_BLOCKS && NodeOf(d, cur).ptrs[k] != 0 ==>
      NodeOf(d, cur).ptrs[k] in owner && owner[NodeOf(d, cur).ptrs[k]] == (ino, k)
  {
    var v := Nodes(d0)[ino := NodeOf(d, cur)];
    assert v[ino] == NodeOf(d, cur);
    assert Slot(v[ino], FILE_BLOCKS) == cur.indirect;
    forall k | 0 <= k < FILE_BLOCKS && NodeOf(d, cur).ptrs[k] != 0
      ensures NodeOf(d, cur).ptrs[k] in owner && owner[NodeOf(d, cur).ptrs[k]] == (ino, k)
    {
      assert Slot(v[ino], k) == NodeOf(d, cur).ptrs[k];
    }
  }

  ghost predicate DataRegion(sb: Superblock, owner: Owner) {
    sb.bitmapStart == 1 + TABLE_BLOCKS <= sb.dataStart && forall b :: b in owner ==> sb.dataStart <= b
  }

  /** A change to bitmap blocks and to block c, which no other inode owns. */
  lemma Touch(d0: Disk, owner0: Owner, sb: Superblock, ino: nat, d: Disk, d': Disk, cur: Inode, owner: Owner, c: nat)
    requires InProgress(d0, owner0, ino, d, cur, owner)
    requires DataRegion(sb, owner0) && DataRegion(sb, owner)
    requires OnlyBitmapAnd(d, d', sb, c)
    requires sb.dataStart <= c && (c in owner ==> owner[c].0 == ino)
    ensures Kept(d0, d', owner0, ino) && SameBlocksOf(d, d', NodeOf(d, cur), c)
  {
    MineNow(d0, owner0, ino, d, cur, owner, c);
    Pointers(d0, owner0, ino, d, cur, owner);
  }

  /** A change to bitmap blocks and to block c, which is not the indirect block of the inode. */
  lemma TouchData(d0: Disk, owner0: Owner, sb: Superblock, ino: nat, d: Disk, d': Disk, cur: Inode, owner: Owner,
                  c: nat)
    requires InProgress(d0, owner0, ino, d, cur, owner)
    requires DataRegion(sb, owner0) && DataRegion(sb, owner)
    requires OnlyBitmapAnd(d, d', sb, c)
    requires sb.dataStart <= c && (c in owner ==> owner[c].0 == ino && owner[c].1 < FILE_BLOCKS)
    ensures NodeOf(d', cur) == NodeOf(d, cur) && InProgress(d0, owner0, ino, d', cur, owner)
    ensures SameBlocksOf(d, d', NodeOf(d, cur), c)
  {
    Touch(d0, owner0, sb, ino, d, d', cur, owner, c);
    Pointers(d0, owner0, ino, d, cur, owner);
    SameNode(d, d', cur);
  }

  lemma TouchBitmap(d0: Disk, owner0: Owner, sb: Superblock, ino: nat, d: Disk, d': Disk, cur: Inode, owner: Owner)
    requires InProgress(d0, owner0, ino, d, cur, owner)
    requires DataRegion(sb, owner0) && DataRegion(sb, owner)
    requires OnlyBitmap(d, d', sb)
    ensures NodeOf(d', cur) == NodeOf(d, cur) && InProgress(d0, owner0, ino, d', cur, owner)
    ensures forall c :: SameBlocksOf(d, d', NodeOf(d, cur), c)
  {
    Pointers(d0, owner0, ino, d, cur, owner);
    SameNode(d, d', cur);
  }

  /** After taking a data block and SetBlock, pointer k of the node refers to the new block. */
  lemma Extend(d0: Disk, owner0: Owner, sb: Superblock, ino: nat, d: Disk, d1: Disk, d2: Disk,
               cur: Inode, cur': Inode, owner: Owner, k: nat, b: u32) returns (owner': Owner)
    requires InProgress(d0, owner0, ino, d, cur, owner)
    requires DataRegion(sb, owner0) && DataRegion(sb, owner)
    requires OnlyBitmap(d, d1, sb)
    requires if cur'.indirect == 0 then d2 == d1 else OnlyBitmapAnd(d1, d2, sb, cur'.indirect)
    requires k < FILE_BLOCKS && NodeOf(d, cur).ptrs[k] == 0 && b != 0 && b !in owner && sb.dataStart <= b
    requires NodeOf(d2, cur').ptrs == NodeOf(d1, cur).ptrs[k := b]
    requires cur'.indirect == cur.indirect
      || (cur.indirect == 0 && cur'.indirect !in owner && cur'.indirect != b && sb.dataStart <= cur'.indirect)
    ensures InProgress(d0, owner0, ino, d2, cur', owner')
    ensures NodeOf(d2, cur').ptrs == NodeOf(d, cur).ptrs[k := b]
    ensures owner'.Keys == owner.Keys + {b as nat}
      + if cur'.indirect == cur.indirect then {} else {cur'.indirect as nat}
    ensures SameBlocksOf(d, d2, NodeOf(d, cur), 0)
  {
    hide Owned, Slot, NodeOf, Kept, SameBlocksOf, OnlyBitmap, OnlyBitmapAnd, DataRegion, Nodes;
    TouchTwice(d0, owner0, sb, ino, d, d1, d2, cur, cur', owner);
    var v := Nodes(d0)[ino := NodeOf(d, cur)];
    var n' := NodeOf(d2, cur');
    owner' := ExtendOwner(v, owner, ino, n', k, b);
    assert v[ino := n'] == Nodes(d0)[ino := n'];
  }

  lemma SameBlocksRefl(d: Disk, n: Node)
    ensures SameBlocksOf(d, d, n, 0)
  {
  }

  lemma SameBlocksTwice(d: Disk, d1: Disk, d2: Disk, n: Node, n1: Node, b: nat)
    requires SameBlocksOf(d, d1, n, 0) && SameBlocksOf(d1, d2, n1, b) && n1.ptrs == n.ptrs
    requires forall k :: 0 <= k < |n.ptrs| && n.ptrs[k] != 0 ==> n.ptrs[k] != b
    ensures SameBlocksOf(d, d2, n, 0)
  {
  }

  lemma PtrsOnly(d: Disk, i: Inode, i': Inode)
    requires i'.direct == i.direct && i'.indirect == i.indirect
    ensures NodeOf(d, i').ptrs == NodeOf(d, i).ptrs
  {
  }

  /** Only the pointers of the record at work matter. */
  lemma Recount(d0: Disk, owner0: Owner, ino: nat, d: Disk, cur: Inode, cur': Inode, owner: Owner)
    requires InProgress(d0, owner0, ino, d, cur, owner)
    requires cur'.direct == cur.direct && cur'.indirect == cur.indirect
    ensures InProgress(d0, owner0, ino, d, cur', owner)
    ensures NodeOf(d, cur').ptrs == NodeOf(d, cur).ptrs
  {
    var v := Nodes(d0)[ino := NodeOf(d, cur)];
    var n' := NodeOf(d, cur');
    assert forall s :: 0 <= s < SLOTS ==> Slot(v[ino], s) == Slot(n', s);
    hide NodeOf, Slot, Owned;
    SlotsOnly(v, owner, ino, n');
    assert v[ino := n'] == Nodes(d0)[ino := n'];
  }

  /** A bitmap change followed by one to the indirect block. */
  lemma TouchTwice(d0: Disk, owner0: Owner, sb: Superblock, ino: nat, d: Disk, d1: Disk, d2: Disk,
                   cur: Inode, cur': Inode, owner: Owner)
    requires InProgress(d0, owner0, ino, d, cur, owner)
    requires DataRegion(sb, owner0) && DataRegion(sb, owner)
    requires OnlyBitmap(d, d1, sb)
    requires if cur'.indirect == 0 then d2 == d1 else OnlyBitmapAnd(d1, d2, sb, cur'.indirect)
    requires cur'.indirect == cur.indirect
      || (cur.indirect == 0 && cur'.indirect !in owner && sb.dataStart <= cur'.indirect)
    ensures Kept(d0, d2, owner0, ino) && SameBlocksOf(d, d2, NodeOf(d, cur), 0)
    ensures NodeOf(d1, cur) == NodeOf(d, cur)
  {
    hide Owned, Nodes, NodeOf, OnlyBitmapAnd, InProgress;
    TouchBitmap(d0, owner0, sb, ino, d, d1, cur, owner);
    assert InProgress(d0, owner0, ino, d1, cur, owner);
    Pointers(d0, owner0, ino, d1, cur, owner);
    if cur'.indirect != 0 {
      Touch(d0, owner0, sb, ino, d1, d2, cur, owner, cur'.indirect);
    } else {
      KeptOf(d0, owner0, ino, d1, cur, owner);
    }
  }

  lemma KeptOf(d0: Disk, owner0: Owner, ino: nat, d: Disk, cur: Inode, owner: Owner)
    requires InProgress(d0, owner0, ino, d, cur, owner)
    ensures Kept(d0, d, owner0, ino) && Owned(Nodes(d0), owner0) && ino < USABLE_INODES
    ensures Owned(Nodes(d0)[ino := NodeOf(d, cur)], owner)
  {
  }

  /** Pointer k set to the fresh block b, and perhaps a fresh indirect block. */
  lemma ExtendOwner(v: seq<Node>, owner: Owner, i: nat, n': Node, k: nat, b: u32) returns (owner': Owner)
    requires Owned(v, owner) && i < |v| && |v[i].ptrs| == FILE_BLOCKS
    requires k < FILE_BLOCKS && v[i].ptrs[k] == 0 && b != 0 && b !in owner
    requires n'.ptrs == v[i].ptrs[k := b]
    requires n'.rec.indirect == v[i].rec.indirect
      || (v[i].rec.indirect == 0 && n'.rec.indirect !in owner && n'.rec.indirect != b)
    ensures Owned(v[i := n'], owner')
    ensures owner'.Keys == owner.Keys + {b as nat}
      + if n'.rec.indirect == v[i].rec.indirect then {} else {n'.rec.indirect as nat}
  {
    var w := Node(v[i].rec, n'.ptrs);
    assert SlotSet(v[i], w, k, b);
    Attach(v, owner, i, k, b, w);
    owner' := owner[b as nat := (i, k)];
    var v1 := v[i := w];
    assert v1[i := n'] == v[i := n'];
    if n'.rec.indirect == v[i].rec.indirect {
      SlotsOnly(v1, owner', i, n');
    } else {
      assert SlotSet(v1[i], n', FILE_BLOCKS, n'.rec.indirect);
      Attach(v1, owner', i, FILE_BLOCKS, n'.rec.indirect, n');
      owner' := owner'[n'.rec.indirect as nat := (i, FILE_BLOCKS)];
    }
  }

  /** Ownership depends on the pointers of a node only. */
  lemma SlotsOnly(v: seq<Node>, owner: Owner, i: nat, n': Node)
    requires Owned(v, owner) && i < |v|
    requires forall s :: 0 <= s < SLOTS ==> Slot(v[i], s) == Slot(n', s)
    ensures Owned(v[i := n'], owner)
  {
  }

  /** After freeing the block of pointer k and SetBlock, the pointer is zero. */
  lemma Shrink(d0: Disk, owner0: Owner, sb: Superblock, ino: nat, d: Disk, d1: Disk, d2: Disk,
               cur: Inode, cur': Inode, owner: Owner, k: nat) returns (owner': Owner)
    requires InProgress(d0, owner0, ino, d, cur, owner)
    requires DataRegion(sb, owner0) && DataRegion(sb, owner)
    requires OnlyBitmap(d, d1, sb)
    requires if cur'.indirect == 0 then d2 == d1 else OnlyBitmapAnd(d1, d2, sb, cur'.indirect)
    requires k < FILE_BLOCKS && NodeOf(d, cur).ptrs[k] != 0
    requires NodeOf(d2, cur').ptrs == NodeOf(d1, cur).ptrs[k := 0]
    requires cur'.indirect == cur.indirect
    ensures InProgress(d0, owner0, ino, d2, cur', owner')
    ensures NodeOf(d2, cur').ptrs == NodeOf(d, cur).ptrs[k := 0]
    ensures NodeOf(d, cur).ptrs[k] in owner
    ensures owner'.Keys == owner.Keys - {NodeOf(d, cur).ptrs[k] as nat}
    ensures SameBlocksOf(d, d2, NodeOf(d, cur), 0)
  {
    hide Owned, Slot, NodeOf, Kept, SameBlocksOf, OnlyBitmap, OnlyBitmapAnd, DataRegion, Nodes;
    TouchTwice(d0, owner0, sb, ino, d, d1, d2, cur, cur', owner);
    var v := Nodes(d0)[ino := NodeOf(d, cur)];
    var n' := NodeOf(d2, cur');
    owner' := ShrinkOwner(v, owner, ino, n', k);
    assert v[ino := n'] == Nodes(d0)[ino := n'];
  }

  lemma ShrinkOwner(v: seq<Node>, owner: Owner, i: nat, n': Node, k: nat) returns (owner': Owner)
    requires Owned(v, owner) && i < |v| && |v[i].ptrs| == FILE_BLOCKS
    requires k < FILE_BLOCKS && v[i].ptrs[k] != 0
    requires n'.ptrs == v[i].ptrs[k := 0] && n'.rec.indirect == v[i].rec.indirect
    ensures Owned(v[i := n'], owner')
    ensures v[i].ptrs[k] in owner && owner'.Keys == owner.Keys - {v[i].ptrs[k] as nat}
  {
    assert Slot(v[i], k) == v[i].ptrs[k];
    assert SlotSet(v[i], n', k, 0);
    Detach(v, owner, i, k, n');
    owner' := owner - {v[i].ptrs[k] as nat};
  }

  // ---- writing the record of the inode at work ----

  lemma InodeTableUpdate(d0: Disk, d: Disk, owner0: Owner, ino: nat, cur: Inode)
    requires Kept(d0, d, owner0, ino) && ino < USABLE_INODES
    ensures forall j :: 0 <= j < USABLE_INODES && j != ino ==> InodeAt(WithInode(d, ino, cur), j) == InodeAt(d0, j)
    ensures InodeAt(WithInode(d, ino, cur), ino) == cur
    ensures SameRest(d, WithInode(d, ino, cur))
  {
    forall j | 0 <= j < USABLE_INODES
      ensures InodeAt(WithInode(d, ino, cur), j) == if j == ino then cur else InodeAt(d0, j)
    {
      InodeUpdate(d, ino, cur, j);
    }
  }

  /** The nodes after the record is written: only ino's differs, and the blocks of all the
      others hold what they held. */
  lemma Commit(d0: Disk, owner0: Owner, sb: Superblock, ino: nat, d: Disk, d1: Disk, cur: Inode, owner: Owner)
    requires InProgress(d0, owner0, ino, d, cur, owner)
    requires DataRegion(sb, owner0) && DataRegion(sb, owner)
    requires d1 == WithInode(d, ino, cur)
    ensures |d1| == |d| && Nodes(d1) == Nodes(d0)[ino := NodeOf(d, cur)]
    ensures Owned(Nodes(d1), owner)
    ensures forall j :: 0 <= j < USABLE_INODES && j != ino ==> SameBlocksOf(d0, d1, Nodes(d0)[j], 0)
    ensures SameBlocksOf(d, d1, NodeOf(d, cur), 0)
  {
    hide WithInode, Owned, SameBlocksOf, NodeOf, InodeAt, SameRest, DataRegion, Kept, Nodes;
    InodeTableUpdate(d0, d, owner0, ino, cur);
    RestLength(d, d1);
    forall j | 0 <= j < USABLE_INODES && j != ino
      ensures Nodes(d1)[j] == Nodes(d0)[j] && SameBlocksOf(d0, d1, Nodes(d0)[j], 0)
    {
      CommitOther(d0, owner0, sb, ino, d, d1, j);
    }
    CommitOwn(d0, owner0, sb, ino, d, d1, cur, owner);
    assert Nodes(d1) == Nodes(d0)[ino := NodeOf(d, cur)];
  }

  lemma RestLength(d: Disk, d1: Disk)
    requires SameRest(d, d1)
    ensures |d1| == |d|
  {
  }

  ghost predicate SameRest(d: Disk, d1: Disk) {
    |d1| == |d| && forall b :: TABLE_BLOCKS < b < |d| ==> d1[b] == d[b]
  }

  lemma CommitOther(d0: Disk, owner0: Owner, sb: Superblock, ino: nat, d: Disk, d1: Disk, j: nat)
    requires Kept(d0, d, owner0, ino) && Owned(Nodes(d0), owner0) && DataRegion(sb, owner0)
    requires SameRest(d, d1) && j < USABLE_INODES && j != ino
    requires InodeAt(d1, j) == InodeAt(d0, j)
    ensures Nodes(d1)[j] == Nodes(d0)[j] && SameBlocksOf(d0, d1, Nodes(d0)[j], 0)
  {
    hide NodeOf, InodeAt, Owned, Kept;
    Others(d0, owner0, ino, d, j);
    SameNode(d0, d1, InodeAt(d0, j));
  }

  lemma CommitOwn(d0: Disk, owner0: Owner, sb: Superblock, ino: nat, d: Disk, d1: Disk, cur: Inode, owner: Owner)
    requires InProgress(d0, owner0, ino, d, cur, owner) && DataRegion(sb, owner)
    requires SameRest(d, d1) && InodeAt(d1, ino) == cur
    ensures Nodes(d1)[ino] == NodeOf(d, cur) && SameBlocksOf(d, d1, NodeOf(d, cur), 0)
  {
    Pointers(d0, owner0, ino, d, cur, owner);
    SameNode(d, d1, cur);
  }

  /** The blocks of another inode are as they were. */
  lemma Others(d0: Disk, owner0: Owner, ino: nat, d: Disk, j: nat)
    requires Kept(d0, d, owner0, ino) && Owned(Nodes(d0), owner0)
    requires j < USABLE_INODES && j != ino
    ensures SameBlocksOf(d0, d, Nodes(d0)[j], 0)
    ensures 0 != Nodes(d0)[j].rec.indirect < |d0| ==>
      d[Nodes(d0)[j].rec.indirect] == d0[Nodes(d0)[j].rec.indirect] && Nodes(d0)[j].rec.indirect in owner0
    ensures forall k :: 0 <= k < FILE_BLOCKS && Nodes(d0)[j].ptrs[k] != 0 ==> Nodes(d0)[j].ptrs[k] in owner0
  {
    var n := Nodes(d0)[j];
    assert Slot(n, FILE_BLOCKS) == n.rec.indirect;
    forall k | 0 <= k < FILE_BLOCKS && n.ptrs[k] != 0
      ensures n.ptrs[k] in owner0 && (n.ptrs[k] < |d0| ==> d[n.ptrs[k]] == d0[n.ptrs[k]])
    {
      assert Slot(n, k) == n.ptrs[k];
    }
  }

  // ---- the state after an operation ----

  /** Of the nodes only ino's differs between d0 and d1, and no other node's blocks changed. */
  ghost predicate OnlyNode(d0: Disk, d1: Disk, ino: nat) {
    && |d0| == |d1| && |d0| > TABLE_BLOCKS && ino < USABLE_INODES
    && forall j :: 0 <= j < USABLE_INODES && j != ino ==>
         Nodes(d1)[j] == Nodes(d0)[j] && SameBlocksOf(d0, d1, Nodes(d0)[j], 0)
  }

  lemma TreeStep(d0: Disk, d1: Disk, ino: nat)
    requires OnlyNode(d0, d1, ino)
    requires forall j :: 0 <= j < USABLE_INODES ==> Shape(Nodes(d0)[j])
    ensures TreeOf(d1) ==
      if Nodes(d1)[ino].rec.typ == TYPE_FREE then TreeOf(d0) - {ino}
      else TreeOf(d0)[ino := ObjOf(d1, Nodes(d1)[ino])]
  {
    hide Shape, SameBlocksOf, ObjOf, Nodes;
    forall j | 0 <= j < USABLE_INODES && j != ino ensures ObjOf(d1, Nodes(d1)[j]) == ObjOf(d0, Nodes(d0)[j]) {
      SameObj(d0, d1, Nodes(d0)[j]);
    }
  }

  lemma {:induction false} UsedChange(v: seq<Node>, v': seq<Node>, i: nat, n: nat)
    requires |v'| == |v| && i < |v| && n <= |v|
    requires forall j :: 0 <= j < |v| && j != i ==> v'[j].rec.typ == v[j].rec.typ
    ensures i >= n ==> UsedInodes(v', n) == UsedInodes(v, n)
    ensures i < n ==>
      UsedInodes(v', n) + (if v[i].rec.typ == TYPE_FREE then 0 else 1)
      == UsedInodes(v, n) + (if v'[i].rec.typ == TYPE_FREE then 0 else 1)
  {
    if n != 0 { UsedChange(v, v', i, n - 1); }
  }

  /** The directories after a change to something that is no directory and keeps its type. */
  lemma DirsStep(d0: Disk, d1: Disk, ino: nat, refs: Refs)
    requires OnlyNode(d0, d1, ino) && Dirs(d0, Nodes(d0), refs)
    requires forall j :: 0 <= j < USABLE_INODES ==> Shape(Nodes(d0)[j])
    requires Nodes(d1)[ino].rec.typ == Nodes(d0)[ino].rec.typ != TYPE_DIR
    ensures Dirs(d1, Nodes(d1), refs)
  {
    hide Shape, SameBlocksOf, Nodes, Entries, Slots, Distinct;
    forall i | 0 <= i < USABLE_INODES ensures DirOk(d1, Nodes(d1), refs, i) {
      if Nodes(d1)[i].rec.typ == TYPE_DIR {
        SameEntries(d0, d1, Nodes(d0)[i]);
        assert DirOk(d0, Nodes(d0), refs, i);
      }
    }
  }

  lemma AllocatorInode(d: Disk, sb: Superblock, bm: seq<byte>, S: set<nat>, ino: nat, i: Inode)
    requires Allocator(d, sb, bm, S) && ino < USABLE_INODES
    ensures Allocator(WithInode(d, ino, i), sb, bm, S)
  {
    AllocatorFrame(d, WithInode(d, ino, i), sb, bm, S, InodeBlock(ino));
  }

  lemma RegionOf(d: Disk, sb: Superblock, bm: seq<byte>, owner: Owner)
    requires Allocator(d, sb, bm, owner.Keys)
    ensures DataRegion(sb, owner)
    ensures forall b :: b in owner ==> b < |d|
  {
  }

  lemma RegionSame(sb: Superblock, sb': Superblock, owner: Owner)
    requires DataRegion(sb, owner) && sb' == sb.(freeBlocks := sb'.freeBlocks, freeInodes := sb'.freeInodes)
    ensures DataRegion(sb', owner)
  {
  }

  lemma OthersShaped(d0: Disk, d1: Disk, ino: nat)
    requires |d0| > TABLE_BLOCKS && |d1| == |d0| && ino < USABLE_INODES && Nodes(d1) == Nodes(d0)[ino := Nodes(d1)[ino]]
    requires forall j :: 0 <= j < USABLE_INODES && j != ino ==> SameBlocksOf(d0, d1, Nodes(d0)[j], 0)
    requires forall j :: 0 <= j < USABLE_INODES ==> Shape(Nodes(d0)[j])
    ensures OnlyNode(d0, d1, ino)
    ensures forall j :: 0 <= j < USABLE_INODES && j != ino ==> Shape(Nodes(d1)[j])
  {
    hide Nodes, Shape, SameBlocksOf;
  }

  lemma RecordOf(d: Disk, ino: nat)
    requires |d| > TABLE_BLOCKS && ino < USABLE_INODES
    ensures InodeBlock(ino) < |d| && Nodes(d)[ino].rec == InodeAt(d, ino)
  {
    InodeInTable(ino);
  }

  /** The operation on file ino is over: the record is on the disk. */
  lemma FinishFile(d0: Disk, sb0: Superblock, bm0: seq<byte>, owner0: Owner, refs: Refs,
                   d: Disk, sb: Superblock, bm: seq<byte>, ino: nat, cur: Inode, owner: Owner, d1: Disk)
    requires Consistent(d0, sb0, bm0, owner0, refs)
    requires InProgress(d0, owner0, ino, d, cur, owner)
    requires Allocator(d, sb, bm, owner.Keys) && sb == sb0.(freeBlocks := sb.freeBlocks)
    requires cur.typ == TYPE_FILE == InodeAt(d0, ino).typ
    requires Shape(NodeOf(d, cur))
    requires d1 == WithInode(d, ino, cur)
    ensures Consistent(d1, sb, bm, owner, refs)
    ensures TreeOf(d1) == TreeOf(d0)[ino := File(Data(d, NodeOf(d, cur)))]
    ensures ino in TreeOf(d0) && TreeOf(d0)[ino] == File(Data(d0, Nodes(d0)[ino]))
  {
    hide Owned, NodeOf, SameBlocksOf, Kept, Shape, BitsAre, Cached, Dirs, DirOk, Data, Entries, WithInode, Allocator,
      DataRegion, Nodes, TreeOf, InodeAt, InProgress, OnlyNode;
    AllocatorOf(d0, sb0, bm0, owner0, refs);
    KeptOf(d0, owner0, ino, d, cur, owner);
    RecordOf(d0, ino);
    NodeFacts(d0, sb0, bm0, owner0, refs, ino);
    RegionOf(d0, sb0, bm0, owner0);
    RegionOf(d, sb, bm, owner);
    RegionSame(sb0, sb, owner0);
    AllocatorInode(d, sb, bm, owner.Keys, ino, cur);
    Commit(d0, owner0, sb, ino, d, d1, cur, owner);
    OthersShaped(d0, d1, ino);
    TreeStep(d0, d1, ino);
    DirsStep(d0, d1, ino, refs);
    UsedChange(Nodes(d0), Nodes(d1), ino, USABLE_INODES);
    SameData(d, d1, NodeOf(d, cur));
  }

  // ---- reading the invariant ----

  /** What the invariant says of one inode. */
  lemma NodeFacts(d: Disk, sb: Superblock, bm: seq<byte>, owner: Owner, refs: Refs, ino: nat)
    requires Consistent(d, sb, bm, owner, refs) && ino < USABLE_INODES
    ensures |d| > TABLE_BLOCKS && sb.tableStart == 1 && sb.totalInodes == MAX_INODES && sb.totalBlocks <= |d|
    ensures InodeBlock(ino) < |d| && Nodes(d)[ino] == NodeOf(d, InodeAt(d, ino)) && Shape(Nodes(d)[ino])
    ensures Nodes(d)[ino].rec.indirect != 0 ==> sb.dataStart <= Nodes(d)[ino].rec.indirect < sb.totalBlocks
    ensures forall k :: 0 <= k < FILE_BLOCKS && Nodes(d)[ino].ptrs[k] != 0 ==>
      sb.dataStart <= Nodes(d)[ino].ptrs[k] < sb.totalBlocks
    ensures ino in TreeOf(d) <==> Nodes(d)[ino].rec.typ != TYPE_FREE
    ensures ino in TreeOf(d) ==> TreeOf(d)[ino] == ObjOf(d, Nodes(d)[ino])
  {
    hide Owned, NodeOf, Cached, Dirs, Shape, ObjOf, InodeAt;
    NodePointers(d, owner, ino);
    InodeInTable(ino);
  }

  lemma NodePointers(d: Disk, owner: Owner, ino: nat)
    requires |d| > TABLE_BLOCKS && ino < USABLE_INODES && Owned(Nodes(d), owner)
    ensures Nodes(d)[ino] == NodeOf(d, InodeAt(d, ino))
    ensures Nodes(d)[ino].rec.indirect != 0 ==> Nodes(d)[ino].rec.indirect as nat in owner.Keys
    ensures forall k :: 0 <= k < FILE_BLOCKS && Nodes(d)[ino].ptrs[k] != 0 ==>
      Nodes(d)[ino].ptrs[k] as nat in owner.Keys
  {
    Begin(d, owner, ino);
    Pointers(d, owner, ino, d, InodeAt(d, ino), owner);
  }

  /** What the invariant says of a file. */
  lemma FileFacts(d: Disk, sb: Superblock, bm: seq<byte>, owner: Owner, refs: Refs, ino: nat)
    requires Consistent(d, sb, bm, owner, refs)
    requires |d| > TABLE_BLOCKS && ino in TreeOf(d) && TreeOf(d)[ino].File?
    ensures var n := NodeOf(d, InodeAt(d, ino));
      && ino < USABLE_INODES
      && n == Nodes(d)[ino] && n.rec.typ == TYPE_FILE
      && n.rec.size <= FILE_BLOCKS * BLOCK && Mapped(n, Blocks(n.rec.size), FILE_BLOCKS, FILE_BLOCKS)
      && TreeOf(d)[ino] == File(Data(d, n))
    ensures forall k :: 0 <= k < FILE_BLOCKS ==> NodeOf(d, InodeAt(d, ino)).ptrs[k] < |d|
  {
    hide Consistent, Mapped, NodeOf, Nodes;
    NodeFacts(d, sb, bm, owner, refs, ino);
  }

  /** The blocks that the inode at work refers to lie in the data region. */
  lemma InUse(d0: Disk, owner0: Owner, ino: nat, d: Disk, cur: Inode, owner: Owner, sb: Superblock, bm: seq<byte>,
              S: set<nat>)
    requires InProgress(d0, owner0, ino, d, cur, owner) && Allocator(d, sb, bm, S) && owner.Keys <= S
    ensures DataRegion(sb, owner) && Layout(d, sb, bm)
    ensures cur.indirect != 0 ==> sb.dataStart <= cur.indirect < sb.totalBlocks && cur.indirect as nat in owner.Keys
    ensures forall k :: 0 <= k < FILE_BLOCKS && NodeOf(d, cur).ptrs[k] != 0 ==>
      && sb.dataStart <= NodeOf(d, cur).ptrs[k] < sb.totalBlocks
      && NodeOf(d, cur).ptrs[k] as nat in owner && owner[NodeOf(d, cur).ptrs[k] as nat] == (ino, k)
  {
    Pointers(d0, owner0, ino, d, cur, owner);
    hide NodeOf, InProgress, Cached;
  }

  // ---- contents while a file is read ----

  /** Byte `pos` has a block exactly when it lies in one of the first k. */
  lemma ChunkPlace(n: Node, k: nat, pos: nat)
    requires Mapped(n, k, FILE_BLOCKS, FILE_BLOCKS)
    ensures pos / BLOCK >= FILE_BLOCKS || n.ptrs[pos / BLOCK] == 0 <==> pos >= k * BLOCK
    ensures pos < k * BLOCK ==> (pos / BLOCK + 1) * BLOCK <= k * BLOCK
  {
  }

  lemma BlocksRound(size: nat)
    ensures size <= Blocks(size) * BLOCK && (size % BLOCK == 0 ==> Blocks(size) * BLOCK == size)
    ensures size <= FILE_BLOCKS * BLOCK ==> Blocks(size) <= FILE_BLOCKS
  {
  }

  // ---- contents while a file is written ----

  /** Storing a block of the node changes the bytes of that block only. */
  lemma StoreBytes(d: Disk, d': Disk, n: Node, fb: nat, b: nat, blk: Block)
    requires |n.ptrs| == FILE_BLOCKS && fb < FILE_BLOCKS && n.ptrs[fb] == b < |d| && d' == d[b := blk]
    requires forall k :: 0 <= k < FILE_BLOCKS && k != fb ==> n.ptrs[k] != b
    ensures forall p: nat :: p / BLOCK != fb ==> ByteAt(d', n, p) == ByteAt(d, n, p)
    ensures forall p: nat :: p / BLOCK == fb ==> ByteAt(d', n, p) == blk[p % BLOCK]
  {
  }

  /** Bytes of blocks that are mapped stay when the pointers only grow. */
  lemma GrowBytes(d: Disk, d': Disk, n: Node, n': Node, fb: nat, b: u32)
    requires |n.ptrs| == FILE_BLOCKS && fb < FILE_BLOCKS && n'.ptrs == n.ptrs[fb := b]
    requires SameBlocksOf(d, d', n, 0)
    requires forall k :: 0 <= k < FILE_BLOCKS ==> n.ptrs[k] < |d|
    ensures forall p: nat :: p / BLOCK != fb && HasBlock(n, p / BLOCK) ==> ByteAt(d', n', p) == ByteAt(d, n, p)
  {
  }

  /** `src` has been written at position `pos` of the node: from n on d to n' on d'. */
  ghost predicate Stored(d: Disk, n: Node, d': Disk, n': Node, pos: nat, src: seq<byte>) {
    && (forall p: nat :: pos <= p < pos + |src| ==> ByteAt(d', n', p) == src[p - pos])
    && (forall p: nat :: HasBlock(n, p / BLOCK) && !(pos <= p < pos + |src|) ==> ByteAt(d', n', p) == ByteAt(d, n, p))
  }

  /** One chunk: a block `buf` was prepared on d1, and src was copied into it at `pos`. */
  lemma StoreChunk(d: Disk, d1: Disk, d2: Disk, n: Node, n1: Node, pos: nat, b: u32, buf: Block, src: seq<byte>)
    requires |n.ptrs| == |n1.ptrs| == FILE_BLOCKS && pos / BLOCK < FILE_BLOCKS && b < |d1|
    requires n1.ptrs[pos / BLOCK] == b
    requires forall k :: 0 <= k < FILE_BLOCKS && k != pos / BLOCK ==> n1.ptrs[k] != b
    requires HasBlock(n, pos / BLOCK) ==> d1 == d && n1.ptrs == n.ptrs && buf == d[b]
    requires n1.ptrs == n.ptrs[pos / BLOCK := b]
    requires SameBlocksOf(d, d1, n, 0) && forall k :: 0 <= k < FILE_BLOCKS ==> n.ptrs[k] < |d|
    requires pos % BLOCK + |src| <= BLOCK
    requires d2 == d1[b as nat := Patch(buf, pos % BLOCK, src)]
    ensures Stored(d, n, d2, n1, pos, src)
  {
    var fb := pos / BLOCK;
    var blk := Patch(buf, pos % BLOCK, src);
    StoreBytes(d1, d2, n1, fb, b as nat, blk);
    GrowBytes(d, d1, n, n1, fb, b);
    hide ByteAt;
    forall p: nat | pos <= p < pos + |src| ensures ByteAt(d2, n1, p) == src[p - pos] {
      PatchAt(buf, pos % BLOCK, src, p % BLOCK);
    }
    forall p: nat | HasBlock(n, p / BLOCK) && !(pos <= p < pos + |src|) ensures ByteAt(d2, n1, p) == ByteAt(d, n, p) {
      if p / BLOCK == fb {
        PatchAt(buf, pos % BLOCK, src, p % BLOCK);
        ByteInBlock(d, n, fb, p % BLOCK);
      }
    }
  }

  /** The first `upto - off` bytes of the buffer have been written at `off`; `size` is the old size. */
  ghost predicate Written(d0: Disk, n0: Node, size: nat, d: Disk, n: Node, off: nat, buffer: seq<byte>, upto: nat)
    requires off <= upto <= off + |buffer|
  {
    forall p: nat :: p < size || p < upto ==>
      ByteAt(d, n, p) == if off <= p < upto then buffer[p - off] else ByteAt(d0, n0, p)
  }

  lemma WrittenStep(d0: Disk, n0: Node, size: nat, d: Disk, n: Node, d': Disk, n': Node,
                    off: nat, buffer: seq<byte>, upto: nat, count: nat, nb: nat)
    requires off <= upto <= upto + count <= off + |buffer|
    requires Written(d0, n0, size, d, n, off, buffer, upto)
    requires Stored(d, n, d', n', upto, buffer[upto - off..][..count])
    requires |n.ptrs| == FILE_BLOCKS && size <= nb * BLOCK && upto <= nb * BLOCK && nb <= FILE_BLOCKS
    requires forall k :: 0 <= k < nb ==> n.ptrs[k] != 0
    ensures Written(d0, n0, size, d', n', off, buffer, upto + count)
  {
    hide ByteAt;
    forall p: nat | p < size || p < upto + count
      ensures ByteAt(d', n', p) == if off <= p < upto + count then buffer[p - off] else ByteAt(d0, n0, p)
    {
      if upto <= p < upto + count {
        assert buffer[upto - off..][..count][p - upto] == buffer[p - off];
      } else {
        assert p / BLOCK < nb;
        assert HasBlock(n, p / BLOCK);
      }
    }
  }

  lemma SpliceData(d0: Disk, n0: Node, d: Disk, n: Node, off: nat, buffer: seq<byte>, upto: nat)
    requires off <= n0.rec.size && off <= upto <= off + |buffer|
    requires Written(d0, n0, n0.rec.size, d, n, off, buffer, upto)
    requires n.rec.size == if upto > n0.rec.size then upto else n0.rec.size
    ensures Data(d, n) == Splice(Data(d0, n0), off, buffer[..upto - off])
  {
    hide ByteAt;
  }

  /** Two accounts of the same pointers name the same blocks. */
  lemma OwnedUnique(v: seq<Node>, o: Owner, o': Owner)
    requires Owned(v, o) && Owned(v, o')
    ensures o.Keys == o'.Keys
  {
  }

  lemma BitsUnique(bm: seq<byte>, lo: nat, hi: nat, S: set<nat>, S': set<nat>)
    requires BitsAre(bm, lo, hi, S) && BitsAre(bm, lo, hi, S')
    ensures S == S'
  {
    forall b: nat ensures b in S <==> b in S' {
      if lo <= b < hi {
        assert BitmapBit(bm, b - lo) <==> lo + (b - lo) in S;
        assert BitmapBit(bm, b - lo) <==> lo + (b - lo) in S';
      }
    }
  }

  /** A block in use that no pointer refers to stays lost: no account of the disk is consistent. */
  lemma LostForever(d0: Disk, owner0: Owner, d: Disk, sb: Superblock, bm: seq<byte>, S: set<nat>,
                    ino: nat, cur: Inode, own: Owner, d1: Disk, o: Owner, r: Refs)
    requires InProgress(d0, owner0, ino, d, cur, own) && DataRegion(sb, owner0)
    requires Allocator(d, sb, bm, S) && own.Keys <= S
    requires d1 == WithInode(d, ino, cur)
    ensures Consistent(d1, sb, bm, o, r) ==> S == own.Keys
  {
    hide Owned, NodeOf, SameBlocksOf, Kept, Shape, BitsAre, Cached, Dirs, WithInode, Nodes, InProgress, DataRegion;
    InUse(d0, owner0, ino, d, cur, own, sb, bm, S);
    Commit(d0, owner0, sb, ino, d, d1, cur, own);
    if Consistent(d1, sb, bm, o, r) {
      OwnedUnique(Nodes(d1), own, o);
      BitsUnique(bm, sb.dataStart, sb.totalBlocks, S, o.Keys);
    }
  }

  lemma WrittenNone(d: Disk, n: Node, off: nat, buffer: seq<byte>)
    requires off <= n.rec.size
    ensures Written(d, n, n.rec.size, d, n, off, buffer, off)
  {
  }

  lemma AllocatorOf(d: Disk, sb: Superblock, bm: seq<byte>, owner: Owner, refs: Refs)
    requires Consistent(d, sb, bm, owner, refs)
    ensures Allocator(d, sb, bm, owner.Keys) && Owned(Nodes(d), owner)
  {
  }

  lemma WrittenSame(d0: Disk, n0: Node, d: Disk, n: Node, n': Node, off: nat, buffer: seq<byte>, upto: nat)
    requires off <= upto <= off + |buffer| && n'.ptrs == n.ptrs
    requires Written(d0, n0, n0.rec.size, d, n, off, buffer, upto)
    ensures Written(d0, n0, n0.rec.size, d, n', off, buffer, upto)
  {
    assert forall p: nat :: ByteAt(d, n', p) == ByteAt(d, n, p);
    hide ByteAt;
  }

  lemma WrittenAgain(d0: Disk, n0: Node, d: Disk, n: Node, n': Node, off: nat, buffer: seq<byte>, k: nat)
    requires off <= k * BLOCK <= off + |buffer| && n'.ptrs == n.ptrs
    requires Written(d0, n0, n0.rec.size, d, n, off, buffer, k * BLOCK) && CutAt(n, k)
    ensures Written(d0, n0, n0.rec.size, d, n', off, buffer, k * BLOCK) && CutAt(n', k)
  {
    WrittenSame(d0, n0, d, n, n', off, buffer, k * BLOCK);
  }

  lemma DataBytes(d: Disk, n: Node)
    ensures forall p :: 0 <= p < n.rec.size ==> Data(d, n)[p] == ByteAt(d, n, p)
  {
  }

  /** The state of a write that has lost no block: n bytes are stored, the file has nb blocks,
      and what is left to happen is what was planned. */
  ghost predicate OnTrack(d0: Disk, n0: Node, off: nat, buffer: seq<byte>, plan: Plan,
                          d: Disk, cur: Inode, free: nat, n: nat, nb: nat)
    requires n <= |buffer|
  {
    && off <= n0.rec.size && nb <= FILE_BLOCKS
    && nb == (if Blocks(off + n) > Blocks(n0.rec.size) then Blocks(off + n) else Blocks(n0.rec.size))
    && plan == PlanWrite(nb, Blocks(off + |buffer|), free, cur.indirect != 0)
    && Mapped(NodeOf(d, cur), nb, FILE_BLOCKS, FILE_BLOCKS)
    && Written(d0, n0, n0.rec.size, d, NodeOf(d, cur), off, buffer, off + n)
  }

  lemma OnTrackStart(d: Disk, i: Inode, off: nat, buffer: seq<byte>, free: nat)
    requires off <= i.size && Mapped(NodeOf(d, i), Blocks(i.size), FILE_BLOCKS, FILE_BLOCKS)
    ensures OnTrack(d, NodeOf(d, i), off, buffer,
              PlanWrite(Blocks(i.size), Blocks(off + |buffer|), free, i.indirect != 0), d, i, free, 0, Blocks(i.size))
  {
    hide PlanWrite;
    WrittenNone(d, NodeOf(d, i), off, buffer);
  }

  /** The position a running write has reached is the end of a block, or its start. */
  lemma OnTrackBlock(d0: Disk, n0: Node, off: nat, buffer: seq<byte>, plan: Plan, d: Disk, cur: Inode, free: nat,
                     n: nat, nb: nat, fb: nat)
    requires n < |buffer| && OnTrack(d0, n0, off, buffer, plan, d, cur, free, n, nb)
    requires (n == 0 || (off + n) % BLOCK == 0) && fb == (off + n) / BLOCK
    ensures
      && fb <= nb && fb < Blocks(off + |buffer|)
      && (HasBlock(NodeOf(d, cur), fb) <==> fb < nb)
      && (fb == nb ==> (off + n) % BLOCK == 0)
      && (fb == nb && free == 0 ==> plan == Short(nb) && n == nb * BLOCK - off)
      && (fb == nb && free > 0 && (fb >= FILE_BLOCKS || (fb >= DIRECT && cur.indirect == 0 && free == 1)) ==>
        plan.Leak?)
  {
    hide Written, NodeOf;
  }

  lemma OnTrackEnd(d0: Disk, n0: Node, off: nat, buffer: seq<byte>, plan: Plan, d: Disk, cur: Inode, free: nat,
                   n: nat, nb: nat)
    requires n <= |buffer| && OnTrack(d0, n0, off, buffer, plan, d, cur, free, n, nb)
    ensures n == |buffer| ==> plan == Full
    ensures nb == if Blocks(off + n) > Blocks(n0.rec.size) then Blocks(off + n) else Blocks(n0.rec.size)
    ensures nb <= FILE_BLOCKS
    ensures Mapped(NodeOf(d, cur), nb, FILE_BLOCKS, FILE_BLOCKS)
    ensures Written(d0, n0, n0.rec.size, d, NodeOf(d, cur), off, buffer, off + n)
  {
    hide Written, NodeOf, Mapped;
  }

  /** A chunk is stored in block fb of the file. */
  lemma OnTrackStep(d0: Disk, n0: Node, off: nat, buffer: seq<byte>, plan: Plan, d: Disk, cur: Inode, free: nat,
                    n: nat, nb: nat, fb: nat,
                    d': Disk, cur': Inode, free': nat, count: nat) returns (nb': nat)
    requires n < |buffer| && OnTrack(d0, n0, off, buffer, plan, d, cur, free, n, nb)
    requires count <= |buffer| - n && NextChunk(off, n, |buffer|, fb, count)
    requires fb < FILE_BLOCKS && fb <= nb && fb < Blocks(off + |buffer|)
    requires Stored(d, NodeOf(d, cur), d', NodeOf(d', cur'), off + n, buffer[n..][..count])
    requires OnePointer(NodeOf(d, cur), NodeOf(d', cur'), fb)
    requires if HasBlock(NodeOf(d, cur), fb) then cur' == cur && free' == free
      else
        && cur'.blockCount == (cur.blockCount + 1) % WORD
        && (cur'.indirect != 0 <==> cur.indirect != 0 || fb >= DIRECT)
        && free > 0 && free' as int == free - (if fb >= DIRECT && cur.indirect == 0 then 2 else 1)
    ensures OnTrack(d0, n0, off, buffer, plan, d', cur', free', n + count, nb')
  {
    hide Stored, NodeOf, Written, Mapped, Blocks, PlanWrite, HasBlock, NextChunk, OnePointer;
    nb' := if fb == nb then nb + 1 else nb;
    BlocksNext(off, n, |buffer|, n0.rec.size, nb, fb, count);
    MappedNext(NodeOf(d, cur), NodeOf(d', cur'), fb, nb, nb');
    if fb == nb { PlanNext(nb, Blocks(off + |buffer|), free, cur.indirect != 0); }
    WrittenStep(d0, n0, n0.rec.size, d, NodeOf(d, cur), d', NodeOf(d', cur'), off, buffer, off + n, count, nb);
  }

  /** The chunk that starts at off + n lies in block fb and ends with it, or with the buffer of
      `len` bytes. */
  ghost predicate NextChunk(off: nat, n: nat, len: nat, fb: nat, count: nat) {
    && n < len && (n == 0 || (off + n) % BLOCK == 0) && fb == (off + n) / BLOCK
    && count == if BLOCK - (off + n) % BLOCK <= len - n then BLOCK - (off + n) % BLOCK else len - n
  }

  /** The pointers that are not empty stay, and pointer fb is one of them afterwards. */
  ghost predicate OnePointer(n: Node, n': Node, fb: nat) {
    && |n.ptrs| == |n'.ptrs| == FILE_BLOCKS
    && forall k :: 0 <= k < FILE_BLOCKS ==> (n'.ptrs[k] != 0 <==> k == fb || n.ptrs[k] != 0)
  }

  /** How many blocks a file has got after the chunk that starts at off + n. */
  lemma BlocksNext(off: nat, n: nat, len: nat, size: nat, nb: nat, fb: nat, count: nat)
    requires off <= size && NextChunk(off, n, len, fb, count)
    requires nb == if Blocks(off + n) > Blocks(size) then Blocks(off + n) else Blocks(size)
    ensures var nb' := if fb == nb then nb + 1 else nb;
      nb' == if Blocks(off + n + count) > Blocks(size) then Blocks(off + n + count) else Blocks(size)
    ensures size <= nb * BLOCK && off + n <= nb * BLOCK
  {
    var p, q := (off + n) / BLOCK, (off + n) % BLOCK;
    assert off + n == p * BLOCK + q && Blocks(off + n + count) == p + 1;
    assert Blocks(off + n) == if q == 0 then p else p + 1;
  }

  lemma MappedNext(n: Node, n': Node, fb: nat, nb: nat, nb': nat)
    requires OnePointer(n, n', fb) && Mapped(n, nb, FILE_BLOCKS, FILE_BLOCKS)
    requires fb <= nb && fb < FILE_BLOCKS && nb' == if fb == nb then nb + 1 else nb
    requires if HasBlock(n, fb) then n'.rec.blockCount == n.rec.blockCount
             else n'.rec.blockCount == (n.rec.blockCount + 1) % WORD
    ensures Mapped(n', nb', FILE_BLOCKS, FILE_BLOCKS) && (HasBlock(n, fb) <==> fb < nb)
    ensures forall k :: 0 <= k < nb ==> n.ptrs[k] != 0
  {
  }

  lemma PlanNext(nb: nat, want: nat, free: nat, table: bool)
    requires nb < want && nb < FILE_BLOCKS && free > 0 && !(nb >= DIRECT && !table && free == 1)
    ensures var used := if nb >= DIRECT && !table then 2 else 1;
      free >= used && PlanWrite(nb, want, free, table) == PlanWrite(nb + 1, want, free - used, table || nb >= DIRECT)
  {
  }

  // ---- a write that has lost a block ----

  /** The node has exactly the data blocks below k. */
  ghost predicate CutAt(n: Node, k: nat) {
    |n.ptrs| == FILE_BLOCKS && forall j :: 0 <= j < FILE_BLOCKS ==> (n.ptrs[j] != 0 <==> j < k)
  }

  /** The state of a write that has lost the block it took as planned: the file keeps the blocks
      in front of it, with what was written there, and the loop is behind it, at the end of space
      or of all pointers. */
  ghost predicate Behind(d0: Disk, n0: Node, off: nat, buffer: seq<byte>, plan: Plan,
                         d: Disk, cur: Inode, free: nat, n: nat, nb: nat) {
    && plan.Leak? && plan.blocks <= FILE_BLOCKS && n <= |buffer| && nb == Blocks(off + n)
    && off <= n0.rec.size <= plan.blocks * BLOCK < off + n
    && (free == 0 || nb > FILE_BLOCKS) && plan.reach == Min(Blocks(off + |buffer|), nb + free)
    && CutAt(NodeOf(d, cur), plan.blocks)
    && Written(d0, n0, n0.rec.size, d, NodeOf(d, cur), off, buffer, plan.blocks * BLOCK)
  }

  /** Nothing is written in front of block k any more. */
  lemma WrittenKept(d0: Disk, n0: Node, off: nat, buffer: seq<byte>, k: nat, d: Disk, n: Node, d': Disk, n': Node)
    requires off <= n0.rec.size <= k * BLOCK <= off + |buffer| && k <= FILE_BLOCKS
    requires Written(d0, n0, n0.rec.size, d, n, off, buffer, k * BLOCK)
    requires CutAt(n, k) && n'.ptrs == n.ptrs && SameBlocksOf(d, d', n, 0)
    requires forall j :: 0 <= j < FILE_BLOCKS ==> n.ptrs[j] < |d|
    ensures CutAt(n', k) && Written(d0, n0, n0.rec.size, d', n', off, buffer, k * BLOCK)
  {
    forall p: nat | p < k * BLOCK ensures ByteAt(d', n', p) == ByteAt(d, n, p) {
      assert p / BLOCK < k;
    }
    hide ByteAt;
  }

  lemma BehindStart(d0: Disk, n0: Node, off: nat, buffer: seq<byte>, plan: Plan, d: Disk, cur: Inode, free: nat,
                    n: nat, nb: nat, d': Disk, cur': Inode, count: nat)
    requires n < |buffer| && OnTrack(d0, n0, off, buffer, plan, d, cur, free, n, nb)
    requires NextChunk(off, n, |buffer|, nb, count) && nb < Blocks(off + |buffer|) && (off + n) % BLOCK == 0
    requires free > 0 && (nb >= FILE_BLOCKS || (nb >= DIRECT && cur.indirect == 0 && free == 1))
    requires NodeOf(d', cur').ptrs == NodeOf(d, cur).ptrs && SameBlocksOf(d, d', NodeOf(d, cur), 0)
    requires forall j :: 0 <= j < FILE_BLOCKS ==> NodeOf(d, cur).ptrs[j] < |d|
    ensures plan.Leak? && plan.blocks == nb
    ensures Behind(d0, n0, off, buffer, plan, d', cur', free - 1, n + count, nb + 1)
  {
    hide NodeOf, Written, SameBlocksOf;
    assert off + n == nb * BLOCK;
    WrittenKept(d0, n0, off, buffer, nb, d, NodeOf(d, cur), d', NodeOf(d', cur'));
  }

  /** Where the loop is when it goes on behind a lost block. */
  lemma BehindBlock(d0: Disk, n0: Node, off: nat, buffer: seq<byte>, plan: Plan, d: Disk, cur: Inode, free: nat,
                    n: nat, nb: nat, fb: nat)
    requires n < |buffer| && Behind(d0, n0, off, buffer, plan, d, cur, free, n, nb)
    requires (n == 0 || (off + n) % BLOCK == 0) && fb == (off + n) / BLOCK
    ensures fb == nb < Blocks(off + |buffer|) && (off + n) % BLOCK == 0 && !HasBlock(NodeOf(d, cur), fb)
    ensures free == 0 ==> plan.reach == nb && n == nb * BLOCK - off
    ensures free > 0 ==> nb >= FILE_BLOCKS
  {
    hide NodeOf, Written;
  }

  lemma BehindStep(d0: Disk, n0: Node, off: nat, buffer: seq<byte>, plan: Plan, d: Disk, cur: Inode, free: nat,
                   n: nat, nb: nat, d': Disk, cur': Inode, count: nat)
    requires n < |buffer| && Behind(d0, n0, off, buffer, plan, d, cur, free, n, nb)
    requires NextChunk(off, n, |buffer|, nb, count) && nb < Blocks(off + |buffer|) && (off + n) % BLOCK == 0 && free > 0
    requires NodeOf(d', cur').ptrs == NodeOf(d, cur).ptrs && SameBlocksOf(d, d', NodeOf(d, cur), 0)
    requires forall j :: 0 <= j < FILE_BLOCKS ==> NodeOf(d, cur).ptrs[j] < |d|
    ensures Behind(d0, n0, off, buffer, plan, d', cur', free - 1, n + count, nb + 1)
  {
    hide NodeOf, Written, SameBlocksOf;
    assert off + n == nb * BLOCK;
    WrittenKept(d0, n0, off, buffer, plan.blocks, d, NodeOf(d, cur), d', NodeOf(d', cur'));
  }

  lemma BehindEnd(d0: Disk, n0: Node, off: nat, buffer: seq<byte>, plan: Plan, d: Disk, cur: Inode, free: nat,
                  n: nat, nb: nat)
    requires Behind(d0, n0, off, buffer, plan, d, cur, free, n, nb)
    ensures plan.Leak? && plan.blocks <= FILE_BLOCKS && (n == |buffer| ==> plan.reach == Blocks(off + |buffer|))
    ensures off <= n0.rec.size <= plan.blocks * BLOCK < off + n && CutAt(NodeOf(d, cur), plan.blocks)
    ensures n <= |buffer| && Written(d0, n0, n0.rec.size, d, NodeOf(d, cur), off, buffer, plan.blocks * BLOCK)
  {
    hide NodeOf, Written, CutAt;
  }

  /** What holds of a disk on which the file ino claims bytes beyond its blocks and some blocks
      are lost: every block has one owner or none, and none has two; the directories, the other
      inodes and the counts are in order. */
  ghost predicate Leaky(d: Disk, sb: Superblock, bm: seq<byte>, owner: Owner, refs: Refs, ino: nat): (r: bool)
    ensures r ==> |d| > TABLE_BLOCKS
  {
    && |d| > TABLE_BLOCKS
    && (exists S :: owner.Keys < S && Allocator(d, sb, bm, S))
    && Owned(Nodes(d), owner)
    && (forall i :: 0 <= i < USABLE_INODES && i != ino ==> Shape(Nodes(d)[i]))
    && Dirs(d, Nodes(d), refs)
    && sb.freeInodes + UsedInodes(Nodes(d), USABLE_INODES) == MAX_INODES - 1
  }

  /** File ino claims `size` bytes and has the blocks below k, which hold `front`. */
  ghost predicate CutFile(d: Disk, ino: nat, size: nat, k: nat, front: seq<byte>) {
    && |d| > TABLE_BLOCKS && ino in TreeOf(d) && TreeOf(d)[ino].File?
    && |TreeOf(d)[ino].data| == size && front <= TreeOf(d)[ino].data
    && |front| == k * BLOCK && CutAt(Nodes(d)[ino], k)
  }

  /** The write that lost a block is over: the record is on the disk. */
  lemma FinishLost(d0: Disk, sb0: Superblock, bm0: seq<byte>, owner0: Owner, refs: Refs,
                   d: Disk, sb: Superblock, bm: seq<byte>, S: set<nat>, ino: nat, cur: Inode, owner: Owner, d1: Disk)
    requires Consistent(d0, sb0, bm0, owner0, refs)
    requires InProgress(d0, owner0, ino, d, cur, owner)
    requires Allocator(d, sb, bm, S) && owner.Keys < S && sb == sb0.(freeBlocks := sb.freeBlocks)
    requires cur.typ == TYPE_FILE == InodeAt(d0, ino).typ
    requires d1 == WithInode(d, ino, cur)
    ensures Leaky(d1, sb, bm, owner, refs, ino)
    ensures TreeOf(d1) == TreeOf(d0)[ino := File(Data(d1, NodeOf(d, cur)))]
    ensures ino < USABLE_INODES && Nodes(d1)[ino] == NodeOf(d, cur) && SameBlocksOf(d, d1, NodeOf(d, cur), 0)
  {
    hide Owned, NodeOf, SameBlocksOf, Kept, Shape, BitsAre, Cached, Dirs, DirOk, Data, Entries, WithInode, Allocator,
      DataRegion, Nodes, TreeOf, InodeAt, InProgress, OnlyNode;
    AllocatorOf(d0, sb0, bm0, owner0, refs);
    KeptOf(d0, owner0, ino, d, cur, owner);
    RecordOf(d0, ino);
    RegionOf(d0, sb0, bm0, owner0);
    InUse(d0, owner0, ino, d, cur, owner, sb, bm, S);
    RegionSame(sb0, sb, owner0);
    AllocatorInode(d, sb, bm, S, ino, cur);
    Commit(d0, owner0, sb, ino, d, d1, cur, owner);
    OthersShaped(d0, d1, ino);
    TreeStep(d0, d1, ino);
    DirsStep(d0, d1, ino, refs);
    UsedChange(Nodes(d0), Nodes(d1), ino, USABLE_INODES);
  }

  /** The file after the write that lost a block. */
  lemma CutFileDone(d0: Disk, n0: Node, off: nat, buffer: seq<byte>, k: nat, d: Disk, n: Node, d1: Disk, ino: nat)
    requires off <= n0.rec.size <= k * BLOCK < n.rec.size && k * BLOCK <= off + |buffer| && k <= FILE_BLOCKS
    requires Written(d0, n0, n0.rec.size, d, n, off, buffer, k * BLOCK) && CutAt(n, k)
    requires forall j :: 0 <= j < FILE_BLOCKS ==> n.ptrs[j] < |d|
    requires |d1| > TABLE_BLOCKS && ino < USABLE_INODES && Nodes(d1)[ino] == n && SameBlocksOf(d, d1, n, 0)
    requires ino in TreeOf(d1) && TreeOf(d1)[ino] == File(Data(d1, n))
    ensures CutFile(d1, ino, n.rec.size, k, Splice(Data(d0, n0), off, buffer[..k * BLOCK - off]))
  {
    hide ByteAt, TreeOf, Nodes, SameBlocksOf, CutAt;
    WrittenKept(d0, n0, off, buffer, k, d, n, d1, n);
    assert Splice(Data(d0, n0), off, buffer[..k * BLOCK - off]) == Data(d1, n)[..k * BLOCK];
  }

  /** The outcome of a write of n bytes at `off` to file ino of the tree t0 that has lost blocks:
      how far it says it got, and what is there. */
  ghost predicate LostWrite(t0: Tree, plan: Plan, off: nat, buffer: seq<byte>, n: nat,
                            d: Disk, sb: Superblock, bm: seq<byte>, owner: Owner, refs: Refs, ino: nat) {
    && plan.Leak? && ino in t0 && t0[ino].File?
    && off <= |t0[ino].data| <= plan.blocks * BLOCK < off + n && n <= |buffer|
    && n == (if plan.reach < Blocks(off + |buffer|) then plan.reach * BLOCK - off else |buffer|)
    && Leaky(d, sb, bm, owner, refs, ino)
    && ino in TreeOf(d) && TreeOf(d) == t0[ino := TreeOf(d)[ino]]
    && CutFile(d, ino, off + n, plan.blocks, Splice(t0[ino].data, off, buffer[..plan.blocks * BLOCK - off]))
  }

  lemma LostWriteDone(d0: Disk, sb0: Superblock, bm0: seq<byte>, owner0: Owner, refs: Refs,
                      d: Disk, sb: Superblock, bm: seq<byte>, S: set<nat>, ino: nat, i: Inode, owner: Owner, d1: Disk,
                      plan: Plan, off: nat, buffer: seq<byte>, n: nat)
    requires Consistent(d0, sb0, bm0, owner0, refs)
    requires ino < USABLE_INODES && ino in TreeOf(d0)
    requires TreeOf(d0)[ino] == File(Data(d0, NodeOf(d0, InodeAt(d0, ino))))
    requires InProgress(d0, owner0, ino, d, i, owner) && i.typ == TYPE_FILE == InodeAt(d0, ino).typ
    requires Allocator(d, sb, bm, S) && owner.Keys < S && sb == sb0.(freeBlocks := sb.freeBlocks)
    requires plan.Leak? && plan.blocks <= FILE_BLOCKS
    requires off <= InodeAt(d0, ino).size <= plan.blocks * BLOCK < off + n < WORD && n <= |buffer|
    requires n == if plan.reach < Blocks(off + |buffer|) then plan.reach * BLOCK - off else |buffer|
    requires CutAt(NodeOf(d, i), plan.blocks)
    requires Written(d0, NodeOf(d0, InodeAt(d0, ino)), InodeAt(d0, ino).size, d, NodeOf(d, i), off, buffer,
               plan.blocks * BLOCK)
    requires d1 == WithInode(d, ino, i.(size := (off + n) as u32))
    ensures LostWrite(TreeOf(d0), plan, off, buffer, n, d1, sb, bm, owner, refs, ino)
    ensures forall o, r :: !Consistent(d1, sb, bm, o, r)
  {
    hide NodeOf, Written, InProgress, Consistent, Leaky, Allocator, CutAt, TreeOf, Nodes, WithInode, CutFile,
      SameBlocksOf, Splice, InodeAt, Data, Blocks;
    var cur := i.(size := (off + n) as u32);
    NodeFacts(d0, sb0, bm0, owner0, refs, ino);
    var n0 := NodeOf(d0, InodeAt(d0, ino));
    Recount(d0, owner0, ino, d, i, cur, owner);
    AllocatorOf(d0, sb0, bm0, owner0, refs);
    RegionOf(d0, sb0, bm0, owner0);
    RegionSame(sb0, sb, owner0);
    InUse(d0, owner0, ino, d, cur, owner, sb, bm, S);
    FinishLost(d0, sb0, bm0, owner0, refs, d, sb, bm, S, ino, cur, owner, d1);
    WrittenAgain(d0, n0, d, NodeOf(d, i), NodeOf(d, cur), off, buffer, plan.blocks);
    CutFileDone(d0, n0, off, buffer, plan.blocks, d, NodeOf(d, cur), d1, ino);
    forall o, r ensures !Consistent(d1, sb, bm, o, r) {
      LostForever(d0, owner0, d, sb, bm, S, ino, cur, owner, d1, o, r);
    }
  }

  /** The write that lost nothing is over: the record is on the disk. */
  lemma WriteDone(d0: Disk, sb0: Superblock, bm0: seq<byte>, owner0: Owner, refs: Refs,
                  d: Disk, sb: Superblock, bm: seq<byte>, ino: nat, i: Inode, owner: Owner, d1: Disk,
                  off: nat, buffer: seq<byte>, n: nat, nb: nat)
    requires Consistent(d0, sb0, bm0, owner0, refs)
    requires ino < USABLE_INODES && ino in TreeOf(d0)
    requires TreeOf(d0)[ino] == File(Data(d0, NodeOf(d0, InodeAt(d0, ino))))
    requires InProgress(d0, owner0, ino, d, i, owner) && i.typ == TYPE_FILE == InodeAt(d0, ino).typ
    requires Allocator(d, sb, bm, owner.Keys) && sb == sb0.(freeBlocks := sb.freeBlocks)
    requires off <= InodeAt(d0, ino).size == i.size && n <= |buffer| && off + n < WORD
    requires nb <= FILE_BLOCKS && nb == if Blocks(off + n) > Blocks(i.size) then Blocks(off + n) else Blocks(i.size)
    requires Mapped(NodeOf(d, i), nb, FILE_BLOCKS, FILE_BLOCKS)
    requires Written(d0, NodeOf(d0, InodeAt(d0, ino)), i.size, d, NodeOf(d, i), off, buffer, off + n)
    requires d1 == WithInode(d, ino, i.(size := Larger(off + n, i.size)))
    ensures Consistent(d1, sb, bm, owner, refs)
    ensures TreeOf(d1) == TreeOf(d0)[ino := File(Splice(TreeOf(d0)[ino].data, off, buffer[..n]))]
  {
    hide NodeOf, Written, InProgress, Consistent, Allocator, TreeOf, Nodes, WithInode, Splice, InodeAt, Data, Mapped;
    var cur := i.(size := Larger(off + n, i.size));
    NodeFacts(d0, sb0, bm0, owner0, refs, ino);
    var n0 := NodeOf(d0, InodeAt(d0, ino));
    Recount(d0, owner0, ino, d, i, cur, owner);
    WrittenShape(NodeOf(d, i), NodeOf(d, cur), nb, off + n);
    FinishFile(d0, sb0, bm0, owner0, refs, d, sb, bm, ino, cur, owner, d1);
    WrittenSame(d0, n0, d, NodeOf(d, i), NodeOf(d, cur), off, buffer, off + n);
    SpliceData(d0, n0, d, NodeOf(d, cur), off, buffer, off + n);
  }

  function Larger(a: nat, b: u32): u32
    requires a < WORD
  {
    if a > b then a else b
  }

  lemma WrittenShape(n: Node, n': Node, nb: nat, upto: nat)
    requires Mapped(n, nb, FILE_BLOCKS, FILE_BLOCKS) && n.rec.typ == TYPE_FILE && upto < WORD
    requires nb == if Blocks(upto) > Blocks(n.rec.size) then Blocks(upto) else Blocks(n.rec.size)
    requires n'.ptrs == n.ptrs && n'.rec == n.rec.(size := Larger(upto, n.rec.size))
    ensures Shape(n')
  {
  }

  // ---- contents while a file is cut ----

  /** The blocks from `first` on are being freed up to k: the bytes in front are untouched. */
  ghost predicate Cutting(d0: Disk, n0: Node, d: Disk, cur: Inode, first: nat, k: nat, last: nat) {
    && Mapped(NodeOf(d, cur), first, k, last)
    && forall p: nat :: p / BLOCK < first ==> ByteAt(d, NodeOf(d, cur), p) == ByteAt(d0, n0, p)
  }

  lemma CuttingStart(d: Disk, i: Inode, first: nat, last: nat)
    requires first <= last <= FILE_BLOCKS && Mapped(NodeOf(d, i), last, FILE_BLOCKS, FILE_BLOCKS)
    ensures Cutting(d, NodeOf(d, i), d, i, first, first, last)
  {
    hide NodeOf, ByteAt;
  }

  lemma CuttingStep(d0: Disk, n0: Node, d: Disk, cur: Inode, first: nat, k: nat, last: nat, d': Disk, cur': Inode)
    requires Cutting(d0, n0, d, cur, first, k, last) && k < last
    requires SameBlocksOf(d, d', NodeOf(d, cur), 0)
    requires NodeOf(d', cur').ptrs == NodeOf(d, cur).ptrs[k := 0]
    requires forall j :: 0 <= j < FILE_BLOCKS ==> NodeOf(d, cur).ptrs[j] < |d|
    requires cur'.blockCount == cur.blockCount - 1
    ensures Cutting(d0, n0, d', cur', first, k + 1, last)
  {
    GrowBytes(d, d', NodeOf(d, cur), NodeOf(d', cur'), k, 0);
    hide NodeOf, ByteAt, SameBlocksOf;
  }

  lemma CuttingEnd(d0: Disk, n0: Node, d: Disk, cur: Inode, last: nat, size: u32)
    requires size <= n0.rec.size && last == Blocks(n0.rec.size) <= FILE_BLOCKS
    requires Cutting(d0, n0, d, cur, Blocks(size), last, last)
    ensures var n := NodeOf(d, cur.(size := size));
      && Mapped(n, Blocks(size), FILE_BLOCKS, FILE_BLOCKS)
      && Data(d, n) == Data(d0, n0)[..size]
  {
    PtrsOnly(d, cur, cur.(size := size));
    var n := NodeOf(d, cur.(size := size));
    assert forall p: nat :: ByteAt(d, n, p) == ByteAt(d, NodeOf(d, cur), p);
    hide NodeOf, ByteAt;
    forall p | 0 <= p < size ensures ByteAt(d, n, p) == ByteAt(d0, n0, p) {
      assert p / BLOCK < Blocks(size);
    }
  }

  lemma CuttingBlock(d0: Disk, n0: Node, d: Disk, cur: Inode, first: nat, k: nat, last: nat)
    requires Cutting(d0, n0, d, cur, first, k, last) && k < last
    ensures NodeOf(d, cur).ptrs[k] != 0 && cur.blockCount > 0
    ensures k >= DIRECT ==> cur.indirect != 0
  {
  }

  // ---- a file is given a larger size ----

  /** The record of a file got a larger size: all is in order exactly when the blocks it has
      suffice, and then the bytes in front are the same. */
  lemma Grown(d0: Disk, sb: Superblock, bm: seq<byte>, owner: Owner, refs: Refs, ino: nat, size: u32, d1: Disk)
    requires Consistent(d0, sb, bm, owner, refs) && ino in TreeOf(d0) && TreeOf(d0)[ino].File?
    requires |d0| > TABLE_BLOCKS && ino < USABLE_INODES && InodeBlock(ino) < |d0|
    requires size >= InodeAt(d0, ino).size && d1 == WithInode(d0, ino, InodeAt(d0, ino).(size := size))
    ensures Blocks(size) <= Blocks(InodeAt(d0, ino).size) ==>
      && Consistent(d1, sb, bm, owner, refs)
      && ino in TreeOf(d1) && TreeOf(d1) == TreeOf(d0)[ino := TreeOf(d1)[ino]] && TreeOf(d1)[ino].File?
      && |TreeOf(d1)[ino].data| == size && TreeOf(d0)[ino].data <= TreeOf(d1)[ino].data
    ensures Blocks(size) > Blocks(InodeAt(d0, ino).size) ==> forall o, r :: !Consistent(d1, sb, bm, o, r)
  {
    hide NodeOf, InProgress, DataRegion, Allocator, InodeAt, Data, Consistent, Nodes, TreeOf, WithInode, Owned, Blocks;
    FileFacts(d0, sb, bm, owner, refs, ino);
    AllocatorOf(d0, sb, bm, owner, refs);
    Begin(d0, owner, ino);
    RegionOf(d0, sb, bm, owner);
    var i := InodeAt(d0, ino);
    var cur := i.(size := size);
    Recount(d0, owner, ino, d0, i, cur, owner);
    GrownShape(NodeOf(d0, i), NodeOf(d0, cur));
    if Blocks(size) <= Blocks(i.size) {
      FinishFile(d0, sb, bm, owner, refs, d0, sb, bm, ino, cur, owner, d1);
      GrownData(d0, NodeOf(d0, i), NodeOf(d0, cur));
    } else {
      Commit(d0, owner, sb, ino, d0, d1, cur, owner);
      forall o, r ensures !Consistent(d1, sb, bm, o, r) {
        if Consistent(d1, sb, bm, o, r) { NodeFacts(d1, sb, bm, o, r, ino); }
      }
    }
  }

  lemma BlocksGrow(a: nat, b: nat)
    requires a <= b
    ensures Blocks(a) <= Blocks(b)
  {
  }

  lemma GrownShape(n: Node, n': Node)
    requires n'.ptrs == n.ptrs && n'.rec == n.rec.(size := n'.rec.size) && n'.rec.size >= n.rec.size
    requires Shape(n) && n.rec.typ == TYPE_FILE
    ensures Shape(n') <==> Blocks(n'.rec.size) <= Blocks(n.rec.size)
  {
  }

  lemma GrownData(d: Disk, n: Node, n': Node)
    requires n'.ptrs == n.ptrs && n'.rec.size >= n.rec.size
    ensures Data(d, n) <= Data(d, n')
  {
    assert forall p: nat :: ByteAt(d, n', p) == ByteAt(d, n, p);
    hide ByteAt;
  }
}
