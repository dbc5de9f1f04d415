/** Making, mounting and unmounting a DoriFS volume. */
module DorifsVolume {
  import opened Bits
  import opened Bytes
  import opened DorifsRecords
  import opened DorifsTree
  import opened DorifsView
  import opened DorifsFrames
  import opened DorifsDirs
  import opened Dorifs

  // ---- what is on the disk when the file system is not mounted ----

  /** The bitmap as mount loads it. */
  function BitmapOf(d: Disk, sb: Superblock): (bm: seq<byte>)
    requires sb.bitmapStart + sb.bitmapBlocks as int <= |d|
    ensures |bm| == sb.bitmapBlocks * BLOCK
  {
    seq(sb.bitmapBlocks * BLOCK,
      i requires 0 <= i < sb.bitmapBlocks * BLOCK => d[sb.bitmapStart + i / BLOCK][i % BLOCK])
  }

  lemma BitmapOfCached(d: Disk, sb: Superblock, bm: seq<byte>)
    requires Layout(d, sb, bm)
    ensures Cached(d, sb, bm) <==> bm == BitmapOf(d, sb)
  {
    var bm' := BitmapOf(d, sb);
    if Cached(d, sb, bm) {
      forall i | 0 <= i < |bm| ensures bm[i] == bm'[i] {
        assert d[sb.bitmapStart + i / BLOCK] == bm[i / BLOCK * BLOCK..i / BLOCK * BLOCK + BLOCK];
      }
    }
    if bm == bm' {
      forall k: nat | k < sb.bitmapBlocks ensures d[sb.bitmapStart + k] == bm[k * BLOCK..k * BLOCK + BLOCK] {
        var slice := bm[k * BLOCK..k * BLOCK + BLOCK];
        forall j | 0 <= j < BLOCK ensures d[sb.bitmapStart + k][j] == slice[j] {
          assert (k * BLOCK + j) / BLOCK == k && (k * BLOCK + j) % BLOCK == j;
        }
      }
    }
  }

  /** The disk holds a consistent volume described by its own superblock. */
  ghost predicate Volume(d: Disk, owner: Owner, refs: Refs) {
    && |d| > 0
    && var sb := SuperblockFrom(d[0]);
       sb.bitmapStart + sb.bitmapBlocks as int <= |d| && Consistent(d, sb, BitmapOf(d, sb), owner, refs)
  }

  /** Nothing but the superblock lies in block 0. */
  lemma SuperblockApart(d: Disk, sb: Superblock, bm: seq<byte>, owner: Owner, refs: Refs, b: Block)
    requires Consistent(d, sb, bm, owner, refs)
    ensures Consistent(d[0 := b], sb, bm, owner, refs) && TreeOf(d[0 := b]) == TreeOf(d)
  {
    hide Owned, NodeOf, InodeAt, Shape, DirOk, SameBlocksOf, Dirs, Allocator;
    var d1 := d[0 := b];
    RegionOf(d, sb, bm, owner);
    AllocatorFrame(d, d1, sb, bm, owner.Keys, 0);
    forall i | 0 <= i < USABLE_INODES
      ensures Nodes(d1)[i] == Nodes(d)[i] && ObjOf(d1, Nodes(d1)[i]) == ObjOf(d, Nodes(d)[i])
    {
      ApartNode(d, sb, owner, i, b);
      SameObj(d, d1, Nodes(d)[i]);
    }
    assert Nodes(d1) == Nodes(d);
    ApartDirs(d, d1, refs);
  }

  lemma ApartNode(d: Disk, sb: Superblock, owner: Owner, i: nat, b: Block)
    requires |d| > TABLE_BLOCKS && i < USABLE_INODES && Owned(Nodes(d), owner) && DataRegion(sb, owner)
    ensures Nodes(d[0 := b])[i] == Nodes(d)[i] && SameBlocksOf(d, d[0 := b], Nodes(d)[i], 0)
  {
    NodePointers(d, owner, i);
    SameNode(d, d[0 := b], InodeAt(d, i));
  }

  lemma ApartDirs(d: Disk, d1: Disk, refs: Refs)
    requires |d| == |d1| && |d| > TABLE_BLOCKS && Nodes(d1) == Nodes(d) && Dirs(d, Nodes(d), refs)
    requires forall i :: 0 <= i < USABLE_INODES && Nodes(d)[i].rec.typ != TYPE_FREE ==>
            ObjOf(d1, Nodes(d)[i]) == ObjOf(d, Nodes(d)[i])
    ensures Dirs(d1, Nodes(d1), refs)
  {
    hide Nodes, Entries, EntryOk;
    forall i | 0 <= i < USABLE_INODES ensures DirOk(d1, Nodes(d1), refs, i) {
      assert DirOk(d, Nodes(d), refs, i);
    }
  }

  // ---- unmount and mount ----

  method Unmount(fs: FileSystem)
    requires fs.Valid()
    modifies fs`disk
    ensures fs.Valid() && Volume(fs.disk, fs.owner, fs.refs)
    ensures SuperblockFrom(fs.disk[0]) == fs.sb && BitmapOf(fs.disk, fs.sb) == fs.bitmap[..]
    ensures TreeOf(fs.disk) == old(fs.Tree())
  {
    hide Consistent, TreeOf;
    SuperblockApart(fs.disk, fs.sb, fs.bitmap[..], fs.owner, fs.refs, SuperblockBlock(fs.sb));
    fs.WriteBlock(0, SuperblockBlock(fs.sb));
    SuperblockRoundTrip(fs.sb);
    AllocatorOf(fs.disk, fs.sb, fs.bitmap[..], fs.owner, fs.refs);
    BitmapOfCached(fs.disk, fs.sb, fs.bitmap[..]);
  }

  /** Mounts a volume.  It refuses a disk without the magic number, one whose bitmap would be empty,
      since no memory is given for that, and one without an inode for the root.  It looks no
      further: what is mounted is in order exactly when the disk was. */
  method Mount(disk: Disk, ghost owner: Owner, ghost refs: Refs) returns (fs: FileSystem?, root: VfsNode?)
    requires |disk| > 0
    requires var sb := SuperblockFrom(disk[0]);
      sb.magic == MAGIC ==> sb.tableStart == 1 < |disk| && sb.bitmapStart + sb.bitmapBlocks as int <= |disk|
    ensures fs == null <==>
      var sb := SuperblockFrom(disk[0]);
      sb.magic != MAGIC || sb.bitmapBlocks == 0 || sb.totalInodes <= ROOT
    ensures (root == null) == (fs == null)
    ensures fs != null ==>
      && fresh(fs) && fresh(fs.bitmap) && fresh(root) && root.ino == ROOT
      && fs.disk == disk && fs.sb == SuperblockFrom(disk[0]) && fs.owner == owner && fs.refs == refs
      && (fs.Valid() <==> Volume(disk, owner, refs))
    ensures fs != null && Volume(disk, owner, refs) ==>
      |disk| > TABLE_BLOCKS && fs.Tree() == TreeOf(disk) && fs.IsNode(root) && root.typ == VFS_DIRECTORY
  {
    hide Consistent, TreeOf, BitmapOf;
    var sb := SuperblockFrom(disk[0]);
    if sb.magic != MAGIC || sb.bitmapBlocks == 0 {
      return null, null;
    }
    var bitmap := new byte[sb.bitmapBlocks * BLOCK];
    var i := 0;
    while i < sb.bitmapBlocks
      invariant 0 <= i <= sb.bitmapBlocks
      invariant forall j :: 0 <= j < i * BLOCK ==> bitmap[j] == disk[sb.bitmapStart + j / BLOCK][j % BLOCK]
    {
      var block := disk[sb.bitmapStart + i];
      LoadBlock(bitmap, i * BLOCK, block);
      i := i + 1;
    }
    LoadedBitmap(disk, sb, bitmap[..]);
    fs := new FileSystem(disk, sb, bitmap, owner, refs);
    if Volume(disk, owner, refs) { RootThere(disk, sb, bitmap[..], owner, refs); }
    root := fs.MakeNode(ROOT);
    if root == null { fs := null; }
  }

  /** Reads one block into the bitmap. */
  method LoadBlock(bitmap: array<byte>, at: nat, block: Block)
    requires at + BLOCK <= bitmap.Length
    modifies bitmap
    ensures forall j :: 0 <= j < bitmap.Length ==>
            bitmap[j] == if at <= j < at + BLOCK then block[j - at] else old(bitmap[j])
  {
    forall j | 0 <= j < BLOCK { bitmap[at + j] := block[j]; }
  }

  lemma LoadedBitmap(d: Disk, sb: Superblock, bm: seq<byte>)
    requires sb.bitmapStart + sb.bitmapBlocks as int <= |d| && |bm| == sb.bitmapBlocks * BLOCK
    requires forall j :: 0 <= j < |bm| ==> bm[j] == d[sb.bitmapStart + j / BLOCK][j % BLOCK]
    ensures bm == BitmapOf(d, sb)
  {
  }

  /** Unmounting and mounting again gives back superblock, bitmap and tree, unless the bitmap is
      empty: then mount refuses what was mounted before. */
  method Remount(fs: FileSystem) returns (fs': FileSystem?, root: VfsNode?)
    requires fs.Valid()
    modifies fs`disk
    ensures fs' == null <==> fs.bitmap.Length == 0
    ensures (root == null) == (fs' == null)
    ensures fs' != null ==>
      && fresh(fs') && fs'.Valid() && fs'.sb == old(fs.sb) && fs'.bitmap[..] == old(fs.bitmap[..])
      && fs'.Tree() == old(fs.Tree())
      && fs'.owner == old(fs.owner) && fs'.refs == old(fs.refs)
      && root.ino == ROOT && fs'.IsNode(root)
  {
    hide Consistent, TreeOf, BitmapOf;
    Unmount(fs);
    ghost var bm := fs.bitmap[..];
    MagicOf(fs.disk, fs.sb, bm);
    fs', root := Mount(fs.disk, fs.owner, fs.refs);
    if fs' != null {
      AllocatorOf(fs'.disk, fs'.sb, fs'.bitmap[..], fs'.owner, fs'.refs);
      BitmapOfCached(fs'.disk, fs'.sb, fs'.bitmap[..]);
    }
  }

  lemma MagicOf(d: Disk, sb: Superblock, bm: seq<byte>)
    requires Layout(d, sb, bm)
    ensures sb.magic == MAGIC && sb.totalInodes > ROOT && (|bm| == 0 <==> sb.bitmapBlocks == 0)
  {
  }

  // ---- format ----

  function BitmapBlocksFor(d: nat): nat { (d / 8 + BLOCK - 1) / BLOCK }

  /** The bitmap that format reserves when d blocks follow the inode table has a bit for every
      data block. */
  predicate Covers(d: nat) {
    d - BitmapBlocksFor(d) <= 8 * BLOCK * BitmapBlocksFor(d)
  }

  /** Format counts whole bytes of bits, so up to seven blocks may go without: exactly when the
      blocks left over after full bitmap blocks are fewer than 8 but more than the bitmap blocks. */
  lemma CoversExactly(d: nat)
    ensures Covers(d) <==> !(d / 32768 < d % 32768 < 8)
    ensures BitmapBlocksFor(d) <= d
  {
    var q, r := d / 32768, d % 32768;
    assert d / 8 == 4096 * q + r / 8;
    assert BitmapBlocksFor(d) == if r < 8 then q else q + 1;
  }

  /** Format gives no bitmap to 5 blocks, and one bitmap block with 32768 bits, that is one too few
      bits for the blocks behind it, to 32773. */
  lemma CoversInstance()
    ensures !Covers(5) && !Covers(32773)
  {
  }

  function FreshSuperblock(totalBlocks: u32): Superblock
    requires totalBlocks > TABLE_BLOCKS
  {
    var n := totalBlocks - 1 - TABLE_BLOCKS;
    CoversExactly(n);
    var bitmapBlocks := BitmapBlocksFor(n);
    Superblock(MAGIC, VERSION, totalBlocks, MAX_INODES, n - bitmapBlocks, MAX_INODES - 2,
               1, TABLE_BLOCKS, 1 + TABLE_BLOCKS, bitmapBlocks, 1 + TABLE_BLOCKS + bitmapBlocks, BLOCK,
               Zeros(BLOCK - 48))
  }

  const ROOT_INODE := EMPTY_INODE.(typ := TYPE_DIR, links := 1)

  method Format(disk: Disk, totalSectors: u32) returns (d: Disk)
    requires 1 + TABLE_BLOCKS <= totalSectors / SECTORS_PER_BLOCK <= |disk|
    ensures |d| == |disk| && SuperblockFrom(d[0]) == FreshSuperblock(totalSectors / SECTORS_PER_BLOCK)
    ensures Covers(totalSectors / SECTORS_PER_BLOCK - 1 - TABLE_BLOCKS) ==>
      Volume(d, map[], map[]) && |d| > TABLE_BLOCKS && TreeOf(d) == map[ROOT := Dir([])]
    ensures !Covers(totalSectors / SECTORS_PER_BLOCK - 1 - TABLE_BLOCKS) ==> forall o, r :: !Volume(d, o, r)
  {
    hide Consistent, TreeOf, BitmapOf, WithInode, SuperblockBlock, SuperblockFrom, Volume, Covers, InodeBytes,
      FreshSuperblock, BitmapBlocksFor;
    var totalBlocks := totalSectors / SECTORS_PER_BLOCK;
    var sb := LayOut(totalBlocks);
    d := disk[0 := SuperblockBlock(sb)];
    d := ZeroBlocks(d, 1, TABLE_BLOCKS);
    d := ZeroBlocks(d, 1 + TABLE_BLOCKS, sb.bitmapBlocks);
    ghost var d1 := d;
    var buf: Block := d[1];
    buf := Patch(buf, INODE_BYTES, InodeBytes(ROOT_INODE));
    d := d[1 := buf];
    RootPlace(d1);
    sb := sb.(freeInodes := sb.freeInodes - 1);
    d := d[0 := SuperblockBlock(sb)];
    SuperblockRoundTrip(sb);
    if Covers(totalBlocks - 1 - TABLE_BLOCKS) {
      FormattedVolume(d1, d, sb);
    } else {
      forall o, r ensures !Volume(d, o, r) { NoVolume(d, sb, o, r); }
    }
  }

  /** The superblock of a fresh volume, before the root is counted. */
  method LayOut(totalBlocks: u32) returns (sb: Superblock)
    requires TABLE_BLOCKS < totalBlocks
    ensures sb.freeInodes == MAX_INODES - 1 && sb.(freeInodes := MAX_INODES - 2) == FreshSuperblock(totalBlocks)
    ensures sb.bitmapStart == 1 + TABLE_BLOCKS && 1 + TABLE_BLOCKS + sb.bitmapBlocks <= sb.totalBlocks == totalBlocks
    ensures sb.dataStart == 1 + TABLE_BLOCKS + sb.bitmapBlocks
    ensures Covers(totalBlocks - 1 - TABLE_BLOCKS) <==> sb.totalBlocks - sb.dataStart <= 8 * BLOCK * sb.bitmapBlocks
  {
    var dataBlocks := totalBlocks - 1 - TABLE_BLOCKS;
    CoversExactly(dataBlocks);
    var bitmapBlocks := (dataBlocks / 8 + BLOCK - 1) / BLOCK;
    dataBlocks := dataBlocks - bitmapBlocks;
    sb := Superblock(MAGIC, VERSION, totalBlocks, MAX_INODES, dataBlocks, MAX_INODES - 1,
      1, TABLE_BLOCKS, 1 + TABLE_BLOCKS, bitmapBlocks, 1 + TABLE_BLOCKS + bitmapBlocks, BLOCK, Zeros(BLOCK - 48));
  }

  method ZeroBlocks(disk: Disk, start: nat, count: nat) returns (d: Disk)
    requires start + count <= |disk|
    ensures |d| == |disk|
    ensures forall b :: 0 <= b < |d| ==> d[b] == if start <= b < start + count then Zeros(BLOCK) else disk[b]
  {
    d := disk;
    var i := 0;
    while i < count
      invariant 0 <= i <= count && |d| == |disk|
      invariant forall b :: 0 <= b < |d| ==> d[b] == if start <= b < start + i then Zeros(BLOCK) else disk[b]
    {
      d := d[start + i := Zeros(BLOCK)];
      i := i + 1;
    }
  }

  lemma RootPlace(d: Disk)
    requires |d| > 1
    ensures WithInode(d, ROOT, ROOT_INODE) == d[1 := Patch(d[1], INODE_BYTES, InodeBytes(ROOT_INODE))]
  {
  }

  lemma NoVolume(d: Disk, sb: Superblock, o: Owner, r: Refs)
    requires |d| > 0 && sb == SuperblockFrom(d[0])
    requires sb.totalBlocks - sb.dataStart > 8 * BLOCK * sb.bitmapBlocks
    ensures !Volume(d, o, r)
  {
    hide Owned, Dirs, Shape, Allocator, Nodes;
  }

  lemma {:induction false} AllClear(bm: seq<byte>, n: nat)
    requires n <= 8 * |bm| && forall i :: 0 <= i < |bm| ==> bm[i] == 0
    ensures ClearBits(bm, n) == n
  {
    if n != 0 {
      AllClear(bm, n - 1);
      Zero((n - 1) % 8);
    }
  }

  lemma ZeroAllocator(d: Disk, sb: Superblock, bm: seq<byte>)
    requires Layout(d, sb, bm) && Cached(d, sb, bm) && forall i :: 0 <= i < |bm| ==> bm[i] == 0
    requires sb.freeBlocks == sb.totalBlocks - sb.dataStart
    ensures Allocator(d, sb, bm, {})
  {
    AllClear(bm, sb.freeBlocks);
    forall i: nat | i < sb.freeBlocks ensures !BitmapBit(bm, i) { Zero(i % 8); }
  }

  /** The inodes of a fresh volume: the root, and nothing else. */
  lemma FormattedInodes(d1: Disk, d: Disk)
    requires |d1| > TABLE_BLOCKS && |d| == |d1| && forall b :: 1 <= b <= TABLE_BLOCKS ==> d1[b] == Zeros(BLOCK)
    requires forall b :: 1 <= b <= TABLE_BLOCKS ==> d[b] == WithInode(d1, ROOT, ROOT_INODE)[b]
    ensures forall i :: 0 <= i < USABLE_INODES ==> InodeAt(d, i) == if i == ROOT then ROOT_INODE else EMPTY_INODE
  {
    hide InodeFrom, InodeBytes, WithInode;
    forall i | 0 <= i < USABLE_INODES ensures InodeAt(d, i) == if i == ROOT then ROOT_INODE else EMPTY_INODE {
      InodeInTable(i);
      InodeUpdate(d1, ROOT, ROOT_INODE, i);
      assert Zeros(BLOCK)[InodeOffset(i)..InodeOffset(i) + INODE_BYTES] == Zeros(INODE_BYTES);
      InodeOfZeros();
    }
  }

  lemma {:induction false} UsedRoot(v: seq<Node>, n: nat)
    requires n <= |v| && |v| > ROOT
    requires forall i :: 0 <= i < |v| ==> (v[i].rec.typ == TYPE_FREE <==> i != ROOT)
    ensures UsedInodes(v, n) == if n > ROOT then 1 else 0
  {
    if n != 0 { UsedRoot(v, n - 1); }
  }

  lemma RootIsHollow()
    ensures HollowRecord(ROOT_INODE) && ROOT_INODE.typ == TYPE_DIR && ROOT_INODE.size == 0
  {
    assert forall k :: 0 <= k < DIRECT ==> EMPTY_INODE.direct[k] == 0;
  }

  /** A fresh volume is consistent, and holds an empty root directory. */
  lemma FormattedVolume(d1: Disk, d: Disk, sb: Superblock)
    requires TABLE_BLOCKS < sb.totalBlocks <= |d| == |d1| && sb == FreshSuperblock(sb.totalBlocks)
    requires SuperblockFrom(d[0]) == sb && Covers(sb.totalBlocks - 1 - TABLE_BLOCKS)
    requires forall b :: 1 <= b < 1 + TABLE_BLOCKS + sb.bitmapBlocks ==> d1[b] == Zeros(BLOCK)
    requires d == WithInode(d1, ROOT, ROOT_INODE)[0 := d[0]]
    ensures Volume(d, map[], map[]) && TreeOf(d) == map[ROOT := Dir([])]
  {
    hide NodeOf, InodeAt, WithInode, Shape, DirOk, EMPTY_INODE, ObjOf, Slot, HollowRecord, Cached, SuperblockFrom;
    var bm := BitmapOf(d, sb);
    var owner: Owner := map[];
    var refs: Refs := map[];
    FreshBitmap(d1, d, sb);
    BitmapOfCached(d, sb, bm);
    ZeroAllocator(d, sb, bm);
    FormattedInodes(d1, d);
    EmptyIsHollow();
    RootIsHollow();
    var v := Nodes(d);
    HollowNode(d, EMPTY_INODE);
    HollowNode(d, ROOT_INODE);
    forall i | 0 <= i < USABLE_INODES
      ensures v[i] == NodeOf(d, if i == ROOT then ROOT_INODE else EMPTY_INODE)
      ensures DirOk(d, v, refs, i)
    {
      EmptyDirOk(d, v, refs, i);
      if i == ROOT { EmptyDirIs(d, v, refs, i); }
    }
    UsedRoot(v, USABLE_INODES);
    assert owner.Keys == {};
    assert Consistent(d, sb, bm, owner, refs);
    assert EmptyObj(ROOT_INODE) == Dir([]);
  }

  lemma EmptyDirIs(d: Disk, v: seq<Node>, refs: Refs, i: nat)
    requires i < |v| && v[i].rec.size == 0
    ensures DirOk(d, v, refs, i)
  {
  }

  lemma FreshBitmap(d1: Disk, d: Disk, sb: Superblock)
    requires TABLE_BLOCKS < sb.totalBlocks <= |d| == |d1| && sb == FreshSuperblock(sb.totalBlocks)
    requires Covers(sb.totalBlocks - 1 - TABLE_BLOCKS)
    requires forall b :: 1 <= b < 1 + TABLE_BLOCKS + sb.bitmapBlocks ==> d1[b] == Zeros(BLOCK)
    requires d == WithInode(d1, ROOT, ROOT_INODE)[0 := d[0]]
    ensures sb.bitmapStart + sb.bitmapBlocks as int <= |d|
    ensures Layout(d, sb, BitmapOf(d, sb))
    ensures forall i :: 0 <= i < |BitmapOf(d, sb)| ==> BitmapOf(d, sb)[i] == 0
  {
    CoversExactly(sb.totalBlocks - 1 - TABLE_BLOCKS);
    RootPlace(d1);
    hide WithInode;
  }
}
