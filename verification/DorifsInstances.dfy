/** Runs of calls on a fresh volume of 96 blocks, at the inputs where the code fails. */
module DorifsInstances {
  import opened Bits
  import opened DorifsRecords
  import opened DorifsTree
  import opened DorifsView
  import opened DorifsFrames
  import opened DorifsDirs
  import opened Dorifs
  import opened DorifsVolume

  const NAME: seq<byte> := [97]
  const BLOCKS := 96

  lemma SmallVolume()
    ensures var sb := FreshSuperblock(BLOCKS);
      && Covers(BLOCKS - 1 - TABLE_BLOCKS) && sb.magic == MAGIC && sb.totalInodes == MAX_INODES
      && sb.bitmapBlocks == 1 && sb.freeBlocks == 8 && sb.tableStart == 1 && sb.bitmapStart == 1 + TABLE_BLOCKS
  {
  }

  lemma NewIsFile()
    ensures NewObj(VFS_FILE as nat) == File([])
  {
    assert !Bit(1, 1) && !Bit(1, 2);
  }

  /** The tree of a fresh volume has room for the name, and inode 2 is the lowest one free. */
  lemma FreshRoom(t: Tree)
    requires t == map[ROOT := Dir([])]
    ensures SlotFor(t, ROOT, NAME) && NameFree(t, ROOT, NAME) && 2 !in t && 3 !in t
    ensures forall ino: nat :: IsLowestFree(t, ino) ==>
      ino == 2 && AddObj(t, ROOT, NAME, ino, File([])) == map[ROOT := Dir([Live(NAME, 2, 1)]), 2 := File([])]
  {
    assert [] + [Live(NAME, 2, 1)] == [Live(NAME, 2, 1)];
  }

  /** Format, mount and create: the volume holds one empty file. */
  method OneFile(disk: Disk) returns (fs: FileSystem, root: VfsNode)
    requires |disk| >= BLOCKS
    ensures fresh(fs) && fresh(root) && fresh(fs.bitmap) && fs.Valid() && root.ino == ROOT
    ensures fs.Tree() == map[ROOT := Dir([Live(NAME, 2, 1)]), 2 := File([])]
  {
    hide Consistent, TreeOf, Volume, Covers, FreshSuperblock, NewObj, NoNul, AddObj, SlotFor, NameFree, IsLowestFree;
    SmallVolume();
    NewIsFile();
    var d := Format(disk, (BLOCKS * SECTORS_PER_BLOCK) as u32);
    var mounted, node := Mount(d, map[], map[]);
    fs, root := mounted, node;
    FreshRoom(fs.Tree());
    assert fs.HasRoom(root, NAME) && fs.InodeFree();
    ghost var ino;
    var r;
    r, ino := fs.Create(root, NAME, VFS_FILE as nat);
  }

  /** An empty file is given the size 1: the volume is out of order, whoever owns what. */
  method GrownInstance(disk: Disk) returns (fs: FileSystem)
    requires |disk| >= BLOCKS
    ensures !fs.Valid() && forall o, r :: !Consistent(fs.disk, fs.sb, fs.bitmap[..], o, r)
  {
    hide Consistent, TreeOf;
    var root;
    fs, root := OneFile(disk);
    var node := fs.Finddir(root, NAME);
    var r := fs.Truncate(node, 1);
  }

  /** A name is entered twice: the volume is out of order, and the directory has both entries. */
  method TwiceInstance(disk: Disk) returns (fs: FileSystem)
    requires |disk| >= BLOCKS
    ensures !fs.Valid() && forall o, r :: !Consistent(fs.disk, fs.sb, fs.bitmap[..], o, r)
    ensures |fs.disk| > TABLE_BLOCKS && EntriesIn(TreeOf(fs.disk), ROOT) == [Live(NAME, 2, 1), Live(NAME, 3, 1)]
  {
    hide Consistent, TreeOf, NewObj;
    var root;
    fs, root := OneFile(disk);
    NewIsFile();
    var r;
    ghost var ino;
    assert 3 !in fs.Tree();
    r, ino := fs.Create(root, NAME, VFS_FILE as nat);
    assert ino == 3;
  }
}
