/** The on-disk records of DoriFS and where they lie. */
module DorifsRecords {
  import opened Bits
  import opened Bytes

  const MAGIC: u32 := 0x444F5249
  const VERSION: u32 := 1
  const BLOCK := 4096
  const SECTORS_PER_BLOCK := 8
  const MAX_INODES := 1024
  const DIRECT := 12
  const INDIRECT := 1024
  const FILE_BLOCKS := DIRECT + INDIRECT
  const INODE_BYTES := 344
  const PER_BLOCK := 11                 // BLOCK / INODE_BYTES
  const TABLE_BLOCKS := 86              // MAX_INODES * INODE_BYTES / BLOCK, rounded up
  const USABLE_INODES := 946            // the inodes whose record lies inside the table
  const DIRENT_BYTES := 262
  const DIR_SLOTS := 15                 // the whole entries that fit a block
  const ROOT := 1

  const TYPE_FREE: u32 := 0
  const TYPE_FILE: u32 := 1
  const TYPE_DIR: u32 := 2
  const TYPE_SYMLINK: u32 := 3

  type Block = b: seq<byte> | |b| == BLOCK witness Zeros(BLOCK)
  type Disk = seq<Block>
  type DirectPtrs = p: seq<u32> | |p| == DIRECT witness seq(DIRECT, _ => 0)
  type SuperPadding = p: seq<byte> | |p| == BLOCK - 48 witness Zeros(BLOCK - 48)
  type InodePadding = p: seq<byte> | |p| == 12 witness Zeros(12)
  type Text256 = t: seq<byte> | |t| == 256 witness Zeros(256)

  datatype Superblock = Superblock(
    magic: u32, version: u32, totalBlocks: u32, totalInodes: u32, freeBlocks: u32, freeInodes: u32,
    tableStart: u32, tableBlocks: u32, bitmapStart: u32, bitmapBlocks: u32, dataStart: u32, blockSize: u32,
      padding: SuperPadding)

  datatype Inode = Inode(
    typ: u32, size: u32, blockCount: u32, ctime: u32, mtime: u32,
    direct: DirectPtrs, indirect: u32, links: u32, target: Text256, padding: InodePadding)

  datatype Dirent = Dirent(ino: u32, typ: byte, nameLen: byte, name: Text256)

  // ---- superblock ----

  function SuperblockWords(s: Superblock): (w: seq<u32>)
    ensures |w| == 12
  {
    [s.magic, s.version, s.totalBlocks, s.totalInodes, s.freeBlocks, s.freeInodes,
     s.tableStart, s.tableBlocks, s.bitmapStart, s.bitmapBlocks, s.dataStart, s.blockSize]
  }

  function SuperblockBlock(s: Superblock): Block {
    WordBytes(SuperblockWords(s)) + s.padding
  }

  function SuperblockFrom(b: Block): Superblock {
    var w := Words(b[..48]);
    Superblock(w[0], w[1], w[2], w[3], w[4], w[5], w[6], w[7], w[8], w[9], w[10], w[11], b[48..])
  }

  /** A superblock that is written and read back is the same. */
  lemma SuperblockRoundTrip(s: Superblock)
    ensures SuperblockFrom(SuperblockBlock(s)) == s
  {
    assert SuperblockBlock(s)[48..] == s.padding;
    assert SuperblockBlock(s)[..48] == WordBytes(SuperblockWords(s));
    WordsOfBytes(SuperblockWords(s));
  }

  // ---- inodes ----

  function InodeWords(i: Inode): (w: seq<u32>)
    ensures |w| == 19
  {
    [i.typ, i.size, i.blockCount, i.ctime, i.mtime] + i.direct + [i.indirect, i.links]
  }

  function InodeBytes(i: Inode): (s: seq<byte>)
    ensures |s| == INODE_BYTES
  {
    WordBytes(InodeWords(i)) + i.target + i.padding
  }

  function InodeFrom(s: seq<byte>): Inode
    requires |s| == INODE_BYTES
  {
    var w := Words(s[..76]);
    Inode(w[0], w[1], w[2], w[3], w[4], w[5..17], w[17], w[18], s[76..332], s[332..])
  }

  /** An inode record that is written and read back is the same. */
  lemma InodeRoundTrip(i: Inode)
    ensures InodeFrom(InodeBytes(i)) == i
  {
    var s := InodeBytes(i);
    assert s[..76] == WordBytes(InodeWords(i));
    assert s[76..332] == i.target && s[332..] == i.padding;
    WordsOfBytes(InodeWords(i));
    assert InodeWords(i)[5..17] == i.direct;
  }

  const EMPTY_INODE := Inode(0, 0, 0, 0, 0, seq(DIRECT, _ => 0), 0, 0, Zeros(256), Zeros(12))

  lemma InodeOfZeros()
    ensures InodeFrom(Zeros(INODE_BYTES)) == EMPTY_INODE
  {
    var s := Zeros(INODE_BYTES);
    assert s[..76] == Zeros(76);
    assert s[76..332] == Zeros(256) && s[332..] == Zeros(12);
    WordsOfZeros(76);
    assert Words(s[..76])[5..17] == EMPTY_INODE.direct;
  }

  function InodeBlock(ino: nat): nat { 1 + ino / PER_BLOCK }

  function InodeOffset(ino: nat): (o: nat)
    ensures o + INODE_BYTES <= BLOCK
  {
    ino % PER_BLOCK * INODE_BYTES
  }

  /** The record of an inode number lies in front of the bitmap only for the first 946 numbers,
      though the superblock promises 1024. */
  lemma InodeInTable(ino: nat)
    ensures InodeBlock(ino) < 1 + TABLE_BLOCKS <==> ino < USABLE_INODES
  {
  }

  function InodeAt(d: Disk, ino: nat): Inode
    requires InodeBlock(ino) < |d|
  {
    InodeFrom(d[InodeBlock(ino)][InodeOffset(ino)..InodeOffset(ino) + INODE_BYTES])
  }

  function WithInode(d: Disk, ino: nat, i: Inode): (d': Disk)
    requires InodeBlock(ino) < |d|
    ensures |d'| == |d|
  {
    d[InodeBlock(ino) := Patch(d[InodeBlock(ino)], InodeOffset(ino), InodeBytes(i))]
  }

  /** Writing one inode changes that inode and no other. */
  lemma InodeUpdate(d: Disk, ino: nat, i: Inode, j: nat)
    requires InodeBlock(ino) < |d| && InodeBlock(j) < |d|
    ensures InodeAt(WithInode(d, ino, i), j) == if j == ino then i else InodeAt(d, j)
  {
    var b := InodeBlock(ino);
    PatchSlice(d[b], InodeOffset(ino), InodeBytes(i), InodeOffset(j), INODE_BYTES);
    InodeRoundTrip(i);
    if j != ino && InodeBlock(j) == b {
      assert j % PER_BLOCK != ino % PER_BLOCK;
    }
  }

  // ---- directory entries ----

  function DirentBytes(e: Dirent): (s: seq<byte>)
    ensures |s| == DIRENT_BYTES
  {
    WordBytes([e.ino]) + [e.typ, e.nameLen] + e.name
  }

  function DirentFrom(s: seq<byte>): Dirent
    requires |s| == DIRENT_BYTES
  {
    Dirent(WordAt(s, 0), s[4], s[5], s[6..])
  }

  lemma DirentRoundTrip(e: Dirent)
    ensures DirentFrom(DirentBytes(e)) == e
  {
    var s := DirentBytes(e);
    assert forall i :: 0 <= i < 4 ==> s[i] == WordBytes([e.ino])[i];
    WordRoundTrip(e.ino, s, 0);
    assert s[6..] == e.name;
  }

  function DirentAt(b: Block, k: nat): Dirent
    requires k < DIR_SLOTS
  {
    DirentFrom(b[k * DIRENT_BYTES..k * DIRENT_BYTES + DIRENT_BYTES])
  }

  function WithDirent(b: Block, k: nat, e: Dirent): Block
    requires k < DIR_SLOTS
  {
    Patch(b, k * DIRENT_BYTES, DirentBytes(e))
  }

  lemma DirentUpdate(b: Block, k: nat, e: Dirent, j: nat)
    requires k < DIR_SLOTS && j < DIR_SLOTS
    ensures DirentAt(WithDirent(b, k, e), j) == if j == k then e else DirentAt(b, j)
  {
    PatchSlice(b, k * DIRENT_BYTES, DirentBytes(e), j * DIRENT_BYTES, DIRENT_BYTES);
    DirentRoundTrip(e);
  }

  /** Entries are laid one after another and never moved to a fresh block, so the entry of slot k,
      at byte 262 * k, lies whole inside its block up to slot 14; slot 15 is the first that does not. */
  lemma DirentFits(k: nat)
    ensures k < DIR_SLOTS ==> k * DIRENT_BYTES / BLOCK == 0 && k * DIRENT_BYTES + DIRENT_BYTES <= BLOCK
    ensures k == DIR_SLOTS ==> k * DIRENT_BYTES % BLOCK + DIRENT_BYTES > BLOCK
  {
  }

  // ---- strings ----

  /** The bytes of a C string, without its terminator. */
  ghost predicate NoNul(s: seq<byte>) {
    forall i :: 0 <= i < |s| ==> s[i] != 0
  }

  function CharAt(s: seq<byte>, i: nat): byte {
    if i < |s| then s[i] else 0
  }

  /** strncpy of lib/string.c: with a source shorter than n it stores n + 1 bytes. */
  function Strncpy(buf: seq<byte>, src: seq<byte>, n: nat): (r: seq<byte>)
    requires n < |buf|
    ensures |r| == |buf|
  {
    if |src| < n then Patch(buf, 0, src + Zeros(n + 1 - |src|)) else Patch(buf, 0, src[..n])
  }

  /** `strncmp(a + i, b + i, n) == 0` */
  predicate StrncmpZero(a: seq<byte>, b: seq<byte>, i: nat, n: nat)
    decreases n
  {
    if n > 0 && CharAt(a, i) != 0 && CharAt(a, i) == CharAt(b, i) then StrncmpZero(a, b, i + 1, n - 1)
    else n == 0 || CharAt(a, i) == CharAt(b, i)
  }

  function MakeDirent(ino: u32, typ: byte, name: seq<byte>): Dirent {
    Dirent(ino, typ, |name| % 0x100, Strncpy(Zeros(256), name, 255))
  }

  /** The name test of finddir and unlink. */
  predicate Matches(e: Dirent, name: seq<byte>) {
    e.ino != 0 && StrncmpZero(e.name, name, 0, e.nameLen) && CharAt(name, e.nameLen) == 0
  }

  function NameOf(e: Dirent): seq<byte> { e.name[..e.nameLen] }

  lemma {:induction false} StrncmpMeaning(a: seq<byte>, b: seq<byte>, i: nat, n: nat)
    requires i + n <= |a| && NoNul(a[i..i + n])
    ensures StrncmpZero(a, b, i, n) <==> forall k :: i <= k < i + n ==> CharAt(b, k) == a[k]
    decreases n
  {
    if n > 0 {
      assert a[i] == a[i..i + n][0];
      assert a[i + 1..i + n] == a[i..i + n][1..];
      StrncmpMeaning(a, b, i + 1, n - 1);
    }
  }

  lemma MadeName(ino: u32, typ: byte, name: seq<byte>)
    requires |name| <= 255
    ensures NameOf(MakeDirent(ino, typ, name)) == name
  {
    PatchSlice(Zeros(256), 0, name[..|name|], 0, |name|);
  }

  /** The name test accepts exactly the stored name. */
  lemma MatchesExactly(e: Dirent, name: seq<byte>)
    requires e.ino != 0 && NoNul(NameOf(e)) && NoNul(name)
    ensures Matches(e, name) <==> NameOf(e) == name
  {
    var n := e.nameLen;
    assert e.name[0..n] == NameOf(e);
    StrncmpMeaning(e.name, name, 0, n);
    if Matches(e, name) {
      assert forall k :: 0 <= k < n ==> CharAt(name, k) == NameOf(e)[k];
      assert |name| < n ==> NameOf(e)[|name|] == CharAt(name, |name|);
      assert NameOf(e) == name;
    }
  }
}
