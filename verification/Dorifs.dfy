/** The DoriFS file system of kernel/dorifs.c. */
module Dorifs {
  import opened Bits
  import opened Bytes
  import opened DorifsRecords
  import opened DorifsTree
  import opened DorifsView
  import opened DorifsFrames
  import opened DorifsDirs
  import opened DorifsRuns

  /** A node of the virtual file system: an inode number with its size and type as last seen. */
  class VfsNode {
    var ino: u32
    var typ: u32
    var size: u32

    constructor (ino: u32, typ: u32, size: u32)
      ensures this.ino == ino && this.typ == typ && this.size == size
    {
      this.ino, this.typ, this.size := ino, typ, size;
    }
  }

  /** The mounted file system: the disk, and the state kept in memory. */
  class FileSystem {
    var disk: Disk
    var sb: Superblock
    var bitmap: array<byte>

    // which pointer refers to each block in use, and which entry to each inode
    ghost var owner: Owner
    ghost var refs: Refs

    constructor (disk: Disk, sb: Superblock, bitmap: array<byte>, ghost owner: Owner, ghost refs: Refs)
      ensures this.disk == disk && this.sb == sb && this.bitmap == bitmap && this.owner == owner && this.refs == refs
    {
      this.disk, this.sb, this.bitmap, this.owner, this.refs := disk, sb, bitmap, owner, refs;
    }

    ghost predicate Valid()
      reads this, bitmap
    {
      Consistent(disk, sb, bitmap[..], owner, refs)
    }

    /** What the disk stands for. */
    ghost function Tree(): DorifsTree.Tree
      requires Valid()
      reads this, bitmap
    {
      TreeOf(disk)
    }

    ghost predicate IsFile(node: VfsNode)
      requires Valid()
      reads this, bitmap, node
    {
      node.ino as nat in Tree() && Tree()[node.ino as nat].File?
    }

    // ---- blocks ----

    method ReadBlock(b: nat) returns (buf: Block)
      requires b < |disk|
      ensures buf == disk[b]
    {
      buf := disk[b];
    }

    method WriteBlock(b: nat, buf: Block)
      requires b < |disk|
      modifies this`disk
      ensures disk == old(disk)[b := buf]
    {
      disk := disk[b := buf];
    }

    // ---- inodes ----

    /** The guard of the code on the number never fires here. */
    method ReadInode(ino: nat) returns (i: Inode)
      requires ino < sb.totalInodes
      requires sb.tableStart == 1 && InodeBlock(ino) < |disk|
      ensures i == InodeAt(disk, ino)
    {
      var buf := ReadBlock(sb.tableStart + ino / PER_BLOCK);
      i := InodeFrom(buf[InodeOffset(ino)..InodeOffset(ino) + INODE_BYTES]);
    }

    method WriteInode(ino: nat, i: Inode)
      requires ino < sb.totalInodes
      requires sb.tableStart == 1 && InodeBlock(ino) < |disk|
      modifies this`disk
      ensures disk == WithInode(old(disk), ino, i)
    {
      var buf := ReadBlock(sb.tableStart + ino / PER_BLOCK);
      WriteBlock(sb.tableStart + ino / PER_BLOCK, Patch(buf, InodeOffset(ino), InodeBytes(i)));
    }

    /** Takes the lowest inode whose record reads as free, or returns 0 when none does.  The scan
        goes on behind the 946 records of the table, and a record taken there leaves a disk that no
        account makes consistent. */
    method AllocInode() returns (ino: u32)
      requires Layout(disk, sb, bitmap[..])
      modifies this`disk, this`sb
      ensures ino == 0 ==> disk == old(disk) && sb == old(sb)
      ensures forall i :: 1 <= i < (if ino == 0 then MAX_INODES else ino) ==> !FreeRecord(old(disk), i)
      ensures ino != 0 ==>
        && ino < MAX_INODES && FreeRecord(old(disk), ino as nat)
        && disk == WithInode(old(disk), ino, EMPTY_INODE.(links := 1))
        && sb == old(sb).(freeInodes := (old(sb).freeInodes + (WORD - 1)) % WORD)
      ensures old(Valid()) && !old(InodeFree()) ==> ino == 0 || forall o, r :: !Consistent(disk, sb, bitmap[..], o, r)
    {
      hide FreeRecord, InodeFrom, InodeBytes, Consistent, TreeOf, WithInode, InodeAt;
      if Valid() { FreeRecords(disk, sb, bitmap[..], owner, refs); }
      ino := 1;
      while ino < sb.totalInodes
        invariant 1 <= ino <= MAX_INODES && Layout(disk, sb, bitmap[..])
        invariant forall i :: 1 <= i < ino ==> !FreeRecord(disk, i)
        invariant disk == old(disk) && sb == old(sb)
      {
        FreeRecordMeans(disk, ino as nat);
        if sb.tableStart + ino / PER_BLOCK < |disk| {
          var buf := ReadBlock(sb.tableStart + ino / PER_BLOCK);
          var offset := InodeOffset(ino);
          if InodeFrom(buf[offset..offset + INODE_BYTES]).typ == TYPE_FREE {
            WriteBlock(sb.tableStart + ino / PER_BLOCK, Patch(buf, offset, InodeBytes(EMPTY_INODE.(links := 1))));
            sb := sb.(freeInodes := (sb.freeInodes + (WORD - 1)) % WORD);
            RecordStored(old(disk), ino as nat, EMPTY_INODE.(links := 1));
            assert old(Valid()) && ino < USABLE_INODES ==> ino as nat !in old(Tree());
            if old(Valid()) && ino >= USABLE_INODES {
              BeyondTable(old(disk), old(sb), bitmap[..], owner, refs, ino as nat, EMPTY_INODE.(links := 1), disk, sb);
            }
            return;
          }
        }
        ino := ino + 1;
      }
      ino := 0;
    }

    method FreeInode(ino: nat)
      requires ino < sb.totalInodes
      requires sb.tableStart == 1 && InodeBlock(ino) < |disk| && sb.freeInodes < MAX_INODES
      modifies this`disk, this`sb
      ensures disk == WithInode(old(disk), ino, EMPTY_INODE)
      ensures sb == old(sb).(freeInodes := old(sb).freeInodes + 1)
    {
      WriteInode(ino, EMPTY_INODE);
      sb := sb.(freeInodes := sb.freeInodes + 1);
    }

    // ---- data blocks ----

    /** Writes back the bitmap byte `at` that was just changed in memory. */
    method FlushBitmapByte(at: nat, ghost bm: seq<byte>)
      requires Layout(disk, sb, bm) && Cached(disk, sb, bm) && at < bitmap.Length == |bm|
      requires bitmap[..] == bm[at := bitmap[at]]
      modifies this`disk
      ensures Layout(disk, sb, bitmap[..]) && Cached(disk, sb, bitmap[..])
      ensures OnlyBitmap(old(disk), disk, sb)
    {
      CachedUpdate(disk, sb, bm, at, bitmap[at]);
      var buf := ReadBlock(sb.bitmapStart + at / BLOCK);
      buf := buf[at % BLOCK := bitmap[at]];
      WriteBlock(sb.bitmapStart + at / BLOCK, buf);
    }

    /** Takes the lowest free block, or returns 0 when there is none. */
    method AllocBlock(ghost S: set<nat>) returns (b: u32)
      requires Allocator(disk, sb, bitmap[..], S)
      modifies this`disk, this`sb, bitmap
      ensures b == 0 <==> old(sb).freeBlocks == 0
      ensures b == 0 ==> disk == old(disk) && sb == old(sb) && bitmap[..] == old(bitmap[..])
      ensures b != 0 ==>
        && sb.dataStart <= b < sb.totalBlocks && b !in S
        && (forall c :: sb.dataStart <= c < b ==> c in S)
        && sb == old(sb).(freeBlocks := old(sb).freeBlocks - 1)
        && Allocator(disk, sb, bitmap[..], S + {b as nat})
        && OnlyBitmap(old(disk), disk, sb)
    {
      hide BitsAre, ClearBits, OnlyBitmap, Bit, SetBit;
      var total := sb.totalBlocks - sb.dataStart;
      var i := 0;
      while i < total
        invariant 0 <= i <= total
        invariant forall c :: sb.dataStart <= c < sb.dataStart + i ==> c in S
        invariant disk == old(disk) && sb == old(sb) && bitmap[..] == old(bitmap[..])
      {
        var at := i / 8;
        ghost var bm := bitmap[..];
        BitMeaning(disk, sb, bm, S, i);
        if !Bit(bitmap[at], i % 8) {
          ghost var bb := TakeBit(disk, sb, bm, S, i);
          bitmap[at] := SetBit(bitmap[at], i % 8);
          assert bitmap[..] == bm[at := bb];
          sb := sb.(freeBlocks := sb.freeBlocks - 1);
          FlushBitmapByte(at, bm);
          b := sb.dataStart + i;
          return;
        }
        i := i + 1;
      }
      NoneFree(disk, sb, bitmap[..], S);
      b := 0;
    }

    /** Gives block b back.  The allocator stays in order exactly when the block was in use: the
        code does not look, and counts it as free once more. */
    method FreeBlock(b: nat, ghost S: set<nat>)
      requires Allocator(disk, sb, bitmap[..], S) && b < sb.totalBlocks
      modifies this`disk, this`sb, bitmap
      ensures b < sb.dataStart ==> disk == old(disk) && sb == old(sb) && bitmap[..] == old(bitmap[..])
      ensures b >= sb.dataStart ==>
        && sb.freeBlocks == old(sb).freeBlocks as int + 1 && sb == old(sb).(freeBlocks := sb.freeBlocks)
        && (b in S ==> Allocator(disk, sb, bitmap[..], S - {b}))
        && (b !in S ==> forall T :: !Allocator(disk, sb, bitmap[..], T))
      ensures OnlyBitmap(old(disk), disk, sb)
    {
      hide BitsAre, ClearBits, OnlyBitmap, ClearBit;
      if b < sb.dataStart { BitmapRefl(disk, sb); return; }
      var i := b - sb.dataStart;
      var at := i / 8;
      ghost var bm := bitmap[..];
      ghost var bb := DropBit(disk, sb, bm, S, i);
      bitmap[at] := ClearBit(bitmap[at], i % 8);
      assert bitmap[..] == bm[at := bb];
      sb := sb.(freeBlocks := sb.freeBlocks + 1);
      FlushBitmapByte(at, bm);
    }

    // ---- block pointers of an inode ----

    method GetBlock(inode: Inode, fb: nat) returns (b: u32)
      requires inode.indirect < |disk|
      ensures b == if fb < FILE_BLOCKS then NodeOf(disk, inode).ptrs[fb] else 0
    {
      if fb < DIRECT { return inode.direct[fb]; }
      var k := fb - DIRECT;
      if k >= INDIRECT || inode.indirect == 0 { return 0; }
      var table := ReadBlock(inode.indirect);
      b := Words(table)[k];
    }

    /** Writes a block that is neither inode table nor bitmap. */
    method StoreBlock(b: nat, buf: Block, ghost S: set<nat>)
      requires Allocator(disk, sb, bitmap[..], S) && sb.dataStart <= b < |disk|
      modifies this`disk
      ensures disk == old(disk)[b := buf]
      ensures Allocator(disk, sb, bitmap[..], S)
    {
      ghost var d := disk;
      WriteBlock(b, buf);
      AllocatorFrame(d, disk, sb, bitmap[..], S, b);
    }

    /** Stores one entry of the indirect table. */
    method StoreIndirect(inode: Inode, k: nat, b: u32, ghost S: set<nat>)
      requires Allocator(disk, sb, bitmap[..], S)
      requires sb.dataStart <= inode.indirect < sb.totalBlocks && k < INDIRECT
      modifies this`disk
      ensures NodeOf(disk, inode).ptrs == NodeOf(old(disk), inode).ptrs[DIRECT + k := b]
      ensures |disk| == |old(disk)| && forall c :: 0 <= c < |disk| && c != inode.indirect ==> disk[c] == old(disk)[c]
      ensures Allocator(disk, sb, bitmap[..], S)
    {
      var table := ReadBlock(inode.indirect);
      StoreBlock(inode.indirect, Patch(table, 4 * k, WordBytes([b])), S);
      IndirectSet(old(disk), disk, inode, k, b);
    }

    /** Makes pointer fb of the inode refer to b, taking a block for the indirect table when
        there is none yet. */
    method SetBlock(inode: Inode, fb: nat, b: u32, ghost S: set<nat>)
      returns (inode': Inode, r: int, ghost S': set<nat>)
      requires Allocator(disk, sb, bitmap[..], S)
      requires inode.indirect != 0 ==> sb.dataStart <= inode.indirect < sb.totalBlocks
      modifies this`disk, this`sb, bitmap
      ensures r == 0 || r == -1
      ensures r == -1 <==> fb >= FILE_BLOCKS || (fb >= DIRECT && inode.indirect == 0 && old(sb).freeBlocks == 0)
      ensures r == -1 ==> inode' == inode
      ensures r == -1 || fb < DIRECT || inode.indirect != 0 ==>
        S' == S && sb == old(sb) && bitmap[..] == old(bitmap[..]) && inode'.indirect == inode.indirect
      ensures r == 0 && fb >= DIRECT && inode.indirect == 0 ==>
        && sb.dataStart <= inode'.indirect < sb.totalBlocks
        && inode'.indirect as nat !in S && S' == S + {inode'.indirect as nat}
        && sb == old(sb).(freeBlocks := old(sb).freeBlocks - 1)
      ensures r == 0 ==>
        && inode' == inode.(direct := inode'.direct, indirect := inode'.indirect)
        && NodeOf(disk, inode').ptrs == NodeOf(old(disk), inode).ptrs[fb := b]
      ensures r == -1 || fb < DIRECT ==> disk == old(disk)
      ensures OnlyBitmapAnd(old(disk), disk, sb, inode'.indirect)
      ensures Allocator(disk, sb, bitmap[..], S')
    {
      hide NodeOf, IndirectTable, BitsAre, Cached, ClearBits;
      inode', r, S' := inode, 0, S;
      if fb < DIRECT {
        DirectSet(disk, inode, fb, b);
        inode' := inode.(direct := inode.direct[fb := b]);
        return;
      }
      var k := fb - DIRECT;
      if k >= INDIRECT { r := -1; return; }
      if inode.indirect == 0 {
        var ind := AllocBlock(S);
        if ind == 0 { r := -1; return; }
        S' := S + {ind as nat};
        inode' := inode.(indirect := ind);
        StoreBlock(ind, Zeros(BLOCK), S');
        IndirectFresh(old(disk), disk, inode, ind);
      }
      StoreIndirect(inode', k, b, S');
    }

    // ---- file contents ----

    /** The bytes from `pos` to the end of its block, or the first `most` of them. */
    method ReadChunk(inode: Inode, pos: nat, most: nat) returns (chunk: seq<byte>)
      requires inode.indirect < |disk| && most > 0
      requires forall k :: 0 <= k < FILE_BLOCKS ==> NodeOf(disk, inode).ptrs[k] < |disk|
      ensures chunk == [] <==> pos / BLOCK >= FILE_BLOCKS || NodeOf(disk, inode).ptrs[pos / BLOCK] == 0
      ensures |chunk| <= most && (chunk == [] || |chunk| == most || (pos + |chunk|) % BLOCK == 0)
      ensures chunk != [] ==> pos + |chunk| <= (pos / BLOCK + 1) * BLOCK
      ensures forall i :: 0 <= i < |chunk| ==> chunk[i] == ByteAt(disk, NodeOf(disk, inode), pos + i)
    {
      hide NodeOf, ByteAt;
      var fb, at := pos / BLOCK, pos % BLOCK;
      var b := GetBlock(inode, fb);
      if b == 0 { return []; }
      var block := ReadBlock(b);
      var toCopy := BLOCK - at;
      if toCopy > most { toCopy := most; }
      chunk := block[at..at + toCopy];
      forall i | 0 <= i < toCopy ensures chunk[i] == ByteAt(disk, NodeOf(disk, inode), pos + i) {
        ByteInBlock(disk, NodeOf(disk, inode), fb, at + i);
      }
    }

    method Read(node: VfsNode, offset: u32, size: u32, buffer: array<byte>) returns (n: nat)
      requires Valid() && IsFile(node) && buffer != bitmap && size <= buffer.Length
      modifies buffer
      ensures var data := Tree()[node.ino as nat].data;
        && (offset >= |data| ==> n == 0)
        && (offset < |data| && (offset as int + size < WORD || |data| % BLOCK == 0) ==>
              n == if offset as int + size > |data| then |data| - offset else size)
        && (offset < |data| && offset as int + size >= WORD ==> n == Blocks(|data|) * BLOCK - offset)
        && n <= buffer.Length
        && (forall i :: 0 <= i < n && offset + i < |data| ==> buffer[i] == data[offset + i])
        && (forall i :: n <= i < buffer.Length ==> buffer[i] == old(buffer[i]))
    {
      hide Consistent, NodeOf, Nodes, TreeOf, InodeAt, ByteAt, Data, Mapped, Blocks;
      FileFacts(disk, sb, bitmap[..], owner, refs, node.ino as nat);
      NodeFacts(disk, sb, bitmap[..], owner, refs, node.ino as nat);
      var inode := ReadInode(node.ino);
      ghost var nd := NodeOf(disk, inode);
      DataBytes(disk, nd);
      BlocksRound(inode.size as nat);
      if offset >= inode.size { return 0; }
      var want := size;
      if (offset as int + size) % WORD > inode.size { want := inode.size - offset; }
      n := 0;
      while n < want
        invariant 0 <= n <= want && offset + n <= Blocks(inode.size) * BLOCK
        invariant n == 0 || n == want || (offset + n) % BLOCK == 0
        invariant forall i :: 0 <= i < n ==> buffer[i] == ByteAt(disk, nd, offset + i)
        invariant forall i :: n <= i < buffer.Length ==> buffer[i] == old(buffer[i])
      {
        ChunkPlace(nd, Blocks(inode.size), offset + n);
        var chunk := ReadChunk(inode, offset + n, want - n);
        if chunk == [] { break; }
        forall i | 0 <= i < |chunk| { buffer[n + i] := chunk[i]; }
        n := n + |chunk|;
      }
    }

    /** The block that byte range fb of the file is to be stored in, with its old contents: the
        block it has, or else a fresh one, which is then made known to the inode.  The result of
        SetBlock is ignored, so that a fresh block can be lost. */
    method PrepareBlock(cur: Inode, fb: nat, ghost S: set<nat>,
                        ghost d0: Disk, ghost owner0: Owner, ghost ino: nat, ghost own: Owner)
      returns (cur': Inode, b: u32, buf: Block, ghost S': set<nat>, ghost own': Owner, ghost lost: bool)
      requires Allocator(disk, sb, bitmap[..], S) && own.Keys <= S
      requires InProgress(d0, owner0, ino, disk, cur, own) && DataRegion(sb, owner0)
      modifies this`disk, this`sb, bitmap
      ensures Allocator(disk, sb, bitmap[..], S') && own'.Keys <= S'
      ensures sb == old(sb).(freeBlocks := sb.freeBlocks)
      ensures InProgress(d0, owner0, ino, disk, cur', own')
      ensures SameBlocksOf(old(disk), disk, NodeOf(old(disk), cur), 0)
      ensures cur' == cur.(direct := cur'.direct, indirect := cur'.indirect, blockCount := cur'.blockCount)
      ensures b != 0 ==>
        sb.dataStart <= b < |disk| && (b as nat in own' ==> own'[b as nat] == (ino, fb) && fb < FILE_BLOCKS)
      ensures HasBlock(NodeOf(old(disk), cur), fb) ==>
        && b != 0 && b == NodeOf(old(disk), cur).ptrs[fb] && buf == disk[b] && cur' == cur
        && disk == old(disk) && sb == old(sb) && own' == own
      ensures !HasBlock(NodeOf(old(disk), cur), fb) ==>
        && (b == 0 <==> old(sb).freeBlocks == 0)
        && buf == Zeros(BLOCK)
        && (b == 0 ==> cur' == cur && disk == old(disk) && sb == old(sb) && bitmap[..] == old(bitmap[..]))
        && (b == 0 ==> S' == S && own' == own)
        && (b != 0 ==> cur'.blockCount == (cur.blockCount + 1) % WORD)
      ensures lost <==> (
        && !HasBlock(NodeOf(old(disk), cur), fb) && old(sb).freeBlocks > 0
        && (fb >= FILE_BLOCKS || (fb >= DIRECT && cur.indirect == 0 && old(sb).freeBlocks == 1)))
      ensures b != 0 && !lost ==>
        && fb < FILE_BLOCKS && NodeOf(disk, cur').ptrs == NodeOf(old(disk), cur).ptrs[fb := b]
        && b as nat in own' && own'[b as nat] == (ino, fb)
      ensures !HasBlock(NodeOf(old(disk), cur), fb) && b != 0 && !lost ==>
        && (cur'.indirect != 0 <==> cur.indirect != 0 || fb >= DIRECT)
        && sb.freeBlocks == old(sb).freeBlocks - (if fb >= DIRECT && cur.indirect == 0 then 2 else 1)
      ensures S == own.Keys && !lost ==> S' == own'.Keys
      ensures S > own.Keys || lost ==> S' > own'.Keys
      ensures lost ==> NodeOf(disk, cur').ptrs == NodeOf(old(disk), cur).ptrs && cur'.indirect == cur.indirect
      ensures lost ==> own' == own && b as nat !in own && sb.freeBlocks == old(sb).freeBlocks - 1
    {
      hide NodeOf, InProgress, DataRegion, Allocator, SameBlocksOf;
      InUse(d0, owner0, ino, disk, cur, own, sb, bitmap[..], S);
      SameBlocksRefl(disk, NodeOf(disk, cur));
      cur', S', own', lost := cur, S, own, false;
      b := GetBlock(cur, fb);
      if b != 0 {
        buf := ReadBlock(b);
        return;
      }
      buf := Zeros(BLOCK);
      b := AllocBlock(S);
      if b == 0 { return; }
      S' := S + {b as nat};
      ghost var d1 := disk;
      var inode, r;
      inode, r, S' := SetBlock(cur, fb, b, S');
      cur' := inode.(blockCount := (inode.blockCount + 1) % WORD);
      RegionSame(old(sb), sb, owner0);
      RegionSame(old(sb), sb, own);
      if r == 0 {
        PtrsOnly(disk, inode, cur');
        own' := Extend(d0, owner0, sb, ino, old(disk), d1, disk, cur, cur', own, fb, b);
        InUse(d0, owner0, ino, disk, cur', own', sb, bitmap[..], S');
      } else {
        lost := true;
        TouchBitmap(d0, owner0, sb, ino, old(disk), disk, cur, own);
        Recount(d0, owner0, ino, disk, cur, cur', own);
      }
    }

    /** Stores the first bytes of `rest` at byte `pos` of the file, up to the end of the block. */
    method WriteChunk(cur: Inode, pos: nat, rest: seq<byte>, ghost S: set<nat>,
                      ghost d0: Disk, ghost owner0: Owner, ghost ino: nat, ghost own: Owner)
      returns (cur': Inode, count: nat, ghost S': set<nat>, ghost own': Owner, ghost lost: bool)
      requires Allocator(disk, sb, bitmap[..], S) && own.Keys <= S && rest != []
      requires InProgress(d0, owner0, ino, disk, cur, own) && DataRegion(sb, owner0)
      modifies this`disk, this`sb, bitmap
      ensures Allocator(disk, sb, bitmap[..], S') && own'.Keys <= S'
      ensures sb == old(sb).(freeBlocks := sb.freeBlocks)
      ensures InProgress(d0, owner0, ino, disk, cur', own')
      ensures cur' == cur.(direct := cur'.direct, indirect := cur'.indirect, blockCount := cur'.blockCount)
      ensures count == 0 <==> !HasBlock(NodeOf(old(disk), cur), pos / BLOCK) && old(sb).freeBlocks == 0
      ensures count == 0 ==> cur' == cur && disk == old(disk) && sb == old(sb) && S' == S && own' == own
      ensures count > 0 ==> count == if BLOCK - pos % BLOCK <= |rest| then BLOCK - pos % BLOCK else |rest|
      ensures HasBlock(NodeOf(old(disk), cur), pos / BLOCK) ==> cur' == cur && sb == old(sb)
      ensures !HasBlock(NodeOf(old(disk), cur), pos / BLOCK) && count > 0 ==>
        cur'.blockCount == (cur.blockCount + 1) % WORD
      ensures lost <==> (
        && !HasBlock(NodeOf(old(disk), cur), pos / BLOCK) && old(sb).freeBlocks > 0
        && (pos / BLOCK >= FILE_BLOCKS || (pos / BLOCK >= DIRECT && cur.indirect == 0 && old(sb).freeBlocks == 1)))
      ensures count > 0 && !lost ==>
        && pos / BLOCK < FILE_BLOCKS
        && OnePointer(NodeOf(old(disk), cur), NodeOf(disk, cur'), pos / BLOCK)
        && Stored(old(disk), NodeOf(old(disk), cur), disk, NodeOf(disk, cur'), pos, rest[..count])
      ensures !HasBlock(NodeOf(old(disk), cur), pos / BLOCK) && count > 0 && !lost ==>
        && (cur'.indirect != 0 <==> cur.indirect != 0 || pos / BLOCK >= DIRECT)
        && sb.freeBlocks == old(sb).freeBlocks - (if pos / BLOCK >= DIRECT && cur.indirect == 0 then 2 else 1)
      ensures lost ==>
        && NodeOf(disk, cur').ptrs == NodeOf(old(disk), cur).ptrs && cur'.indirect == cur.indirect
        && SameBlocksOf(old(disk), disk, NodeOf(old(disk), cur), 0) && sb.freeBlocks == old(sb).freeBlocks - 1
      ensures S == own.Keys && !lost ==> S' == own'.Keys
      ensures S > own.Keys || lost ==> S' > own'.Keys
    {
      hide NodeOf, InProgress, DataRegion, Allocator, SameBlocksOf, Stored;
      InUse(d0, owner0, ino, disk, cur, own, sb, bitmap[..], S);
      var fb, at := pos / BLOCK, pos % BLOCK;
      var b, buf;
      cur', b, buf, S', own', lost := PrepareBlock(cur, fb, S, d0, owner0, ino, own);
      count := 0;
      if b == 0 { return; }
      count := BLOCK - at;
      if count > |rest| { count := |rest|; }
      buf := Patch(buf, at, rest[..count]);
      ghost var d1 := disk;
      RegionSame(old(sb), sb, owner0);
      InUse(d0, owner0, ino, disk, cur', own', sb, bitmap[..], S');
      StoreBlock(b, buf, S');
      TouchData(d0, owner0, sb, ino, d1, disk, cur', own', b);
      if !lost {
        ghost var buf1 := if HasBlock(NodeOf(old(disk), cur), fb) then d1[b] else Zeros(BLOCK);
        StoreChunk(old(disk), d1, disk, NodeOf(old(disk), cur), NodeOf(disk, cur'), pos, b, buf1, rest[..count]);
      } else {
        SameBlocksTwice(old(disk), d1, disk, NodeOf(old(disk), cur), NodeOf(d1, cur'), b as nat);
      }
    }

    /** What becomes of a write of n bytes at `offset`. */
    ghost function PlanOf(node: VfsNode, offset: nat, n: nat): Plan
      requires Valid() && IsFile(node)
      reads this, bitmap, node
    {
      PlanWrite(Blocks(|Tree()[node.ino as nat].data|), Blocks(offset + n), sb.freeBlocks,
                HasTable(disk, node.ino as nat))
    }

    /** The loop of Write: stores the buffer chunk by chunk until it is done or space runs out. */
    method WriteBlocks(i0: Inode, offset: nat, buffer: seq<byte>, ghost ino: nat)
      returns (cur: Inode, n: nat, ghost S: set<nat>, ghost own: Owner, ghost lost: bool, ghost nb: nat)
      requires Allocator(disk, sb, bitmap[..], owner.Keys) && DataRegion(sb, owner)
      requires InProgress(disk, owner, ino, disk, i0, owner)
      requires Mapped(NodeOf(disk, i0), Blocks(i0.size), FILE_BLOCKS, FILE_BLOCKS) && offset <= i0.size
      modifies this`disk, this`sb, bitmap
      ensures 0 <= n <= |buffer|
      ensures cur == i0.(direct := cur.direct, indirect := cur.indirect, blockCount := cur.blockCount)
      ensures sb == old(sb).(freeBlocks := sb.freeBlocks)
      ensures Allocator(disk, sb, bitmap[..], S) && own.Keys <= S
      ensures InProgress(old(disk), owner, ino, disk, cur, own)
      ensures var plan := PlanWrite(Blocks(i0.size), Blocks(offset + |buffer|), old(sb).freeBlocks, i0.indirect != 0);
        && (lost <==> plan.Leak?)
        && (lost ==>
              && S > own.Keys && plan.blocks <= FILE_BLOCKS && offset <= i0.size <= plan.blocks * BLOCK < offset + n
              && n == (if plan.reach < Blocks(offset + |buffer|) then plan.reach * BLOCK - offset else |buffer|)
              && CutAt(NodeOf(disk, cur), plan.blocks)
              && Written(old(disk), NodeOf(old(disk), i0), i0.size, disk, NodeOf(disk, cur), offset, buffer,
                         plan.blocks * BLOCK))
        && (!lost ==>
              && n == (if plan.Short? then plan.blocks * BLOCK - offset else |buffer|)
              && S == own.Keys && nb <= FILE_BLOCKS
              && nb == (if Blocks(offset + n) > Blocks(i0.size) then Blocks(offset + n) else Blocks(i0.size))
              && Mapped(NodeOf(disk, cur), nb, FILE_BLOCKS, FILE_BLOCKS)
              && Written(old(disk), NodeOf(old(disk), i0), i0.size, disk, NodeOf(disk, cur), offset, buffer,
                offset + n))
    {
      hide NodeOf, InProgress, DataRegion, Allocator, SameBlocksOf, Stored, Written, OnTrack, PlanWrite, Mapped,
        Blocks, HasBlock, OnePointer, Behind, CutAt;
      ghost var d0, sb0 := disk, sb;
      ghost var n0 := NodeOf(d0, i0);
      cur, n, S, own, lost := i0, 0, owner.Keys, owner, false;
      nb := Blocks(i0.size);
      ghost var plan := PlanWrite(nb, Blocks(offset + |buffer|), sb.freeBlocks, cur.indirect != 0);
      OnTrackStart(d0, i0, offset, buffer, sb.freeBlocks);
      while n < |buffer|
        invariant 0 <= n <= |buffer|
        invariant n == 0 || n == |buffer| || (offset + n) % BLOCK == 0
        invariant cur == i0.(direct := cur.direct, indirect := cur.indirect, blockCount := cur.blockCount)
        invariant sb == sb0.(freeBlocks := sb.freeBlocks) && owner == old(owner)
        invariant Allocator(disk, sb, bitmap[..], S) && own.Keys <= S
        invariant InProgress(d0, owner, ino, disk, cur, own) && DataRegion(sb, owner)
        invariant lost ==> S > own.Keys && Behind(d0, n0, offset, buffer, plan, disk, cur, sb.freeBlocks, n, nb)
        invariant !lost ==> S == own.Keys && OnTrack(d0, n0, offset, buffer, plan, disk, cur, sb.freeBlocks, n, nb)
      {
        ghost var d, i, free, fb := disk, cur, sb.freeBlocks, (offset + n) / BLOCK;
        InUse(d0, owner, ino, d, i, own, sb, bitmap[..], S);
        if lost { BehindBlock(d0, n0, offset, buffer, plan, d, i, free, n, nb, fb); }
        else { OnTrackBlock(d0, n0, offset, buffer, plan, d, i, free, n, nb, fb); }
        var count;
        ghost var lostNow;
        cur, count, S, own, lostNow := WriteChunk(cur, offset + n, buffer[n..], S, d0, owner, ino, own);
        if count == 0 { break; }
        RegionSame(sb0, sb, owner);
        if lost {
          BehindStep(d0, n0, offset, buffer, plan, d, i, free, n, nb, disk, cur, count);
          nb := nb + 1;
        } else if lostNow {
          BehindStart(d0, n0, offset, buffer, plan, d, i, free, n, nb, disk, cur, count);
          nb := nb + 1;
        } else {
          nb := OnTrackStep(d0, n0, offset, buffer, plan, d, i, free, n, nb, fb, disk, cur, sb.freeBlocks, count);
        }
        lost := lost || lostNow;
        n := n + count;
      }
      if lost {
        BehindEnd(d0, n0, offset, buffer, plan, disk, cur, sb.freeBlocks, n, nb);
      } else {
        OnTrackEnd(d0, n0, offset, buffer, plan, disk, cur, sb.freeBlocks, n, nb);
      }
    }

    method Write(node: VfsNode, offset: u32, buffer: seq<byte>) returns (n: nat)
      requires Valid() && IsFile(node)
      requires offset <= |Tree()[node.ino as nat].data| && offset as int + |buffer| < WORD
      modifies this`disk, this`sb, this`owner, bitmap, node`size
      ensures old(PlanOf(node, offset, |buffer|)).Leak? <==> !Valid()
      ensures old(PlanOf(node, offset, |buffer|)).Leak? ==> forall o, r :: !Consistent(disk, sb, bitmap[..], o, r)
      ensures old(PlanOf(node, offset, |buffer|)).Leak? ==>
        && LostWrite(old(Tree()), old(PlanOf(node, offset, |buffer|)), offset as nat, buffer, n,
             disk, sb, bitmap[..], owner, refs, node.ino as nat)
        && node.size as int == offset + n
      ensures Valid() ==>
        && n == (match old(PlanOf(node, offset, |buffer|)) case Short(k) => k * BLOCK - offset case _ => |buffer|)
        && 0 <= n <= |buffer|
        && Tree() == old(Tree())[node.ino as nat :=
             File(Splice(old(Tree()[node.ino as nat].data), offset, buffer[..n]))]
        && IsFile(node) && node.size == |Tree()[node.ino as nat].data|
    {
      hide NodeOf, InProgress, DataRegion, Allocator, Written, InodeAt, Data, Consistent, Nodes, TreeOf, WithInode,
        Splice, Owned, Leaky, CutFile, CutAt, SameBlocksOf;
      ghost var d0, sb0, bm0 := disk, sb, bitmap[..];
      FileFacts(d0, sb0, bm0, owner, refs, node.ino as nat);
      AllocatorOf(d0, sb0, bm0, owner, refs);
      Begin(d0, owner, node.ino as nat);
      RegionOf(d0, sb0, bm0, owner);
      var inode := ReadInode(node.ino);
      var cur;
      ghost var S, own, lost, nb;
      ghost var plan := PlanOf(node, offset, |buffer|);
      cur, n, S, own, lost, nb := WriteBlocks(inode, offset, buffer, node.ino as nat);
      ghost var d, cur0 := disk, cur;
      if offset + n > cur.size { cur := cur.(size := offset + n); }
      node.size := cur.size;
      KeptOf(d0, owner, node.ino as nat, d, cur0, own);
      WriteInode(node.ino, cur);
      if lost {
        LostWriteDone(d0, sb0, bm0, owner, refs, d, sb, bitmap[..], S, node.ino as nat, cur0, own, disk,
          plan, offset as nat, buffer, n);
      } else {
        WriteDone(d0, sb0, bm0, owner, refs, d, sb, bitmap[..], node.ino as nat, cur0, own, disk,
          offset as nat, buffer, n, nb);
      }
      owner := own;
    }

    /** The loop of Truncate: gives back the blocks in [first, last). */
    method FreeBlocks(i0: Inode, first: nat, last: nat, ghost ino: nat) returns (cur: Inode, ghost own: Owner)
      requires Allocator(disk, sb, bitmap[..], owner.Keys) && DataRegion(sb, owner)
      requires InProgress(disk, owner, ino, disk, i0, owner)
      requires first <= last <= FILE_BLOCKS && Mapped(NodeOf(disk, i0), last, FILE_BLOCKS, FILE_BLOCKS)
      modifies this`disk, this`sb, bitmap
      ensures cur == i0.(direct := cur.direct, blockCount := cur.blockCount)
      ensures sb == old(sb).(freeBlocks := sb.freeBlocks) && sb.freeBlocks == old(sb).freeBlocks as int + (last - first)
      ensures Allocator(disk, sb, bitmap[..], own.Keys)
      ensures InProgress(old(disk), owner, ino, disk, cur, own)
      ensures Cutting(old(disk), NodeOf(old(disk), i0), disk, cur, first, last, last)
    {
      hide NodeOf, InProgress, DataRegion, Allocator, SameBlocksOf, Cutting;
      ghost var d0, sb0 := disk, sb;
      ghost var n0 := NodeOf(d0, i0);
      cur, own := i0, owner;
      CuttingStart(d0, i0, first, last);
      var b := first;
      while b < last
        invariant first <= b <= last
        invariant cur == i0.(direct := cur.direct, blockCount := cur.blockCount)
        invariant sb == sb0.(freeBlocks := sb.freeBlocks) && sb.freeBlocks == sb0.freeBlocks as int + (b - first)
        invariant Allocator(disk, sb, bitmap[..], own.Keys) && owner == old(owner)
        invariant InProgress(d0, owner, ino, disk, cur, own) && DataRegion(sb, owner)
        invariant Cutting(d0, n0, disk, cur, first, b, last)
      {
        ghost var d, i, sb1 := disk, cur, sb;
        InUse(d0, owner, ino, d, i, own, sb, bitmap[..], own.Keys);
        CuttingBlock(d0, n0, d, i, first, b, last);
        var block := GetBlock(cur, b);
        if block != 0 {
          FreeBlock(block, own.Keys);
          ghost var d1, S1 := disk, own.Keys - {block as nat};
          var r;
          ghost var S2;
          cur, r, S2 := SetBlock(cur, b, 0, S1);
          cur := cur.(blockCount := cur.blockCount - 1);
          RegionSame(sb0, sb, owner);
          RegionSame(sb1, sb, own);
          PtrsOnly(disk, cur.(blockCount := i.blockCount), cur);
          own := Shrink(d0, owner, sb, ino, d, d1, disk, i, cur, own, b);
          CuttingStep(d0, n0, d, i, first, b, last, disk, cur);
        }
        b := b + 1;
      }
    }

    /** Cuts a file, or gives it a larger size without giving it blocks. */
    method Truncate(node: VfsNode, size: u32) returns (r: int)
      requires Valid() && IsFile(node)
      modifies this`disk, this`sb, this`owner, bitmap, node`size
      ensures r == 0 && node.size == size
      ensures Valid() <==> Blocks(size) <= Blocks(old(|Tree()[node.ino as nat].data|))
      ensures !Valid() ==> forall o, r :: !Consistent(disk, sb, bitmap[..], o, r)
      ensures Valid() ==>
        && IsFile(node) && Tree() == old(Tree())[node.ino as nat := Tree()[node.ino as nat]]
        && |Tree()[node.ino as nat].data| == size
      ensures size <= old(|Tree()[node.ino as nat].data|) ==>
        && Valid() && Tree()[node.ino as nat].data == old(Tree()[node.ino as nat].data)[..size]
        && sb.freeBlocks == old(sb).freeBlocks as int + Blocks(old(|Tree()[node.ino as nat].data|)) - Blocks(size)
      ensures Valid() && size > old(|Tree()[node.ino as nat].data|) ==>
        old(Tree()[node.ino as nat].data) <= Tree()[node.ino as nat].data && sb == old(sb)
    {
      hide NodeOf, InProgress, DataRegion, Allocator, InodeAt, Data, Consistent, Nodes, TreeOf, WithInode, Owned,
        Cutting;
      ghost var d0, sb0, bm0 := disk, sb, bitmap[..];
      FileFacts(d0, sb0, bm0, owner, refs, node.ino as nat);
      AllocatorOf(d0, sb0, bm0, owner, refs);
      Begin(d0, owner, node.ino as nat);
      RegionOf(d0, sb0, bm0, owner);
      var inode := ReadInode(node.ino);
      var cur := inode;
      ghost var own := owner;
      if size < inode.size {
        cur, own := FreeBlocks(inode, (size + BLOCK - 1) / BLOCK, (inode.size + BLOCK - 1) / BLOCK, node.ino as nat);
      }
      ghost var d, cur0 := disk, cur;
      cur := cur.(size := size);
      node.size := size;
      if size < inode.size { KeptOf(d0, owner, node.ino as nat, d, cur0, own); }
      WriteInode(node.ino, cur);
      if size < inode.size {
        CuttingEnd(d0, NodeOf(d0, inode), d, cur0, Blocks(inode.size), size);
        Recount(d0, owner, node.ino as nat, d, cur0, cur, own);
        FinishFile(d0, sb0, bm0, owner, refs, d, sb, bitmap[..], node.ino as nat, cur, own, disk);
        BlocksGrow(size as nat, inode.size as nat);
        owner := own;
      } else {
        Grown(d0, sb0, bm0, owner, refs, node.ino as nat, size, disk);
      }
      r := 0;
    }

    // ---- directories ----

    /** The node stands for an inode in use, with its type and size. */
    ghost predicate IsNode(node: VfsNode)
      requires Valid()
      reads this, bitmap, node
    {
      && node.ino as nat in Tree() && node.typ == TypeOf(Tree()[node.ino as nat])
      && match Tree()[node.ino as nat]
         case File(data) => node.size == |data|
         case Dir(entries) => node.size == DIRENT_BYTES * |entries|
         case Link(_) => true
    }

    /** There is no node for a number beyond those the superblock announces. */
    method MakeNode(ino: u32) returns (node: VfsNode?)
      requires sb.tableStart == 1 && InodeBlock(ino as nat) < |disk|
      ensures node == null <==> ino >= sb.totalInodes
      ensures node != null ==>
        && fresh(node) && node.ino == ino
        && node.typ == VfsType(InodeAt(disk, ino as nat).typ as nat) && node.size == InodeAt(disk, ino as nat).size
        && (Valid() && ino as nat in Tree() ==> IsNode(node))
    {
      hide Consistent, TreeOf, InodeAt, VfsType, TypeOf;
      if ino >= sb.totalInodes { return null; }
      var inode := ReadInode(ino);
      node := new VfsNode(ino, VfsType(inode.typ), inode.size);
      if Valid() && ino as nat in Tree() { RecordFacts(disk, sb, bitmap[..], owner, refs, ino as nat); }
    }

    method Finddir(node: VfsNode, name: seq<byte>) returns (child: VfsNode?)
      requires Valid() && node.ino as nat in Tree() && NoNul(name)
      ensures child != null ==> Tree()[node.ino as nat].Dir? && fresh(child) && IsNode(child) && child.ino != ROOT
      ensures Tree()[node.ino as nat].Dir? ==>
        var es := Tree()[node.ino as nat].entries;
        if Find(es, name) == |es| then child == null else child != null && child.ino == es[Find(es, name)].ino
    {
      hide Consistent, TreeOf, InodeAt, NodeOf, Nodes, Entries, EntryOk, Mapped, VfsType, TypeOf, Distinct, Matches,
        DirentFrom, NameOf, Blocks;
      RecordFacts(disk, sb, bitmap[..], owner, refs, node.ino as nat);
      var inode := ReadInode(node.ino);
      if inode.typ != TYPE_DIR { return null; }
      DirFacts(disk, sb, bitmap[..], owner, refs, node.ino as nat);
      ghost var n, es, k := NodeOf(disk, inode), Entries(disk, NodeOf(disk, inode)), 0;
      var offset := 0;
      while offset < inode.size
        invariant offset == DIRENT_BYTES * k && k <= |es|
        invariant FindFrom(es, name, 0) == FindFrom(es, name, k)
        decreases |es| - k
      {
        SlotFacts(disk, Nodes(disk), refs, node.ino as nat, n, k, name);
        var b := GetBlock(inode, offset / BLOCK);
        if b == 0 { return null; }
        var block := ReadBlock(b);
        var at := offset % BLOCK;
        var de := DirentFrom(block[at..at + DIRENT_BYTES]);
        if Matches(de, name) {
          EntryTarget(disk, sb, bitmap[..], owner, refs, node.ino as nat, k, es[k]);
          NodeFacts(disk, sb, bitmap[..], owner, refs, de.ino as nat);
          child := MakeNode(de.ino);
          return;
        }
        k := k + 1;
        offset := offset + DIRENT_BYTES;
      }
      child := null;
    }

    /** The live entry number `index` of the directory, in creation order. */
    method Readdir(node: VfsNode, index: nat) returns (r: int, out: Entry)
      requires Valid() && node.ino as nat in Tree()
      ensures r == 0 || r == -1
      ensures !Tree()[node.ino as nat].Dir? ==> r == -1
      ensures Tree()[node.ino as nat].Dir? ==>
        var live := LiveOf(Tree()[node.ino as nat].entries);
        (r == 0 <==> index < |live|) && (r == 0 ==> out == live[index])
    {
      hide Consistent, TreeOf, InodeAt, NodeOf, Nodes, Entries, EntryOk, Mapped, VfsType, TypeOf, Distinct, Matches,
        LiveOf, DirentFrom, NameOf, Blocks;
      out := Gone;
      RecordFacts(disk, sb, bitmap[..], owner, refs, node.ino as nat);
      var inode := ReadInode(node.ino);
      if inode.typ != TYPE_DIR { return -1, out; }
      DirFacts(disk, sb, bitmap[..], owner, refs, node.ino as nat);
      ghost var n, es, k := NodeOf(disk, inode), Entries(disk, NodeOf(disk, inode)), 0;
      var entryIdx, offset := 0, 0;
      LiveOfNone(es);
      while offset < inode.size
        invariant offset == DIRENT_BYTES * k && k <= |es|
        invariant entryIdx == |LiveOf(es[..k])| <= index
        decreases |es| - k
      {
        SlotFacts(disk, Nodes(disk), refs, node.ino as nat, n, k, []);
        LiveOfStep(es, k);
        LiveOfPrefix(es, k + 1);
        var b := GetBlock(inode, offset / BLOCK);
        if b == 0 { return -1, out; }
        var block := ReadBlock(b);
        var at := offset % BLOCK;
        var de := DirentFrom(block[at..at + DIRENT_BYTES]);
        if de.ino != 0 {
          if entryIdx == index {
            out := Live(NameOf(de), de.ino, de.typ);
            return 0, out;
          }
          entryIdx := entryIdx + 1;
        }
        k := k + 1;
        offset := offset + DIRENT_BYTES;
      }
      assert es[..k] == es;
      r := -1;
    }

    /** A fresh inode that no entry refers to and that has no data. */
    ghost predicate IsOrphan(ino: nat)
      requires Valid()
      reads this, bitmap
    {
      && ino in Tree() && ino < USABLE_INODES && ino != 0 && ino != ROOT
      && Unreferenced(disk, Nodes(disk), ino) && Hollow(Nodes(disk)[ino])
    }

    ghost predicate HasRoom(parent: VfsNode, name: seq<byte>)
      requires Valid()
      reads this, bitmap, parent
    {
      SlotFor(Tree(), parent.ino as nat, name)
    }

    /** Appends an entry for a fresh inode to the directory, or gives the inode back when there is
        no block for the directory's first entries. */
    method AddDirent(parent: VfsNode, ino: u32, typ: byte, name: seq<byte>) returns (r: int)
      requires Valid() && HasRoom(parent, name) && IsOrphan(ino as nat) && ino != parent.ino
      requires InodeAt(disk, ino as nat).typ == typ as u32 && typ != 0
      modifies this`disk, this`sb, this`owner, this`refs, bitmap, parent`size
      ensures |disk| > TABLE_BLOCKS && (Valid() <==> r == -1 || NameFree(old(Tree()), parent.ino as nat, name))
      ensures !Valid() ==> forall o, r' :: !Consistent(disk, sb, bitmap[..], o, r')
      ensures r == -1 <==> EntriesIn(old(Tree()), parent.ino as nat) == [] && old(sb).freeBlocks == 0
      ensures (r == -1 || r == 0) && (r == -1 ==> parent.size == old(parent.size))
      ensures r == -1 ==>
        && TreeOf(disk) == old(Tree()) - {ino as nat}
        && sb == old(sb).(freeInodes := sb.freeInodes) && sb.freeInodes == old(sb).freeInodes as int + 1
      ensures r == 0 ==>
        && TreeOf(disk) == old(Tree())[parent.ino as nat :=
             Dir(old(Tree()[parent.ino as nat].entries) + [Live(name, ino, typ)])]
        && parent.size == DIRENT_BYTES * |EntriesIn(TreeOf(disk), parent.ino as nat)|
    {
      hide NodeOf, InProgress, DataRegion, Allocator, InodeAt, Consistent, Nodes, TreeOf, WithInode, Owned, Entries,
        SameBlocksOf, Unreferenced, Hollow, EntryOk, MakeDirent, NameOf, Distinct, Mapped, NoNul, Find;
      ghost var d0, sb0, bm0 := disk, sb, bitmap[..];
      DirFacts(d0, sb0, bm0, owner, refs, parent.ino as nat);
      NodeFacts(d0, sb0, bm0, owner, refs, ino as nat);
      AllocatorOf(d0, sb0, bm0, owner, refs);
      Begin(d0, owner, parent.ino as nat);
      RegionOf(d0, sb0, bm0, owner);
      var parentInode := ReadInode(parent.ino);
      ghost var n := NodeOf(d0, parentInode);
      var de := MakeDirent(ino, typ, name);
      MadeEntry(ino, typ, name);
      var offset := parentInode.size;
      SlotOffset(n, Slots(n));
      var cur, b, block;
      ghost var S, own, lost;
      cur, b, block, S, own, lost :=
          PrepareBlock(parentInode, offset / BLOCK, owner.Keys, d0, owner, parent.ino as nat, owner);
      FirstSlot(d0, n);
      if b == 0 {
        FreeOrphan(ino);
        return -1;
      }
      StoreDirent(parent, cur, b, block, offset % BLOCK, de, Slots(n), d0, sb0, bm0, own);
      r := 0;
    }

    /** Stores the entry in slot k of the directory's block, and then the directory's record. */
    method StoreDirent(parent: VfsNode, inode: Inode, b: u32, buf: Block, at: nat, de: Dirent, ghost k: nat,
                       ghost d0: Disk, ghost sb0: Superblock, ghost bm0: seq<byte>, ghost own: Owner)
      requires Consistent(d0, sb0, bm0, owner, refs) && Enterable(d0, parent.ino as nat, EntryOf(de))
      requires InProgress(d0, owner, parent.ino as nat, disk, inode, own) && sb == sb0.(freeBlocks := sb.freeBlocks)
      requires Allocator(disk, sb, bitmap[..], own.Keys) && sb.dataStart <= b
      requires b as nat in own && own[b as nat] == (parent.ino as nat, 0)
      requires Prepared(d0, parent.ino as nat, disk, inode, b, buf)
      requires k == |EntriesIn(TreeOf(d0), parent.ino as nat)| && at == k * DIRENT_BYTES
      modifies this`disk, this`owner, this`refs, parent`size
      ensures |disk| > TABLE_BLOCKS && (Valid() <==> NameFree(TreeOf(d0), parent.ino as nat, EntryOf(de).name))
      ensures !Valid() ==> forall o, r :: !Consistent(disk, sb, bitmap[..], o, r)
      ensures TreeOf(disk) == TreeOf(d0)[parent.ino as nat :=
                Dir(EntriesIn(TreeOf(d0), parent.ino as nat) + [EntryOf(de)])]
      ensures parent.size as int == inode.size + DIRENT_BYTES
    {
      hide NodeOf, InProgress, DataRegion, Allocator, InodeAt, Consistent, Nodes, TreeOf, WithInode, Owned, WithDirent,
        DirentBytes, Find, Unreferenced, NoNul;
      ghost var d1 := disk;
      PatchedSlot(buf, k, de);
      var block := Patch(buf, at, DirentBytes(de));
      StoreBlock(b, block, own.Keys);
      var cur := inode.(size := inode.size + DIRENT_BYTES);
      KeptOf(d0, owner, parent.ino as nat, d1, inode, own);
      WriteInode(parent.ino, cur);
      parent.size := cur.size;
      DirentDone(d0, sb0, bm0, owner, refs, parent.ino as nat, d1, sb, bitmap[..], inode, own, b, buf, de, disk);
      refs := refs[EntryOf(de).ino := (parent.ino as nat, k)];
      owner := own;
    }

    /** Gives back an inode that has no data and that no entry refers to. */
    method FreeOrphan(ino: u32)
      requires Valid() && IsOrphan(ino as nat)
      modifies this`disk, this`sb
      ensures Valid() && Tree() == old(Tree()) - {ino as nat}
      ensures sb == old(sb).(freeInodes := sb.freeInodes) && sb.freeInodes == old(sb).freeInodes as int + 1
    {
      hide NodeOf, InProgress, DataRegion, Allocator, InodeAt, Nodes, TreeOf, WithInode, Owned, Entries,
        Unreferenced, Hollow, Dirs, Shape;
      NodeFacts(disk, sb, bitmap[..], owner, refs, ino as nat);
      ghost var d0, sb0 := disk, sb;
      FreeInode(ino);
      EmptyIsHollow();
      ReplaceHollow(d0, sb0, bitmap[..], owner, refs, ino as nat, EMPTY_INODE, disk, sb);
    }

    /** Some inode whose record lies in the table is free. */
    ghost predicate InodeFree()
      requires Valid()
      reads this, bitmap
    {
      exists i: nat :: 1 <= i < USABLE_INODES && i !in Tree()
    }

    /** Takes the lowest free inode and gives it a first record. */
    method NewInode(rec: Inode) returns (ino: u32)
      requires Valid() && InodeFree() && HollowRecord(rec) && rec.typ != TYPE_FREE
      modifies this`disk, this`sb
      ensures Valid() && 1 <= ino < USABLE_INODES && ino as nat !in old(Tree())
      ensures forall i: nat :: 1 <= i < ino ==> i in old(Tree())
      ensures Tree() == old(Tree())[ino as nat := EmptyObj(rec)]
      ensures IsOrphan(ino as nat) && InodeAt(disk, ino as nat) == rec
      ensures sb == old(sb).(freeInodes := sb.freeInodes) && sb.freeInodes == old(sb).freeInodes as int - 1
    {
      hide NodeOf, InProgress, DataRegion, Allocator, InodeAt, Nodes, TreeOf, WithInode, Owned, Entries,
        Unreferenced, Hollow, Dirs, Shape, HollowRecord, EmptyObj;
      ghost var d0, sb0 := disk, sb;
      FreeInodes(d0, sb0, bitmap[..], owner, refs);
      FreeRecords(d0, sb0, bitmap[..], owner, refs);
      ino := AllocInode();
      ghost var d1, sb1 := disk, sb;
      LinkedIsHollow();
      TakenInode(d0, sb0, bitmap[..], owner, refs, ino as nat);
      ReplaceHollow(d0, sb0, bitmap[..], owner, refs, ino as nat, EMPTY_INODE.(links := 1), d1, sb0);
      WriteInode(ino, rec);
      ReplaceHollow(d1, sb0, bitmap[..], owner, refs, ino as nat, rec, disk, sb);
      InodeUpdate(d1, ino as nat, rec, ino as nat);
    }

    method Create(parent: VfsNode, name: seq<byte>, typ: nat) returns (r: int, ghost ino: nat)
      requires Valid() && HasRoom(parent, name) && InodeFree()
      modifies this`disk, this`sb, this`owner, this`refs, bitmap, parent`size
      ensures |disk| > TABLE_BLOCKS && (Valid() <==> r == -1 || NameFree(old(Tree()), parent.ino as nat, name))
      ensures !Valid() ==> forall o, r' :: !Consistent(disk, sb, bitmap[..], o, r')
      ensures (r == 0 || r == -1) && (r == -1 ==> parent.size == old(parent.size))
      ensures r == -1 <==> EntriesIn(old(Tree()), parent.ino as nat) == [] && old(sb).freeBlocks == 0
      ensures r == -1 ==> TreeOf(disk) == old(Tree()) && sb == old(sb)
      ensures r == 0 ==>
        && IsLowestFree(old(Tree()), ino)
        && TreeOf(disk) == AddObj(old(Tree()), parent.ino as nat, name, ino, NewObj(typ))
      ensures Valid() && NoOrphans(old(Tree())) ==> NoOrphans(Tree())
      ensures r == 0 ==> parent.size == DIRENT_BYTES * |EntriesIn(TreeOf(disk), parent.ino as nat)|
    {
      hide NodeOf, Allocator, InodeAt, Nodes, Consistent, TreeOf, Entries, Unreferenced, Hollow, HollowRecord,
        EmptyObj, Find, AddObj, IsLowestFree, NewObj, Bit, NoOrphans, StepTree, Sound, Possible;
      var inodeType := if Bit(typ, 1) then TYPE_DIR else if Bit(typ, 2) then TYPE_SYMLINK else TYPE_FILE;
      var rec := EMPTY_INODE.(typ := inodeType, links := 1);
      NewIsHollow(typ, inodeType);
      ghost var t0, d0, sb0, bm0, owner0, refs0 := Tree(), disk, sb, bitmap[..], owner, refs;
      var i := NewInode(rec);
      ino := i as nat;
      StillRoom(t0, parent.ino as nat, ino, NewObj(typ));
      r := AddDirent(parent, i, inodeType, name);
      AddedObj(t0, parent.ino as nat, name, ino, NewObj(typ), inodeType as nat);
      if NameFree(t0, parent.ino as nat, name) {
        EnterKeeps(d0, sb0, bm0, owner0, refs0, parent.ino as nat, name, ino, NewObj(typ));
      }
    }

    method Symlink(parent: VfsNode, name: seq<byte>, target: seq<byte>) returns (r: int, ghost ino: nat)
      requires Valid() && HasRoom(parent, name) && InodeFree() && NoNul(target) && |target| < WORD
      modifies this`disk, this`sb, this`owner, this`refs, bitmap, parent`size
      ensures |disk| > TABLE_BLOCKS && (Valid() <==> r == -1 || NameFree(old(Tree()), parent.ino as nat, name))
      ensures !Valid() ==> forall o, r' :: !Consistent(disk, sb, bitmap[..], o, r')
      ensures (r == 0 || r == -1) && (r == -1 ==> parent.size == old(parent.size))
      ensures r == -1 <==> EntriesIn(old(Tree()), parent.ino as nat) == [] && old(sb).freeBlocks == 0
      ensures r == -1 ==> TreeOf(disk) == old(Tree()) && sb == old(sb)
      ensures r == 0 ==>
        && IsLowestFree(old(Tree()), ino)
        && TreeOf(disk) == AddObj(old(Tree()), parent.ino as nat, name, ino,
                            Link(if |target| <= 255 then target else target[..255]))
      ensures Valid() && NoOrphans(old(Tree())) ==> NoOrphans(Tree())
      ensures r == 0 ==> parent.size == DIRENT_BYTES * |EntriesIn(TreeOf(disk), parent.ino as nat)|
    {
      hide NodeOf, Allocator, InodeAt, Nodes, Consistent, TreeOf, Entries, Unreferenced, Hollow, HollowRecord,
        EmptyObj, Find, Strncpy, AddObj, IsLowestFree, NoOrphans, StepTree, Sound, Possible;
      var rec := EMPTY_INODE.(typ := TYPE_SYMLINK, links := 1, size := |target|,
                              target := Strncpy(Zeros(256), target, 255));
      LinkIsHollow(target, rec);
      ghost var t0, d0, sb0, bm0, owner0, refs0 := Tree(), disk, sb, bitmap[..], owner, refs;
      var i := NewInode(rec);
      ino := i as nat;
      StillRoom(t0, parent.ino as nat, ino, EmptyObj(rec));
      r := AddDirent(parent, i, TYPE_SYMLINK, name);
      AddedObj(t0, parent.ino as nat, name, ino, Link(if |target| <= 255 then target else target[..255]), 3);
      if NameFree(t0, parent.ino as nat, name) {
        EnterKeeps(d0, sb0, bm0, owner0, refs0, parent.ino as nat, name, ino,
          Link(if |target| <= 255 then target else target[..255]));
      }
    }

    method Readlink(node: VfsNode, buf: array<byte>, bufsiz: nat) returns (n: int)
      requires Valid() && node.ino as nat in Tree() && bufsiz <= buf.Length && buf != bitmap
      modifies buf
      ensures n == -1 <==> !Tree()[node.ino as nat].Link?
      ensures n != -1 ==> var target := Tree()[node.ino as nat].target;
        && n == (if |target| <= bufsiz then |target| else bufsiz)
        && buf[..n] == target[..n]
      ensures forall i :: 0 <= i < buf.Length && n <= i ==> buf[i] == old(buf[i])
    {
      hide Consistent, TreeOf, InodeAt, CString;
      RecordFacts(disk, sb, bitmap[..], owner, refs, node.ino as nat);
      var inode := ReadInode(node.ino);
      if inode.typ != TYPE_SYMLINK { return -1; }
      CStringPrefix(inode.target);
      var len := |CString(inode.target)|;
      if len > bufsiz { len := bufsiz; }
      forall i | 0 <= i < len { buf[i] := inode.target[i]; }
      n := len;
    }

    /** Gives back all the blocks that inode t refers to. */
    method FreeAll(target: Inode, ghost t: nat)
      requires |disk| > TABLE_BLOCKS && Allocator(disk, sb, bitmap[..], owner.Keys) && Owned(Nodes(disk), owner)
      requires t < USABLE_INODES && NodeOf(disk, target) == Nodes(disk)[t] && target.indirect < |disk|
      modifies this`disk, this`sb, bitmap
      ensures sb == old(sb).(freeBlocks := sb.freeBlocks)
      ensures OnlyBitmap(old(disk), disk, sb)
      ensures Allocator(disk, sb, bitmap[..], Left(owner, t, SLOTS))
    {
      hide NodeOf, Nodes, Owned, Allocator, Left, OnlyBitmap;
      ghost var d0, sb0, v := disk, sb, Nodes(disk);
      TargetSlots(d0, target);
      LeftStart(owner, t);
      BitmapRefl(d0, sb);
      var b := 0;
      while b < DIRECT
        invariant b <= DIRECT && owner == old(owner) && sb == sb0.(freeBlocks := sb.freeBlocks)
        invariant OnlyBitmap(d0, disk, sb0) && Allocator(disk, sb, bitmap[..], Left(owner, t, b))
      {
        LeftStep(v, owner, t, b);
        ghost var d1 := disk;
        if target.direct[b] != 0 {
          InData(d1, sb, bitmap[..], Left(owner, t, b));
          FreeBlock(target.direct[b] as nat, Left(owner, t, b));
          BitmapTrans(d0, d1, disk, sb0, sb);
        }
        b := b + 1;
      }
      if target.indirect != 0 {
        LeftStep(v, owner, t, FILE_BLOCKS);
        OwnedIn(v, owner, t, FILE_BLOCKS, d0, old(sb), old(bitmap[..]));
        BitmapAt(d0, disk, sb0, target.indirect as nat);
        var table := Words(disk[target.indirect]);
        var k := 0;
        while k < INDIRECT
          invariant k <= INDIRECT && owner == old(owner) && sb == sb0.(freeBlocks := sb.freeBlocks)
          invariant OnlyBitmap(d0, disk, sb0) && Allocator(disk, sb, bitmap[..], Left(owner, t, DIRECT + k))
        {
          LeftStep(v, owner, t, DIRECT + k);
          ghost var d1 := disk;
          if table[k] != 0 {
            InData(d1, sb, bitmap[..], Left(owner, t, DIRECT + k));
            FreeBlock(table[k] as nat, Left(owner, t, DIRECT + k));
            BitmapTrans(d0, d1, disk, sb0, sb);
          }
          k := k + 1;
        }
        ghost var d1 := disk;
        InData(d1, sb, bitmap[..], Left(owner, t, FILE_BLOCKS));
        FreeBlock(target.indirect as nat, Left(owner, t, FILE_BLOCKS));
        BitmapTrans(d0, d1, disk, sb0, sb);
      } else {
        LeftSkip(v, owner, t, DIRECT, SLOTS);
      }
      BitmapSb(d0, disk, sb0, sb);
    }

    /** Unlink has found the entry: gives back the inode it names, with all its blocks, and
        leaves a tombstone in the directory block. */
    method RemoveSlot(b: u32, block: Block, at: nat, de: Dirent, ghost p: nat, ghost k: nat)
      requires Valid() && p in Tree() && Tree()[p].Dir? && k < |Tree()[p].entries|
      requires Tree()[p].entries[k] == EntryOf(de)
      requires de.ino != 0 && EntryOk(Nodes(disk), refs, p, k, EntryOf(de))
      requires p < USABLE_INODES && b == NodeOf(disk, InodeAt(disk, p)).ptrs[0] && b < |disk| && block == disk[b]
      requires k < DIR_SLOTS && at == k * DIRENT_BYTES && de == DirentAt(block, k)
      modifies this`disk, this`sb, this`owner, bitmap
      ensures Valid() && Tree() == RemoveObj(old(Tree()), p, k)
    {
      hide Consistent, TreeOf, InodeAt, NodeOf, Nodes, EntryOk, Allocator, Owned, Left, OnlyBitmap, WithInode,
        WithDirent, Without, RemoveObj, DirentAt;
      ghost var d0, sb0, bm0 := disk, sb, bitmap[..];
      AllocatorOf(d0, sb0, bm0, owner, refs);
      EntryTarget(disk, sb, bitmap[..], owner, refs, p, k, EntryOf(de));
      NodeFacts(d0, sb0, bm0, owner, refs, de.ino as nat);
      var target := ReadInode(de.ino);
      FreeAll(target, de.ino as nat);
      ghost var d, sb1 := disk, sb;
      InodeCount(d0, sb0, bm0, owner, refs, de.ino as nat);
      BitmapAt(d0, d, sb, 0);
      FreeInode(de.ino);
      PatchedEntry(block, k, de);
      WriteBlock(b, Patch(block, at, DirentBytes(de.(ino := 0))));
      UnlinkDone(d0, sb0, bm0, owner, refs, p, k, b as nat, de.ino as nat, d, sb1, bitmap[..], disk, sb);
      owner := Without(owner, de.ino as nat);
    }

    method Unlink(parent: VfsNode, name: seq<byte>) returns (r: int)
      requires Valid() && parent.ino as nat in Tree() && Tree()[parent.ino as nat].Dir? && NoNul(name)
      modifies this`disk, this`sb, this`owner, bitmap
      ensures Valid() && (r == 0 || r == -1)
      ensures var es := EntriesIn(old(Tree()), parent.ino as nat);
        && (r == 0 <==> Find(es, name) < |es|)
        && Tree() == RemoveObj(old(Tree()), parent.ino as nat, Find(es, name))
      ensures NoOrphans(old(Tree())) ==> (NoOrphans(Tree()) <==> Spares(old(Tree()), Leave(parent.ino as nat, name)))
      ensures r == -1 ==> sb == old(sb) && disk == old(disk)
    {
      hide Consistent, TreeOf, InodeAt, NodeOf, Nodes, Entries, EntryOk, Mapped, Distinct, Matches, RemoveObj, NoNul,
        NoOrphans, Spares, Sound, Possible, DirentFrom, NameOf, Blocks;
      ghost var d0, sb0, bm0 := disk, sb, bitmap[..];
      ghost var p := parent.ino as nat;
      DirFacts(d0, sb0, bm0, owner, refs, p);
      LeaveKeeps(d0, sb0, bm0, owner, refs, p, name);
      var parentInode := ReadInode(parent.ino);
      ghost var n, es, k := NodeOf(disk, parentInode), Entries(disk, NodeOf(disk, parentInode)), 0;
      var offset := 0;
      while offset < parentInode.size
        invariant offset == DIRENT_BYTES * k && k <= |es|
        invariant FindFrom(es, name, 0) == FindFrom(es, name, k)
        invariant disk == d0 && sb == sb0 && bitmap[..] == bm0 && owner == old(owner)
        decreases |es| - k
      {
        SlotFacts(disk, Nodes(disk), refs, p, n, k, name);
        var b := GetBlock(parentInode, offset / BLOCK);
        if b == 0 { assert false; return -1; }
        var block := ReadBlock(b);
        var at := offset % BLOCK;
        var de := DirentFrom(block[at..at + DIRENT_BYTES]);
        if Matches(de, name) {
          RemoveSlot(b, block, at, de, p, k);
          return 0;
        }
        k := k + 1;
        offset := offset + DIRENT_BYTES;
      }
      RemoveNone(Tree(), p);
      r := -1;
    }
  }
}
