/** What the blocks of a DoriFS disk mean: inodes with their block pointers, who owns which
    block, file contents, and the invariant that ties disk, superblock and bitmap together. */
module DorifsView {
  import opened Bits
  import opened Bytes
  import opened DorifsRecords
  import opened DorifsTree
  import opened Helpers

  /** An inode together with all 1036 data pointers it reaches. */
  datatype Node = Node(rec: Inode, ptrs: seq<u32>)

  function IndirectTable(d: Disk, i: Inode): (t: seq<u32>)
    ensures |t| == INDIRECT
  {
    if i.indirect != 0 && i.indirect < |d| then Words(d[i.indirect]) else seq(INDIRECT, _ => 0)
  }

  function NodeOf(d: Disk, i: Inode): (n: Node)
    ensures |n.ptrs| == FILE_BLOCKS && n.rec == i
  {
    Node(i, i.direct + IndirectTable(d, i))
  }

  /** The pointers of a node: its data pointers, then its indirect block. */
  const SLOTS := FILE_BLOCKS + 1

  function Slot(n: Node, s: nat): u32 {
    if s < |n.ptrs| then n.ptrs[s] else n.rec.indirect
  }

  // ---- who owns which block ----

  type Owner = map<nat, (nat, nat)>

  /** `owner` names, for every block some pointer refers to, the one pointer that does. */
  ghost predicate Owned(v: seq<Node>, owner: Owner) {
    && (forall i, s :: 0 <= i < |v| && 0 <= s < SLOTS && Slot(v[i], s) != 0 ==>
          Slot(v[i], s) in owner && owner[Slot(v[i], s)] == (i, s))
    && (forall b :: b in owner ==>
          b != 0 && owner[b].0 < |v| && owner[b].1 < SLOTS && Slot(v[owner[b].0], owner[b].1) == b)
  }

  /** `n'` is `n` with pointer s set to b. */
  ghost predicate SlotSet(n: Node, n': Node, s: nat, b: u32) {
    Slot(n', s) == b && forall t :: 0 <= t < SLOTS && t != s ==> Slot(n', t) == Slot(n, t)
  }

  lemma Attach(v: seq<Node>, owner: Owner, i: nat, s: nat, b: u32, n': Node)
    requires Owned(v, owner) && i < |v| && s < SLOTS
    requires b != 0 && b !in owner && Slot(v[i], s) == 0
    requires SlotSet(v[i], n', s, b)
    ensures Owned(v[i := n'], owner[b := (i, s)])
    ensures owner[b := (i, s)].Keys == owner.Keys + {b}
  {
  }

  lemma Detach(v: seq<Node>, owner: Owner, i: nat, s: nat, n': Node)
    requires Owned(v, owner) && i < |v| && s < SLOTS
    requires Slot(v[i], s) != 0 && SlotSet(v[i], n', s, 0)
    ensures Owned(v[i := n'], owner - {Slot(v[i], s)})
    ensures Slot(v[i], s) in owner && (owner - {Slot(v[i], s)}).Keys == owner.Keys - {Slot(v[i], s)}
  {
  }

  // ---- the bitmap ----

  predicate BitmapBit(bm: seq<byte>, i: nat)
    requires i / 8 < |bm|
  {
    Bit(bm[i / 8], i % 8)
  }

  /** The set bits of the bitmap are exactly the blocks of S, which lie in [lo, hi). */
  ghost predicate BitsAre(bm: seq<byte>, lo: nat, hi: nat, S: set<nat>) {
    && lo <= hi <= lo + 8 * |bm|
    && (forall b :: b in S ==> lo <= b < hi)
    && (forall i: nat :: i < hi - lo ==> (BitmapBit(bm, i) <==> lo + i in S))
  }

  ghost function ClearBits(bm: seq<byte>, n: nat): nat
    requires n <= 8 * |bm|
  {
    if n == 0 then 0 else ClearBits(bm, n - 1) + if BitmapBit(bm, n - 1) then 0 else 1
  }

  /** `bm'` is `bm` with bit i set to `on`. */
  ghost predicate BitTo(bm: seq<byte>, bm': seq<byte>, i: nat, on: bool)
    requires i / 8 < |bm|
  {
    |bm'| == |bm| && forall j: nat :: j / 8 < |bm| ==> (BitmapBit(bm', j) <==> if j == i then on else BitmapBit(bm, j))
  }

  lemma SetBitmap(bm: seq<byte>, i: nat, on: bool) returns (b: byte)
    requires i / 8 < |bm|
    ensures b == if on then SetBit(bm[i / 8], i % 8) else ClearBit(bm[i / 8], i % 8)
    ensures BitTo(bm, bm[i / 8 := b], i, on)
  {
    hide Pow2, SetBit, ClearBit, Bit;
    Pow2Word();
    BitOpsFit(bm[i / 8], i % 8, 8);
    b := if on then SetBit(bm[i / 8], i % 8) else ClearBit(bm[i / 8], i % 8);
    var bm' := bm[i / 8 := b];
    forall j: nat | j / 8 < |bm| ensures BitmapBit(bm', j) <==> if j == i then on else BitmapBit(bm, j) {
      SetBitBits(bm[i / 8], i % 8, j % 8);
      ClearBitBits(bm[i / 8], i % 8, j % 8);
    }
  }

  lemma {:induction false} ClearBitsChange(bm: seq<byte>, bm': seq<byte>, i: nat, on: bool, n: nat)
    requires i / 8 < |bm| && n <= 8 * |bm| && BitTo(bm, bm', i, on)
    ensures i >= n || BitmapBit(bm, i) == on ==> ClearBits(bm', n) == ClearBits(bm, n)
    ensures i < n && BitmapBit(bm, i) != on ==> ClearBits(bm', n) == ClearBits(bm, n) + if on then -1 else 1
  {
    if n != 0 {
      ClearBitsChange(bm, bm', i, on, n - 1);
    }
  }

  /** No clear bit is counted exactly when all bits are set. */
  lemma {:induction false} NoClearBits(bm: seq<byte>, n: nat)
    requires n <= 8 * |bm|
    ensures ClearBits(bm, n) == 0 <==> forall i: nat :: i < n ==> BitmapBit(bm, i)
    ensures ClearBits(bm, n) <= n
  {
    if n != 0 {
      NoClearBits(bm, n - 1);
    }
  }

  /** The superblock describes this disk and this bitmap. */
  ghost predicate Layout(d: Disk, sb: Superblock, bm: seq<byte>) {
    && sb.magic == MAGIC && sb.totalInodes == MAX_INODES
    && sb.tableStart == 1 && sb.tableBlocks == TABLE_BLOCKS
    && sb.bitmapStart == 1 + TABLE_BLOCKS && sb.dataStart == 1 + TABLE_BLOCKS + sb.bitmapBlocks
    && sb.dataStart <= sb.totalBlocks <= |d|
    && |bm| == sb.bitmapBlocks * BLOCK
    && sb.totalBlocks - sb.dataStart <= 8 * |bm|
  }

  /** The cached bitmap is the bitmap on the disk. */
  ghost predicate Cached(d: Disk, sb: Superblock, bm: seq<byte>)
    requires Layout(d, sb, bm)
  {
    forall k: nat :: k < sb.bitmapBlocks ==> d[sb.bitmapStart + k] == bm[k * BLOCK..k * BLOCK + BLOCK]
  }

  /** The block allocator is in order, with S the blocks in use. */
  ghost predicate Allocator(d: Disk, sb: Superblock, bm: seq<byte>, S: set<nat>) {
    && Layout(d, sb, bm)
    && Cached(d, sb, bm)
    && BitsAre(bm, sb.dataStart, sb.totalBlocks, S)
    && sb.freeBlocks == ClearBits(bm, sb.totalBlocks - sb.dataStart)
  }

  /** One byte of the bitmap is changed in memory and on the disk. */
  lemma CachedUpdate(d: Disk, sb: Superblock, bm: seq<byte>, at: nat, b: byte)
    requires Layout(d, sb, bm) && Cached(d, sb, bm) && at < |bm|
    ensures at / BLOCK < sb.bitmapBlocks
    ensures var blk := sb.bitmapStart + at / BLOCK;
            var d' := d[blk := d[blk][at % BLOCK := b]];
            Layout(d', sb, bm[at := b]) && Cached(d', sb, bm[at := b])
  {
    var blk := sb.bitmapStart + at / BLOCK;
    var d' := d[blk := d[blk][at % BLOCK := b]];
    var bm' := bm[at := b];
    assert at / BLOCK < sb.bitmapBlocks;
    forall k: nat | k < sb.bitmapBlocks ensures d'[sb.bitmapStart + k] == bm'[k * BLOCK..k * BLOCK + BLOCK] {
      assert d[sb.bitmapStart + k] == bm[k * BLOCK..k * BLOCK + BLOCK];
    }
  }

  /** Nothing but bitmap blocks differs. */
  ghost predicate OnlyBitmap(d: Disk, d': Disk, sb: Superblock) {
    |d'| == |d| && forall b: nat :: b < |d| && (b < sb.bitmapStart || sb.dataStart <= b) ==> d'[b] == d[b]
  }

  /** Nothing but block b and bitmap blocks differ. */
  ghost predicate OnlyBitmapAnd(d: Disk, d': Disk, sb: Superblock, c: nat) {
    |d'| == |d| && forall b: nat :: b < |d| && (b < sb.bitmapStart || sb.dataStart <= b) && b != c ==> d'[b] == d[b]
  }

  /** A write outside the bitmap leaves the allocator in order. */
  lemma AllocatorFrame(d: Disk, d': Disk, sb: Superblock, bm: seq<byte>, S: set<nat>, c: nat)
    requires Allocator(d, sb, bm, S) && |d'| == |d|
    requires c < sb.bitmapStart || sb.dataStart <= c
    requires forall b: nat :: b < |d| && b != c ==> d'[b] == d[b]
    ensures Allocator(d', sb, bm, S)
  {
  }

  lemma BitMeaning(d: Disk, sb: Superblock, bm: seq<byte>, S: set<nat>, i: nat)
    requires Allocator(d, sb, bm, S) && i < sb.totalBlocks - sb.dataStart
    ensures i / 8 < |bm| && (Bit(bm[i / 8], i % 8) <==> sb.dataStart + i in S)
    ensures BitmapBit(bm, i) <==> sb.dataStart + i in S
    ensures sb.totalBlocks - sb.dataStart <= 8 * |bm|
  {
    assert BitmapBit(bm, i) <==> sb.dataStart + i in S;
  }

  /** A change to one bit is a change to the set. */
  lemma BitsChange(bm: seq<byte>, bm': seq<byte>, lo: nat, hi: nat, S: set<nat>, i: nat, on: bool)
    requires BitsAre(bm, lo, hi, S) && i < hi - lo && i / 8 < |bm| && BitTo(bm, bm', i, on)
    ensures BitsAre(bm', lo, hi, if on then S + {lo + i} else S - {lo + i})
  {
    hide BitmapBit;
  }

  /** Setting a clear bit takes one block. */
  lemma TakeBit(d: Disk, sb: Superblock, bm: seq<byte>, S: set<nat>, i: nat) returns (b: byte)
    requires Allocator(d, sb, bm, S) && i < sb.totalBlocks - sb.dataStart && i / 8 < |bm| && !Bit(bm[i / 8], i % 8)
    ensures b == SetBit(bm[i / 8], i % 8)
    ensures BitsAre(bm[i / 8 := b], sb.dataStart, sb.totalBlocks, S + {sb.dataStart + i})
    ensures sb.dataStart + i !in S
    ensures ClearBits(bm[i / 8 := b], sb.totalBlocks - sb.dataStart) == sb.freeBlocks - 1
  {
    hide BitTo, Cached, BitsAre, BitmapBit, SetBit, ClearBit, ClearBits;
    BitMeaning(d, sb, bm, S, i);
    b := SetBitmap(bm, i, true);
    BitsChange(bm, bm[i / 8 := b], sb.dataStart, sb.totalBlocks, S, i, true);
    ClearBitsChange(bm, bm[i / 8 := b], i, true, sb.totalBlocks - sb.dataStart);
  }

  /** Clearing a bit gives one block back if it was set, and changes no count if it was not. */
  lemma DropBit(d: Disk, sb: Superblock, bm: seq<byte>, S: set<nat>, i: nat) returns (b: byte)
    requires Allocator(d, sb, bm, S) && i < sb.totalBlocks - sb.dataStart
    ensures i / 8 < |bm| && b == ClearBit(bm[i / 8], i % 8)
    ensures BitsAre(bm[i / 8 := b], sb.dataStart, sb.totalBlocks, S - {sb.dataStart + i})
    ensures ClearBits(bm[i / 8 := b], sb.totalBlocks - sb.dataStart)
      == sb.freeBlocks + if sb.dataStart + i in S then 1 else 0
    ensures sb.freeBlocks < sb.totalBlocks
  {
    hide BitTo, Cached, BitsAre, BitmapBit, SetBit, ClearBit, ClearBits;
    BitMeaning(d, sb, bm, S, i);
    b := SetBitmap(bm, i, false);
    BitsChange(bm, bm[i / 8 := b], sb.dataStart, sb.totalBlocks, S, i, false);
    ClearBitsChange(bm, bm[i / 8 := b], i, false, sb.totalBlocks - sb.dataStart);
    NoClearBits(bm[i / 8 := b], sb.totalBlocks - sb.dataStart);
  }

  /** No block is free exactly when the allocator counts none. */
  lemma NoneFree(d: Disk, sb: Superblock, bm: seq<byte>, S: set<nat>)
    requires Allocator(d, sb, bm, S)
    ensures sb.freeBlocks == 0 <==> forall b :: sb.dataStart <= b < sb.totalBlocks ==> b in S
  {
    var total := sb.totalBlocks - sb.dataStart;
    NoClearBits(bm, total);
    if forall b :: sb.dataStart <= b < sb.totalBlocks ==> b in S {
      forall i: nat | i < total ensures BitmapBit(bm, i) { assert sb.dataStart + i in S; }
    } else {
      var b :| sb.dataStart <= b < sb.totalBlocks && b !in S;
      assert !BitmapBit(bm, b - sb.dataStart);
    }
  }

  // ---- setting one pointer ----

  lemma DirectSet(d: Disk, i: Inode, fb: nat, b: u32)
    requires fb < DIRECT
    ensures NodeOf(d, i.(direct := i.direct[fb := b])).ptrs == NodeOf(d, i).ptrs[fb := b]
  {
  }

  lemma IndirectFresh(d: Disk, d': Disk, i: Inode, ind: u32)
    requires i.indirect == 0 && 0 != ind < |d'| && d'[ind] == Zeros(BLOCK)
    ensures NodeOf(d', i.(indirect := ind)).ptrs == NodeOf(d, i).ptrs
  {
    WordsOfZeros(BLOCK);
  }

  lemma IndirectSet(d: Disk, d': Disk, i: Inode, k: nat, b: u32)
    requires 0 != i.indirect < |d| == |d'| && k < INDIRECT
    requires d'[i.indirect] == Patch(d[i.indirect], 4 * k, WordBytes([b]))
    ensures NodeOf(d', i).ptrs == NodeOf(d, i).ptrs[DIRECT + k := b]
  {
    PatchWord(d[i.indirect], k, b);
  }

  // ---- what the inodes mean ----

  /** The inode has an indirect block. */
  predicate HasTable(d: Disk, ino: nat) {
    InodeBlock(ino) < |d| && InodeAt(d, ino).indirect != 0
  }

  ghost function Nodes(d: Disk): (v: seq<Node>)
    requires |d| > TABLE_BLOCKS
    ensures |v| == USABLE_INODES
  {
    seq(USABLE_INODES, i requires 0 <= i < USABLE_INODES => NodeOf(d, InodeAt(d, i)))
  }

  function Blocks(size: nat): nat { (size + BLOCK - 1) / BLOCK }

  /** The node has exactly the data blocks below a and those in [b, c). */
  ghost predicate Mapped(n: Node, a: nat, b: nat, c: nat) {
    && |n.ptrs| == FILE_BLOCKS && a <= b <= c <= FILE_BLOCKS
    && n.rec.blockCount == a + (c - b)
    && forall k :: 0 <= k < FILE_BLOCKS ==> (n.ptrs[k] != 0 <==> k < a || b <= k < c)
  }

  predicate HasBlock(n: Node, fb: nat) {
    fb < |n.ptrs| && n.ptrs[fb] != 0
  }

  ghost predicate Hollow(n: Node) {
    Mapped(n, 0, 0, 0) && n.rec.indirect == 0
  }

  ghost predicate Shape(n: Node) {
    if n.rec.typ == TYPE_FILE || n.rec.typ == TYPE_DIR then
      n.rec.size <= FILE_BLOCKS * BLOCK && Mapped(n, Blocks(n.rec.size), FILE_BLOCKS, FILE_BLOCKS)
    else Hollow(n) && (n.rec.typ == TYPE_FREE || (n.rec.typ == TYPE_SYMLINK && n.rec.target[255] == 0))
  }

  function ByteAt(d: Disk, n: Node, p: nat): byte {
    if p / BLOCK < |n.ptrs| && n.ptrs[p / BLOCK] < |d| then d[n.ptrs[p / BLOCK]][p % BLOCK] else 0
  }

  /** Byte p of a file lies in its block p / BLOCK. */
  lemma ByteInBlock(d: Disk, n: Node, fb: nat, at: nat)
    requires fb < |n.ptrs| && at < BLOCK
    ensures (fb * BLOCK + at) / BLOCK == fb && (fb * BLOCK + at) % BLOCK == at
    ensures n.ptrs[fb] < |d| ==> ByteAt(d, n, fb * BLOCK + at) == d[n.ptrs[fb]][at]
  {
  }

  function Data(d: Disk, n: Node): (s: seq<byte>)
    ensures |s| == n.rec.size
  {
    seq(n.rec.size, p requires 0 <= p < n.rec.size => ByteAt(d, n, p))
  }

  /** The directory block of a node; a directory never outgrows one. */
  function DirBlock(d: Disk, n: Node): Block {
    if |n.ptrs| > 0 && n.ptrs[0] < |d| then d[n.ptrs[0]] else Zeros(BLOCK)
  }

  function EntryOf(e: Dirent): Entry {
    if e.ino == 0 then Gone else Live(NameOf(e), e.ino, e.typ)
  }

  function Slots(n: Node): (k: nat)
    ensures k <= DIR_SLOTS
  {
    if n.rec.size / DIRENT_BYTES <= DIR_SLOTS then n.rec.size / DIRENT_BYTES else DIR_SLOTS
  }

  function Entries(d: Disk, n: Node): (es: seq<Entry>)
    ensures |es| == Slots(n)
  {
    seq(Slots(n), k requires 0 <= k < Slots(n) => EntryOf(DirentAt(DirBlock(d, n), k)))
  }

  /** The bytes in front of the first NUL. */
  function CString(s: seq<byte>): seq<byte> {
    if s == [] || s[0] == 0 then [] else [s[0]] + CString(s[1..])
  }

  function ObjOf(d: Disk, n: Node): Obj {
    if n.rec.typ == TYPE_FILE then File(Data(d, n))
    else if n.rec.typ == TYPE_DIR then Dir(Entries(d, n))
    else Link(CString(n.rec.target))
  }

  ghost function TreeOf(d: Disk): Tree
    requires |d| > TABLE_BLOCKS
  {
    map i: nat | i < USABLE_INODES && Nodes(d)[i].rec.typ != TYPE_FREE :: ObjOf(d, Nodes(d)[i])
  }

  // ---- the invariant ----

  type Refs = map<nat, (nat, nat)>

  /** The entry in slot k of directory i refers to a used inode of the recorded type, and
      `refs` names it as the one entry that does. */
  ghost predicate EntryOk(v: seq<Node>, refs: Refs, i: nat, k: nat, e: Entry) {
    e.Live? ==>
      && e.ino < |v| && e.ino != ROOT && e.ino != i && v[e.ino].rec.typ == e.typ && e.typ != TYPE_FREE
      && e.ino in refs && refs[e.ino] == (i, k)
      && NoNul(e.name)
  }

  ghost predicate DirOk(d: Disk, v: seq<Node>, refs: Refs, i: nat)
    requires i < |v|
  {
    v[i].rec.typ == TYPE_DIR ==>
      && v[i].rec.size == DIRENT_BYTES * Slots(v[i])
      && Distinct(Entries(d, v[i]))
      && forall k :: 0 <= k < Slots(v[i]) ==> EntryOk(v, refs, i, k, Entries(d, v[i])[k])
  }

  ghost predicate Dirs(d: Disk, v: seq<Node>, refs: Refs) {
    && |v| == USABLE_INODES && v[0].rec.typ == TYPE_FREE && v[ROOT].rec.typ == TYPE_DIR
    && forall i :: 0 <= i < |v| ==> DirOk(d, v, refs, i)
  }

  ghost function UsedInodes(v: seq<Node>, n: nat): nat
    requires n <= |v|
  {
    if n == 0 then 0 else UsedInodes(v, n - 1) + if v[n - 1].rec.typ == TYPE_FREE then 0 else 1
  }

  ghost predicate Consistent(d: Disk, sb: Superblock, bm: seq<byte>, owner: Owner, refs: Refs): (r: bool)
    ensures r ==> |d| > TABLE_BLOCKS && Layout(d, sb, bm)
  {
    && Allocator(d, sb, bm, owner.Keys)
    && Owned(Nodes(d), owner)
    && (forall i :: 0 <= i < USABLE_INODES ==> Shape(Nodes(d)[i]))
    && Dirs(d, Nodes(d), refs)
    && sb.freeInodes + UsedInodes(Nodes(d), USABLE_INODES) == MAX_INODES - 1
  }

  // ---- how far a write gets ----

  datatype Plan = Full | Short(blocks: nat) | Leak(blocks: nat, reach: nat)

  /** What becomes of a write that needs the blocks up to `want` when the file has `fb` of them,
      `free` blocks are free, and `table` says whether the indirect block is there.  Short(k): it
      stops in front of block k for want of space.  Leak(k, r): the block taken for block k of the
      file is the first that no pointer refers to, and the loop stops in front of block r. */
  function PlanWrite(fb: nat, want: nat, free: nat, table: bool): Plan
    decreases want - fb
  {
    if fb >= want then Full
    else if free == 0 then Short(fb)
    else if fb >= FILE_BLOCKS then Leak(fb, Min(want, fb + free))
    else if fb >= DIRECT && !table then
      if free == 1 then Leak(fb, fb + 1) else PlanWrite(fb + 1, want, free - 2, true)
    else PlanWrite(fb + 1, want, free - 1, table)
  }

  /** The number of blocks taken in growing a file from fb to k blocks. */
  function Cost(fb: nat, k: nat, table: bool): nat
    requires fb <= k
  {
    k - fb + if !table && k > DIRECT && k > fb then 1 else 0
  }

  /** A block is lost exactly when a write has one left but reaches beyond the largest file, or
      when the last free block goes to the data of block 12 (or a later one) and the indirect
      table still has to be made. */
  lemma {:induction false} LeakExactly(fb: nat, want: nat, free: nat, table: bool)
    requires fb <= FILE_BLOCKS
    ensures PlanWrite(fb, want, free, table).Leak? <==>
      || (want > FILE_BLOCKS && free > Cost(fb, FILE_BLOCKS, table))
      || (!table && fb < FILE_BLOCKS && want > DIRECT && want > fb
          && free == (if fb < DIRECT then DIRECT - fb else 0) + 1)
    decreases want - fb
  {
    if fb < want && free != 0 && fb < FILE_BLOCKS {
      if fb >= DIRECT && !table {
        if free != 1 { LeakExactly(fb + 1, want, free - 2, true); }
      } else {
        LeakExactly(fb + 1, want, free - 1, table);
      }
    }
  }

  /** Which block is lost first, and how far a write goes on behind it: to the end of space when
      the file has all its pointers, and no further when the table was not to be had. */
  lemma {:induction false} LeakWhere(fb: nat, want: nat, free: nat, table: bool)
    requires fb <= FILE_BLOCKS && PlanWrite(fb, want, free, table).Leak?
    ensures var cost := Cost(fb, FILE_BLOCKS, table);
      PlanWrite(fb, want, free, table) ==
        if want > FILE_BLOCKS && free > cost then Leak(FILE_BLOCKS, Min(want, FILE_BLOCKS + (free - cost)))
        else var k := if fb < DIRECT then DIRECT else fb; Leak(k, k + 1)
    decreases want - fb
  {
    LeakExactly(fb, want, free, table);
    if fb < FILE_BLOCKS {
      if fb >= DIRECT && !table {
        if free != 1 { LeakWhere(fb + 1, want, free - 2, true); }
      } else {
        LeakWhere(fb + 1, want, free - 1, table);
      }
    }
  }

  /** A file of 12 blocks grows by one when a single block is free: that block is lost. */
  lemma LeakInstance()
    ensures PlanWrite(12, 13, 1, false) == Leak(12, 13)
  {
  }

  /** A write gets all its blocks exactly when there are enough free ones and the file is not
      to outgrow its pointers. */
  lemma {:induction false} FullExactly(fb: nat, want: nat, free: nat, table: bool)
    requires fb <= FILE_BLOCKS
    ensures PlanWrite(fb, want, free, table).Full? <==>
      want <= fb || (want <= FILE_BLOCKS && free >= Cost(fb, want, table))
    decreases want - fb
  {
    if fb < want && free != 0 && fb < FILE_BLOCKS {
      if fb >= DIRECT && !table {
        if free != 1 { FullExactly(fb + 1, want, free - 2, true); }
      } else {
        FullExactly(fb + 1, want, free - 1, table);
      }
    }
  }

  /** A write that stops early has used up exactly the free blocks. */
  lemma {:induction false} ShortExactly(fb: nat, want: nat, free: nat, table: bool)
    requires fb <= FILE_BLOCKS && PlanWrite(fb, want, free, table).Short?
    ensures var k := PlanWrite(fb, want, free, table).blocks;
      fb <= k < want && k <= FILE_BLOCKS && Cost(fb, k, table) == free
    decreases want - fb
  {
    if free != 0 {
      if fb >= DIRECT && !table { ShortExactly(fb + 1, want, free - 2, true); }
      else { ShortExactly(fb + 1, want, free - 1, table); }
    }
  }
}
