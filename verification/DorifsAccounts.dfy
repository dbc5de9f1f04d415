/** The books of a DoriFS volume: free and used blocks, free inodes. */
module DorifsAccounts {
  import opened Bits
  import opened DorifsRecords
  import opened DorifsTree
  import opened DorifsView
  import opened DorifsDirs

  ghost function Below(S: set<nat>, n: nat): set<nat> {
    set b | b in S && b < n
  }

  /** Clear bits and blocks in use add up. */
  lemma {:induction false} BitsCount(bm: seq<byte>, lo: nat, hi: nat, S: set<nat>, n: nat)
    requires BitsAre(bm, lo, hi, S) && n <= hi - lo
    ensures ClearBits(bm, n) + |Below(S, lo + n)| == n
  {
    if n == 0 {
      assert Below(S, lo) == {};
    } else {
      BitsCount(bm, lo, hi, S, n - 1);
      assert BitmapBit(bm, n - 1) <==> lo + (n - 1) in S;
      if lo + n - 1 in S {
        assert Below(S, lo + n) == Below(S, lo + n - 1) + {lo + n - 1};
      } else {
        assert Below(S, lo + n) == Below(S, lo + n - 1);
      }
    }
  }

  lemma AllBelow(bm: seq<byte>, lo: nat, hi: nat, S: set<nat>)
    requires BitsAre(bm, lo, hi, S)
    ensures Below(S, hi) == S
  {
  }

  /** The number of nonzero pointers among the first s of a node. */
  function Pointers(n: Node, s: nat): nat {
    if s == 0 then 0 else Pointers(n, s - 1) + if Slot(n, s - 1) == 0 then 0 else 1
  }

  lemma {:induction false} MappedCount(n: Node, a: nat, s: nat)
    requires Mapped(n, a, FILE_BLOCKS, FILE_BLOCKS) && s <= FILE_BLOCKS
    ensures Pointers(n, s) == if s < a then s else a
  {
    if s != 0 { MappedCount(n, a, s - 1); }
  }

  lemma ShapeCount(n: Node)
    requires Shape(n)
    ensures Pointers(n, SLOTS) == n.rec.blockCount + if n.rec.indirect == 0 then 0 else 1
  {
    if n.rec.typ == TYPE_FILE || n.rec.typ == TYPE_DIR {
      MappedCount(n, Blocks(n.rec.size), FILE_BLOCKS);
    } else {
      HollowCount(n, FILE_BLOCKS);
    }
  }

  lemma {:induction false} HollowCount(n: Node, s: nat)
    requires Hollow(n) && s <= FILE_BLOCKS
    ensures Pointers(n, s) == 0
  {
    if s != 0 { HollowCount(n, s - 1); }
  }

  ghost function OwnedUpTo(owner: Owner, i: nat, s: nat): set<nat> {
    set b | b in owner && (owner[b].0 < i || (owner[b].0 == i && owner[b].1 < s))
  }

  /** The pointers of one node name that many different blocks. */
  lemma {:induction false} NodeCount(v: seq<Node>, owner: Owner, i: nat, s: nat)
    requires Owned(v, owner) && i < |v| && s <= SLOTS
    ensures |OwnedUpTo(owner, i, s)| == |OwnedUpTo(owner, i, 0)| + Pointers(v[i], s)
  {
    hide Owned, OwnedUpTo;
    if s != 0 {
      NodeCount(v, owner, i, s - 1);
      OneSlot(v, owner, i, s - 1);
    }
  }

  lemma OneSlot(v: seq<Node>, owner: Owner, i: nat, s: nat)
    requires Owned(v, owner) && i < |v| && s < SLOTS
    ensures var p := Slot(v[i], s) as nat;
      if p == 0 then OwnedUpTo(owner, i, s + 1) == OwnedUpTo(owner, i, s)
      else OwnedUpTo(owner, i, s + 1) == OwnedUpTo(owner, i, s) + {p} && p !in OwnedUpTo(owner, i, s)
  {
    var p := Slot(v[i], s) as nat;
    forall b ensures b in OwnedUpTo(owner, i, s + 1) <==> b in OwnedUpTo(owner, i, s) || (p != 0 && b == p) {
    }
  }

  /** The blocks of the first n inodes, indirect blocks included. */
  ghost function BlocksHeld(v: seq<Node>, n: nat): nat
    requires n <= |v|
  {
    if n == 0 then 0 else BlocksHeld(v, n - 1) + v[n - 1].rec.blockCount + if v[n - 1].rec.indirect == 0 then 0 else 1
  }

  lemma {:induction false} AllCount(v: seq<Node>, owner: Owner, n: nat)
    requires Owned(v, owner) && n <= |v| && forall i :: 0 <= i < |v| ==> Shape(v[i])
    ensures |OwnedUpTo(owner, n, 0)| == BlocksHeld(v, n)
  {
    hide Owned, Shape, Pointers;
    if n == 0 {
      assert OwnedUpTo(owner, 0, 0) == {};
    } else {
      AllCount(v, owner, n - 1);
      NodeCount(v, owner, n - 1, SLOTS);
      ShapeCount(v[n - 1]);
      SlotsBelow(v, owner, n - 1);
    }
  }

  lemma SlotsBelow(v: seq<Node>, owner: Owner, i: nat)
    requires Owned(v, owner)
    ensures OwnedUpTo(owner, i + 1, 0) == OwnedUpTo(owner, i, SLOTS)
  {
  }

  lemma AllOwned(v: seq<Node>, owner: Owner)
    requires Owned(v, owner)
    ensures OwnedUpTo(owner, |v|, 0) == owner.Keys
  {
  }

  /** No two pointers refer to the same block. */
  lemma OnePointerEach(v: seq<Node>, owner: Owner, i: nat, s: nat, j: nat, t: nat)
    requires Owned(v, owner) && i < |v| && s < SLOTS && j < |v| && t < SLOTS
    requires Slot(v[i], s) == Slot(v[j], t) != 0
    ensures i == j && s == t
  {
  }

  lemma OwnedReferred(v: seq<Node>, owner: Owner, b: nat)
    requires Owned(v, owner) && b != 0
    ensures b in owner <==> Referred(v, b)
  {
    if b in owner { assert Slot(v[owner[b].0], owner[b].1) == b; }
  }

  /** The blocks in use are exactly those that some pointer of some inode refers to, each by one
      pointer; their number is what the inodes count, and the rest is free. */
  lemma BlockAccounts(d: Disk, sb: Superblock, bm: seq<byte>, owner: Owner, refs: Refs)
    requires Consistent(d, sb, bm, owner, refs)
    ensures sb.freeBlocks + BlocksHeld(Nodes(d), USABLE_INODES) == sb.totalBlocks - sb.dataStart
    ensures forall i: nat :: i < sb.totalBlocks - sb.dataStart ==>
      (BitmapBit(bm, i) <==> Referred(Nodes(d), sb.dataStart + i))
    ensures forall i, s, j, t ::
      0 <= i < USABLE_INODES && 0 <= s < SLOTS && 0 <= j < USABLE_INODES && 0 <= t < SLOTS ==>
      Slot(Nodes(d)[i], s) == Slot(Nodes(d)[j], t) != 0 ==> i == j && s == t
  {
    hide Shape, Dirs, Nodes, BlocksHeld, ClearBits, Cached, Owned, Slot, Referred, BitmapBit, BitsAre, Below, OwnedUpTo;
    var v, n := Nodes(d), sb.totalBlocks - sb.dataStart;
    BitsCount(bm, sb.dataStart, sb.totalBlocks, owner.Keys, n);
    AllBelow(bm, sb.dataStart, sb.totalBlocks, owner.Keys);
    AllCount(v, owner, USABLE_INODES);
    AllOwned(v, owner);
    forall i: nat | i < n ensures BitmapBit(bm, i) <==> Referred(v, sb.dataStart + i) {
      BitMeaning(d, sb, bm, owner.Keys, i);
      OwnedReferred(v, owner, sb.dataStart + i);
    }
    forall i, s, j, t | 0 <= i < USABLE_INODES && 0 <= s < SLOTS && 0 <= j < USABLE_INODES && 0 <= t < SLOTS
      && Slot(v[i], s) == Slot(v[j], t) != 0
      ensures i == j && s == t
    {
      OnePointerEach(v, owner, i, s, j, t);
    }
  }

  /** Some pointer of some inode refers to block b. */
  ghost predicate Referred(v: seq<Node>, b: nat) {
    exists i, s :: 0 <= i < |v| && 0 <= s < SLOTS && Slot(v[i], s) == b
  }

  lemma {:induction false} UsedIsKeys(v: seq<Node>, t: Tree, n: nat)
    requires n <= |v| && forall i: nat :: i < |v| ==> (i in t <==> v[i].rec.typ != TYPE_FREE)
    ensures UsedInodes(v, n) == |Below(t.Keys, n)|
  {
    if n == 0 {
      assert Below(t.Keys, 0) == {};
    } else {
      UsedIsKeys(v, t, n - 1);
      BelowStep(t.Keys, n - 1);
      assert n - 1 in t.Keys <==> n - 1 in t;
    }
  }

  lemma BelowStep(keys: set<nat>, n: nat)
    ensures |Below(keys, n + 1)| == |Below(keys, n)| + if n in keys then 1 else 0
  {
    if n in keys {
      assert Below(keys, n + 1) == Below(keys, n) + {n} && n !in Below(keys, n);
    } else {
      assert Below(keys, n + 1) == Below(keys, n);
    }
  }

  /** The count of free inodes and the objects of the tree add up to all inodes but number 0;
      of those only the first 946 have a record in the table. */
  lemma InodeAccounts(d: Disk, sb: Superblock, bm: seq<byte>, owner: Owner, refs: Refs)
    requires Consistent(d, sb, bm, owner, refs)
    ensures sb.freeInodes + |TreeOf(d)| == sb.totalInodes - 1
    ensures forall i :: i in TreeOf(d) ==> 1 <= i < USABLE_INODES
  {
    hide Owned, Allocator, Shape, DirOk, ObjOf, NodeOf, InodeAt, UsedInodes;
    DirsAre(d, sb, bm, owner, refs);
    FreeInodes(d, sb, bm, owner, refs);
    var t := TreeOf(d);
    forall i: nat | i < USABLE_INODES ensures i in t <==> Nodes(d)[i].rec.typ != TYPE_FREE {
      assert Nodes(d)[i].rec == InodeAt(d, i);
    }
    UsedIsKeys(Nodes(d), t, USABLE_INODES);
    assert Below(t.Keys, USABLE_INODES) == t.Keys;
    assert |t.Keys| == |t|;
  }
}
