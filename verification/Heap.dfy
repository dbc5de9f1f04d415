/** The kernel heap of kernel/heap.c. */
module Heap {
  import opened Bits
  import opened BlockList

  const HEAP_START := 0x20_0000
  const HEAP_SIZE := 0x80_0000
  const HEAP_END := HEAP_START + HEAP_SIZE
  const SPLIT_MIN := 16

  /** The size that is left to a block after a request for s bytes has been cut from it. */
  function Carved(size: nat, s: nat): (n: nat) {
    if s + HEADER + SPLIT_MIN <= size then s else size
  }

  /** The list after split_block on block i. */
  function Carve(bs: seq<Block>, i: nat, s: nat): (cs: seq<Block>)
    requires i < |bs|
    ensures |bs| <= |cs| && cs[i] == bs[i].(size := Carved(bs[i].size, s))
  {
    if Carved(bs[i].size, s) == bs[i].size then bs
    else Replace(bs, i, i + 1,
                 [bs[i].(size := s), Block(bs[i].addr + HEADER + s, bs[i].size - s - HEADER, true)])
  }

  const FRESH_HEAP := [Block(HEAP_START, HEAP_SIZE - HEADER, true)]

  lemma CarveNone(bs: seq<Block>, i: nat, s: nat)
    requires i < |bs| && !(s + HEADER + SPLIT_MIN <= bs[i].size)
    ensures Carve(bs, i, s) == bs
  {
  }

  lemma PairTiled(m: seq<u32>, b: Block, c: Block, hi: nat, next: nat)
    requires Aligned(b) && Aligned(c) && 0 < b.addr && End(b) == c.addr && End(c) == hi < WORD
    requires HeaderAt(m, b, c.addr) && HeaderAt(m, c, next)
    ensures Tiled([b, c], b.addr, hi) && Stored(m, [b, c], next)
  {
    var bs := [b, c];
    assert forall k: nat :: Joined(bs, k, hi);
    assert forall k: nat :: Linked(m, bs, k, next);
  }

  lemma CarveBlock(m: seq<u32>, m': seq<u32>, bs: seq<Block>, lo: nat, hi: nat, i: nat, s: nat)
    requires Tiled(bs, lo, hi) && Stored(m, bs, 0) && i < |bs| && bs[i].free && s % 4 == 0
    requires OnlyIn(m, m', bs[i].addr, End(bs[i]))
    requires s + HEADER + SPLIT_MIN <= bs[i].size
    requires HeaderAt(m', bs[i].(size := s), bs[i].addr + HEADER + s)
    requires HeaderAt(m', Block(bs[i].addr + HEADER + s, bs[i].size - s - HEADER, true), StartOf(bs, i + 1, 0))
    ensures Tiled(Carve(bs, i, s), lo, hi) && Stored(m', Carve(bs, i, s), 0)
    ensures Live(Carve(bs, i, s)) == Live(bs) && Keeps(m, m', Live(bs), lo, hi)
  {
    hide Live, Keeps, Tiled, Stored;
    BlockAt(m, bs, lo, hi, i);
    var mid := [bs[i].(size := s), Block(bs[i].addr + HEADER + s, bs[i].size - s - HEADER, true)];
    PairTiled(m', mid[0], mid[1], StartOf(bs, i + 1, hi), StartOf(bs, i + 1, 0));
    ReplaceTiled(bs, lo, hi, i, i + 1, mid);
    ReplaceStored(m, m', bs, lo, hi, i, i + 1, mid);
    ReplaceLive(bs, i, i + 1, mid);
    OthersKept(m, m', bs, lo, hi, i, i + 1);
    FreeLive(mid);
    FreeLive(bs[i..i + 1]);
    assert Live(bs) == Live(bs[..i]) + Live(bs[i + 1..]);
  }

  /** Memory after the five assignments of split_block, to the new header at word j and the old
      one at word k. */
  function SplitWords(m: seq<u32>, k: nat, j: nat, rest: u32, next: u32, s: u32, at: u32): seq<u32>
    requires k + 2 < |m| && j + 2 < |m|
  {
    m[j := rest][j + 1 := 1][j + 2 := next][k := s][k + 2 := at]
  }

  lemma SplitHeaders(m: seq<u32>, m': seq<u32>, b: Block, s: u32, next: u32)
    requires HeaderAt(m, b, next as nat) && Aligned(b) && b.free && End(b) <= 4 * |m| && End(b) < WORD
    requires s % 4 == 0 && s + HEADER + SPLIT_MIN <= b.size
    requires m' == SplitWords(m, b.addr / 4, b.addr / 4 + 3 + s as nat / 4, b.size - s - HEADER, next, s,
                              b.addr + HEADER + s)
    ensures OnlyIn(m, m', b.addr, End(b))
    ensures HeaderAt(m', b.(size := s as nat), b.addr + HEADER + s)
    ensures HeaderAt(m', Block(b.addr + HEADER + s, b.size - s - HEADER, true), next as nat)
  {
    assert (b.addr + HEADER + s) / 4 == b.addr / 4 + 3 + s / 4;
  }

  lemma SplitDone(m: seq<u32>, m': seq<u32>, bs: seq<Block>, lo: nat, hi: nat, i: nat, s: u32)
    requires Tiled(bs, lo, hi) && Stored(m, bs, 0) && i < |bs| && bs[i].free && s % 4 == 0 && hi <= 4 * |m|
    requires s + HEADER + SPLIT_MIN <= bs[i].size && bs[i].addr / 4 + 3 + s as nat / 4 + 2 < |m|
    requires bs[i].addr + HEADER + bs[i].size < WORD
    requires m' == SplitWords(m, bs[i].addr / 4, bs[i].addr / 4 + 3 + s as nat / 4, bs[i].size - s - HEADER,
                              m[bs[i].addr / 4 + 2], s, bs[i].addr + HEADER + s)
    ensures Tiled(Carve(bs, i, s), lo, hi) && Stored(m', Carve(bs, i, s), 0)
    ensures Live(Carve(bs, i, s)) == Live(bs) && Keeps(m, m', Live(bs), lo, hi)
  {
    hide Live, Keeps, Tiled, Stored, OnlyIn, SplitWords;
    BlockAt(m, bs, lo, hi, i);
    SplitHeaders(m, m', bs[i], s, m[bs[i].addr / 4 + 2]);
    CarveBlock(m, m', bs, lo, hi, i, s as nat);
  }

  lemma CarveCoalesced(bs: seq<Block>, i: nat, s: nat)
    requires Coalesced(bs) && i < |bs| && bs[i].free
    ensures Coalesced(Marked(Carve(bs, i, s), i, false))
  {
    var cs := Marked(Carve(bs, i, s), i, false);
    var k := |cs| - |bs|;
    forall j: nat ensures !FreePair(cs, j) {
      assert j < |bs| ==> !FreePair(bs, j);
      if j > i && j >= k { assert !FreePair(bs, j - k); }
    }
  }

  /** p is the payload of the first block that fits, and that block is now in use, cut to size if
      enough is left over. */
  ghost predicate Granted(bs: seq<Block>, live: set<Block>, p: nat, s: nat) {
    exists b :: IsFirstFit(bs, b, s) && p == b.addr + HEADER
                && live == Live(bs) + {Block(b.addr, Carved(b.size, s), false)}
  }

  /** A granted payload is aligned, holds the request, and lies where nothing was in use. */
  lemma GrantedMeans(bs: seq<Block>, live: set<Block>, p: nat, s: nat, lo: nat, hi: nat)
    requires Tiled(bs, lo, hi) && Granted(bs, live, p, s)
    ensures p % 4 == 0 && Owns(live, p) && !Owns(Live(bs), p)
    ensures Without(live, p) == Live(bs)
    ensures forall b :: b in live && b.addr + HEADER == p ==>
              s <= b.size < s + HEADER + SPLIT_MIN && Gap(Live(bs), lo, hi, b.addr, HEADER + b.size)
  {
    var b :| IsFirstFit(bs, b, s) && p == b.addr + HEADER
             && live == Live(bs) + {Block(b.addr, Carved(b.size, s), false)};
    var i :| 0 <= i < |bs| && bs[i] == b;
    assert Joined(bs, i, hi);
    Within(bs, lo, hi, i);
    LiveApart(bs, lo, hi, i);
    forall c | c in Live(bs) ensures c.addr != b.addr {
      var j :| 0 <= j < |bs| && bs[j] == c;
      if c.addr == b.addr { SameStart(bs, lo, hi, i, j); }
    }
    assert Block(b.addr, Carved(b.size, s), false) in live;
  }

  lemma HeadOf(bs: seq<Block>)
    requires Tiled(bs, HEAP_START, HEAP_END)
    ensures StartOf(bs, 0, 0) == HEAP_START
  {
  }

  lemma TakeLive(bs: seq<Block>, i: nat, s: nat)
    requires i < |bs| && IsFirstFit(bs, bs[i], s) && Live(Carve(bs, i, s)) == Live(bs)
    ensures Live(bs) - {Carve(bs, i, s)[i]} == Live(bs)
    ensures Granted(bs, Live(bs) + {Carve(bs, i, s)[i].(free := false)}, bs[i].addr + HEADER, s)
  {
    var b := Carve(bs, i, s)[i];
    assert b == Block(bs[i].addr, Carved(bs[i].size, s), true);
    assert b !in Live(bs);
  }

  class KernelHeap {
    const mem: array<u32>
    var heapStart: u32
    ghost var blocks: seq<Block>

    ghost predicate Valid()
      reads this, mem
    {
      && Tiled(blocks, HEAP_START, HEAP_END) && Coalesced(blocks)
      && HEAP_END <= 4 * mem.Length && heapStart == HEAP_START && Stored(mem[..], blocks, 0)
    }

    ghost function InUse(): set<Block>
      reads this
    {
      Live(blocks)
    }

    /** heap_init: one free block. */
    constructor (mem: array<u32>)
      requires HEAP_END <= 4 * mem.Length
      modifies mem
      ensures Valid() && this.mem == mem && blocks == FRESH_HEAP && InUse() == {}
      ensures OnlyIn(old(mem[..]), mem[..], HEAP_START, HEAP_END)
    {
      this.mem := mem;
      heapStart := HEAP_START;
      blocks := FRESH_HEAP;
      new;
      mem[HEAP_START / 4] := HEAP_SIZE - HEADER;
      mem[HEAP_START / 4 + 1] := 1;
      mem[HEAP_START / 4 + 2] := 0;
    }

    method SplitBlock(block: u32, size: u32, ghost i: nat)
      requires Tiled(blocks, HEAP_START, HEAP_END) && Stored(mem[..], blocks, 0) && HEAP_END <= 4 * mem.Length
      requires i < |blocks| && blocks[i].addr == block && blocks[i].free && size % 4 == 0 && size <= blocks[i].size
      modifies this`blocks, mem
      ensures blocks == Carve(old(blocks), i, size)
      ensures Tiled(blocks, HEAP_START, HEAP_END) && Stored(mem[..], blocks, 0)
      ensures Live(blocks) == old(Live(blocks))
      ensures Keeps(old(mem[..]), mem[..], old(Live(blocks)), HEAP_START, HEAP_END)
    {
      hide Live, Keeps, Tiled, Stored, Carve, OnlyIn;
      BlockAt(mem[..], blocks, HEAP_START, HEAP_END, i);
      KeepsSelf(mem[..], Live(blocks), HEAP_START, HEAP_END);
      ghost var m := mem[..];
      if mem[block / 4] >= size + HEADER + SPLIT_MIN {
        var newBlock := block + HEADER + size;
        assert newBlock / 4 == block / 4 + 3 + size / 4 && newBlock / 4 + 2 < mem.Length;
        mem[newBlock / 4] := mem[block / 4] - size - HEADER;
        mem[newBlock / 4 + 1] := 1;
        mem[newBlock / 4 + 2] := mem[block / 4 + 2];
        mem[block / 4] := size;
        mem[block / 4 + 2] := newBlock;
        SplitDone(m, mem[..], blocks, HEAP_START, HEAP_END, i, size);
        blocks := Carve(blocks, i, size);
      } else {
        CarveNone(blocks, i, size);
      }
    }

    /** Gives out the first free block that is large enough.  Returns 0 exactly when nothing was
        asked for or no gap between the blocks in use is large enough. */
    method Kmalloc(size: u32) returns (p: u32)
      requires Valid()
      modifies this`blocks, mem
      ensures Valid()
      ensures p == 0 <==> size == 0 || !Room(old(InUse()), HEAP_START, HEAP_END, Align4(size))
      ensures p == 0 ==> blocks == old(blocks) && mem[..] == old(mem[..])
      ensures p != 0 ==> Granted(old(blocks), InUse(), p, Align4(size))
      ensures Keeps(old(mem[..]), mem[..], old(InUse()), HEAP_START, HEAP_END)
    {
      hide Live, Keeps, Tiled, Stored, Coalesced, Room, Carve;
      ghost var bs, m := blocks, mem[..];
      KeepsSelf(m, Live(bs), HEAP_START, HEAP_END);
      if size == 0 { return 0; }
      Align4Covers(size);
      var need := Align4(size);
      RoomExactly(bs, HEAP_START, HEAP_END, need);
      HeadOf(bs);
      ghost var i;
      p, i := FindFree(mem, heapStart, need, blocks, HEAP_START, HEAP_END);
      if p == 0 { return; }
      SplitBlock(p, need, i);
      TakeLive(bs, i, need);
      ghost var m1 := mem[..];
      BlockAt(m1, blocks, HEAP_START, HEAP_END, i);
      mem[p / 4 + 1] := 0;
      MarkBlock(m1, mem[..], blocks, HEAP_START, HEAP_END, i, false);
      KeepsTrans(m, m1, mem[..], Live(bs), HEAP_START, HEAP_END);
      blocks := Marked(blocks, i, false);
      CarveCoalesced(bs, i, need);
      p := p + HEADER;
    }

    /** Takes a block back; nothing happens for 0.  The block is no longer in use, and its
        neighbours, if free, are one with it. */
    method Kfree(p: u32)
      requires Valid() && (p == 0 || Owns(InUse(), p))
      modifies this`blocks, mem
      ensures Valid()
      ensures InUse() == Without(old(InUse()), p)
      ensures p == 0 ==> blocks == old(blocks) && mem[..] == old(mem[..])
      ensures Keeps(old(mem[..]), mem[..], InUse(), HEAP_START, HEAP_END)
    {
      hide Live, Keeps, Tiled, Stored, Coalesced;
      ghost var bs, m := blocks, mem[..];
      KeepsSelf(m, Live(bs), HEAP_START, HEAP_END);
      if p == 0 {
        WithoutNone(bs);
        return;
      }
      ghost var i := OwnedAt(bs, p, HEAP_START, HEAP_END);
      BlockAt(m, bs, HEAP_START, HEAP_END, i);
      mem[(p - HEADER) / 4 + 1] := 1;
      MarkBlock(m, mem[..], bs, HEAP_START, HEAP_END, i, true);
      blocks := Marked(bs, i, true);
      HeadOf(blocks);
      ghost var m1 := mem[..];
      blocks := Coalesce(mem, heapStart, blocks, HEAP_START, HEAP_END);
      KeepsTrans(m, m1, mem[..], Live(blocks), HEAP_START, HEAP_END);
    }
  }

  /** The heap is a function of what is in use: two heaps with the same blocks in use have the same
      list and the same headers, in whatever order blocks were taken and given back. */
  lemma SameUseSameHeap(bs: seq<Block>, cs: seq<Block>, m: seq<u32>, m': seq<u32>)
    requires Tiled(bs, HEAP_START, HEAP_END) && Coalesced(bs) && Stored(m, bs, 0)
    requires Tiled(cs, HEAP_START, HEAP_END) && Coalesced(cs) && Stored(m', cs, 0)
    requires Live(bs) == Live(cs)
    ensures bs == cs
    ensures forall b :: b in bs ==> SameHeader(m, m', b)
  {
    Canonical(bs, cs, HEAP_START, HEAP_END);
    forall b | b in bs ensures SameHeader(m, m', b) {
      var i :| 0 <= i < |bs| && bs[i] == b;
      assert Linked(m, bs, i, 0) && Linked(m', cs, i, 0);
    }
  }

  predicate SameHeader(m: seq<u32>, m': seq<u32>, b: Block) {
    var k := b.addr / 4;
    k + 2 < |m| && k + 2 < |m'| && m[k] == m'[k] && m[k + 1] == m'[k + 1] && m[k + 2] == m'[k + 2]
  }

  /** Giving back what was just granted undoes the request: the very same list is left. */
  lemma FreeUndoesAlloc(bs: seq<Block>, cs: seq<Block>, ds: seq<Block>, p: nat, s: nat)
    requires Tiled(bs, HEAP_START, HEAP_END) && Coalesced(bs)
    requires Tiled(ds, HEAP_START, HEAP_END) && Coalesced(ds)
    requires Granted(bs, Live(cs), p, s) && Live(ds) == Without(Live(cs), p)
    ensures ds == bs
  {
    GrantedMeans(bs, Live(cs), p, s, HEAP_START, HEAP_END);
    Canonical(ds, bs, HEAP_START, HEAP_END);
  }

  /** Once nothing is in use the heap is the single block it started as. */
  lemma AllFreed(bs: seq<Block>)
    requires Tiled(bs, HEAP_START, HEAP_END) && Coalesced(bs)
    ensures Live(bs) == {} <==> bs == FRESH_HEAP
  {
    if Live(bs) == {} {
      Canonical(bs, FRESH_HEAP, HEAP_START, HEAP_END);
    }
  }
}
