/** malloc, free and realloc of libc/stdlib.c.  The list grows at its end with what sbrk gives, and
    blocks are not cut. */
module LibcHeap {
  import opened Bits
  import opened BlockList

  const MAX_REQUEST := 0x7FFF_FFF0     // with its header still a positive int for sbrk

  /** What malloc does to the blocks in use and to the program break. */
  ghost predicate Served(bs: seq<Block>, live: set<Block>, base: nat, brk: nat, brk': nat, limit: nat, p: nat,
                         size: u32)
  {
    if size == 0 then p == 0 && live == Live(bs) && brk' == brk
    else if Room(Live(bs), base, brk, Align4(size)) then brk' == brk && Reused(bs, live, p, Align4(size))
    else if brk + HEADER + Align4(size) <= limit then
      p == brk + HEADER && brk' == brk + HEADER + Align4(size)
      && live == Live(bs) + {Block(brk, Align4(size), false)}
    else p == 0 && live == Live(bs) && brk' == brk
  }

  ghost predicate Reused(bs: seq<Block>, live: set<Block>, p: nat, s: nat) {
    exists b :: IsFirstFit(bs, b, s) && p == b.addr + HEADER && live == Live(bs) + {b.(free := false)}
  }

  /** What malloc returns, when not null, is an aligned payload of at least the requested size where
      nothing was in use before. */
  lemma ServedMeans(bs: seq<Block>, live: set<Block>, base: nat, brk: nat, brk': nat, limit: nat, p: nat, size: u32)
    requires Tiled(bs, base, brk) && Served(bs, live, base, brk, brk', limit, p, size)
    requires size <= MAX_REQUEST && p != 0 && base % 4 == 0
    ensures p % 4 == 0 && Owns(live, p) && !Owns(Live(bs), p) && Without(live, p) == Live(bs)
    ensures forall b :: b in live && b.addr + HEADER == p ==>
              size <= b.size && Gap(Live(bs), base, brk', b.addr, HEADER + b.size)
  {
    Align4Covers(size);
    var s := Align4(size);
    if Room(Live(bs), base, brk, s) {
      var b :| IsFirstFit(bs, b, s) && p == b.addr + HEADER && live == Live(bs) + {b.(free := false)};
      var i :| 0 <= i < |bs| && bs[i] == b;
      assert Joined(bs, i, brk);
      Within(bs, base, brk, i);
      LiveApart(bs, base, brk, i);
      forall c | c in Live(bs) ensures c.addr != b.addr {
        var j :| 0 <= j < |bs| && bs[j] == c;
        if c.addr == b.addr { SameStart(bs, base, brk, i, j); }
      }
      assert b.(free := false) in live;
    } else {
      forall c | c in Live(bs) ensures End(c) <= brk { LiveDisjoint(bs, base, brk, c, c); }
      assert Block(brk, s, false) in live;
      BreakAligned(bs, base, brk);
    }
  }

  lemma BreakAligned(bs: seq<Block>, lo: nat, hi: nat)
    requires Tiled(bs, lo, hi)
    ensures lo % 4 == 0 ==> hi % 4 == 0
    ensures lo <= hi
  {
    if |bs| > 0 {
      assert Joined(bs, |bs| - 1, hi);
      Within(bs, lo, hi, 0);
    }
  }

  /** The list with a block appended in the space after its end. */
  lemma AppendBlock(m: seq<u32>, m': seq<u32>, bs: seq<Block>, lo: nat, hi: nat, b: Block)
    requires Tiled(bs, lo, hi) && Stored(m, bs, 0) && lo % 4 == 0
    requires b.addr == hi && Aligned(b) && End(b) < WORD
    requires |m'| == |m| && HeaderAt(m', b, 0)
    requires |bs| > 0 ==> bs[|bs| - 1].addr / 4 + 2 < |m| && m'[bs[|bs| - 1].addr / 4 + 2] == hi
    requires forall k: nat :: k < |m| && 4 * k < hi && !(|bs| > 0 && k == bs[|bs| - 1].addr / 4 + 2) ==> m'[k] == m[k]
    ensures Tiled(bs + [b], lo, End(b)) && Stored(m', bs + [b], 0)
  {
    var cs := bs + [b];
    BreakAligned(bs, lo, hi);
    forall k: nat ensures Joined(cs, k, End(b)) && Linked(m', cs, k, 0) {
      if k < |bs| {
        BlockAt(m, bs, lo, hi, k);
        if k < |bs| - 1 { Ordered(bs, lo, hi, k, |bs| - 1); }
      }
    }
  }

  lemma HeadOf(bs: seq<Block>, lo: nat, hi: nat)
    requires Tiled(bs, lo, hi)
    ensures if |bs| == 0 then StartOf(bs, 0, 0) == 0 && lo == hi else StartOf(bs, 0, 0) == lo > 0
  {
  }

  lemma StoredBelow(m: seq<u32>, m': seq<u32>, bs: seq<Block>, lo: nat, hi: nat)
    requires Tiled(bs, lo, hi) && Stored(m, bs, 0) && |m'| == |m|
    requires forall k: nat :: k < |m| && 4 * k < hi ==> m'[k] == m[k]
    ensures Stored(m', bs, 0)
  {
    forall k: nat ensures Linked(m', bs, k, 0) {
      if k < |bs| { BlockAt(m, bs, lo, hi, k); }
    }
  }

  lemma LastBelow(m: seq<u32>, bs: seq<Block>, lo: nat, hi: nat)
    requires Tiled(bs, lo, hi) && Stored(m, bs, 0) && |bs| > 0
    ensures bs[|bs| - 1].addr % 4 == 0 && bs[|bs| - 1].addr + HEADER <= hi && bs[|bs| - 1].addr / 4 + 2 < |m|
  {
    BlockAt(m, bs, lo, hi, |bs| - 1);
  }

  lemma AppendKeeps(m: seq<u32>, m': seq<u32>, bs: seq<Block>, lo: nat, hi: nat, hi': nat)
    requires Tiled(bs, lo, hi) && |m'| == |m| && hi <= hi'
    requires forall k: nat :: k < |m| && !(hi <= 4 * k < hi') && !(|bs| > 0 && k == bs[|bs| - 1].addr / 4 + 2) ==>
            m'[k] == m[k]
    ensures Keeps(m, m', Live(bs), lo, hi')
  {
    BreakAligned(bs, lo, hi);
    if |bs| > 0 { Within(bs, lo, hi, |bs| - 1); assert Joined(bs, |bs| - 1, hi); }
    forall b, k: nat | b in Live(bs) && k < |m| && Holds(b, k) ensures m'[k] == m[k] {
      var t :| 0 <= t < |bs| && bs[t] == b;
      Within(bs, lo, hi, t);
      if t < |bs| - 1 { Ordered(bs, lo, hi, t, |bs| - 1); }
    }
  }

  lemma AppendCoalesced(bs: seq<Block>, b: Block)
    requires Coalesced(bs) && !b.free
    ensures Coalesced(bs + [b]) && Live(bs + [b]) == Live(bs) + {b}
  {
    assert forall j: nat :: FreePair(bs + [b], j) ==> FreePair(bs, j);
  }

  class Allocator {
    const mem: array<u32>
    const base: nat                    // where sbrk starts
    const limit: nat                   // where it ends
    var brk: u32
    var heapHead: u32
    ghost var blocks: seq<Block>

    ghost predicate Valid()
      reads this, mem
    {
      && base % 4 == 0 && base <= brk <= limit < WORD && limit <= 4 * mem.Length
      && Tiled(blocks, base, brk) && Coalesced(blocks)
      && heapHead == StartOf(blocks, 0, 0) && Stored(mem[..], blocks, 0)
    }

    ghost function InUse(): set<Block>
      reads this
    {
      Live(blocks)
    }

    constructor (mem: array<u32>, base: nat, limit: nat)
      requires base % 4 == 0 && 0 < base <= limit < WORD && limit <= 4 * mem.Length
      ensures Valid() && blocks == [] && brk == base
      ensures this.mem == mem && this.base == base && this.limit == limit
    {
      this.mem, this.base, this.limit := mem, base, limit;
      brk, heapHead, blocks := base, 0, [];
    }

    /** The ideal sbrk: the old break, or nothing when the space ends. */
    method Sbrk(n: nat) returns (ok: bool, end: u32)
      requires brk <= limit < WORD
      modifies this`brk
      ensures end == old(brk) && ok == (old(brk) + n <= limit)
      ensures brk == if ok then old(brk) + n else old(brk)
    {
      end := brk;
      ok := brk + n <= limit;
      if ok { brk := brk + n; }
    }

    /** Walks to the last block of the list. */
    method LastBlock(ghost bs: seq<Block>, ghost lo: nat, ghost hi: nat) returns (last: u32)
      requires Tiled(bs, lo, hi) && Stored(mem[..], bs, 0) && |bs| > 0 && heapHead == bs[0].addr
      ensures last == bs[|bs| - 1].addr
    {
      hide Tiled, Stored;
      last := heapHead;
      ghost var i: nat := 0;
      BlockAt(mem[..], bs, lo, hi, 0);
      while mem[last / 4 + 2] != 0
        invariant i < |bs| && last == bs[i].addr && HeaderAt(mem[..], bs[i], StartOf(bs, i + 1, 0)) && Aligned(bs[i])
        decreases |bs| - i
      {
        FirstAt(mem[..], bs, lo, hi, i + 1);
        last, i := mem[last / 4 + 2], i + 1;
      }
      FirstAt(mem[..], bs, lo, hi, i + 1);
    }

    /** Appends a block in use of the given size; 0 when there is no space. */
    method RequestSpace(size: u32) returns (block: u32)
      requires Valid() && size % 4 == 0
      modifies this, mem
      ensures Valid()
      ensures block == 0 <==> old(brk) + HEADER + size > limit
      ensures block == 0 ==> blocks == old(blocks) && brk == old(brk) && mem[..] == old(mem[..])
      ensures block != 0 ==>
        && block == old(brk) && brk == block + HEADER + size && blocks == old(blocks) + [Block(block, size, false)]
      ensures Keeps(old(mem[..]), mem[..], old(InUse()), base, brk)
    {
      hide Live, Keeps, Tiled, Stored, Coalesced;
      ghost var bs, m, hi := blocks, mem[..], brk;
      BreakAligned(bs, base, hi);
      KeepsSelf(m, Live(bs), base, hi);
      HeadOf(bs, base, hi);
      var ok;
      ok, block := Sbrk(HEADER + size);
      if !ok { return 0; }
      mem[block / 4] := size;
      mem[block / 4 + 1] := 0;
      mem[block / 4 + 2] := 0;
      StoredBelow(m, mem[..], bs, base, hi);
      if heapHead != 0 {
        var last := LastBlock(bs, base, hi);
        LastBelow(m, bs, base, hi);
        mem[last / 4 + 2] := block;
      } else {
        heapHead := block;
      }
      blocks := bs + [Block(block, size, false)];
      AppendBlock(m, mem[..], bs, base, hi, blocks[|bs|]);
      AppendKeeps(m, mem[..], bs, base, hi, brk);
      AppendCoalesced(bs, blocks[|bs|]);
    }

    /** Gives out the first free block that fits, or a new block at the end.  Returns 0 exactly when
        nothing was asked for, or neither a gap between the blocks in use nor the space that sbrk
        has left is large enough. */
    method Malloc(size: u32) returns (p: u32)
      requires Valid() && size <= MAX_REQUEST
      modifies this, mem
      ensures Valid()
      ensures Served(old(blocks), InUse(), base, old(brk), brk, limit, p, size)
      ensures p == 0 ==> blocks == old(blocks) && mem[..] == old(mem[..])
      ensures Keeps(old(mem[..]), mem[..], old(InUse()), base, brk)
    {
      hide Live, Keeps, Tiled, Stored, Coalesced, Room;
      ghost var bs, m := blocks, mem[..];
      KeepsSelf(m, Live(bs), base, brk);
      if size == 0 { return 0; }
      Align4Covers(size);
      var need := Align4(size);
      RoomExactly(bs, base, brk, need);
      HeadOf(bs, base, brk);
      ghost var i;
      p, i := FindFree(mem, heapHead, need, bs, base, brk);
      if p != 0 {
        BlockAt(m, bs, base, brk, i);
        mem[p / 4 + 1] := 0;
        MarkBlock(m, mem[..], bs, base, brk, i, false);
        blocks := Marked(bs, i, false);
        ReuseLive(bs, i, need);
      } else {
        p := RequestSpace(need);
        if p == 0 { return; }
        AppendLive(bs, blocks[|bs|]);
      }
      p := p + HEADER;
    }

    /** Takes a block back; nothing happens for 0. */
    method Free(p: u32)
      requires Valid() && (p == 0 || Owns(InUse(), p))
      modifies this`blocks, mem
      ensures Valid()
      ensures InUse() == Without(old(InUse()), p)
      ensures p == 0 ==> blocks == old(blocks) && mem[..] == old(mem[..])
      ensures Keeps(old(mem[..]), mem[..], InUse(), base, brk)
    {
      hide Live, Keeps, Tiled, Stored, Coalesced;
      ghost var bs, m := blocks, mem[..];
      KeepsSelf(m, Live(bs), base, brk);
      if p == 0 {
        WithoutNone(bs);
        return;
      }
      ghost var i := OwnedAt(bs, p, base, brk);
      BlockAt(m, bs, base, brk, i);
      HeadOf(bs, base, brk);
      mem[(p - HEADER) / 4 + 1] := 1;
      MarkBlock(m, mem[..], bs, base, brk, i, true);
      blocks := Marked(bs, i, true);
      ghost var m1 := mem[..];
      blocks := Coalesce(mem, heapHead, blocks, base, brk);
      KeepsTrans(m, m1, mem[..], Live(blocks), base, brk);
    }

    /** memcpy of whole words between two places that do not overlap. */
    method CopyWords(dst: nat, src: nat, n: nat)
      requires dst + n <= mem.Length && src + n <= mem.Length && (dst + n <= src || src + n <= dst)
      modifies mem
      ensures mem[dst..dst + n] == old(mem[src..src + n])
      ensures forall k :: 0 <= k < mem.Length && !(dst <= k < dst + n) ==> mem[k] == old(mem[k])
    {
      var i := 0;
      while i < n
        invariant 0 <= i <= n
        invariant forall k :: dst <= k < dst + i ==> mem[k] == old(mem[k - dst + src])
        invariant forall k :: 0 <= k < mem.Length && !(dst <= k < dst + i) ==> mem[k] == old(mem[k])
      {
        mem[dst + i] := mem[src + i];
        i := i + 1;
      }
    }

    /** Copies the n bytes of block b to the start of block c, which is larger. */
    method CopyPayload(q: u32, p: u32, n: u32, ghost b: Block, ghost c: Block)
      requires Valid() && c in blocks && c.addr + HEADER == q && b.addr + HEADER == p && b.size == n < c.size
      requires (End(b) <= c.addr || End(c) <= b.addr) && End(c) <= brk && Aligned(c) && End(b) <= brk && Aligned(b)
      modifies mem
      ensures Valid()
      ensures OnlyIn(old(mem[..]), mem[..], c.addr + HEADER, End(c))
      ensures WordsAt(mem[..], q / 4, n / 4) == WordsAt(old(mem[..]), p / 4, n / 4)
    {
      hide Live, Keeps, Tiled, Stored, Coalesced, WordsAt, Aligned;
      ghost var m := mem[..];
      WordsApart(b, c, n);
      CopyWords(q / 4, p / 4, n / 4);
      Copied(m, mem[..], q / 4, p / 4, n / 4);
      PayloadWrite(m, mem[..], blocks, base, brk, c);
    }

    /** Moves the payload of block b to a new block. */
    method Move(p: u32, size: u32, have: u32, ghost b: Block) returns (q: u32)
      requires Valid() && size <= MAX_REQUEST && b in InUse() && b.addr + HEADER == p && b.size == have < size
      modifies this, mem
      ensures Valid()
      ensures Moved(old(blocks), InUse(), base, old(brk), brk, limit, p, q, size)
      ensures q != 0 ==> WordsAt(mem[..], q / 4, b.size / 4) == WordsAt(old(mem[..]), p / 4, b.size / 4)
      ensures Keeps(old(mem[..]), mem[..], Without(old(InUse()), p), base, brk)
    {
      hide Live, Keeps, Tiled, Stored, Coalesced, Served, Owns, Without, WordsAt;
      ghost var bs, m := blocks, mem[..];
      q := Malloc(size);
      ghost var live, m1 := InUse(), mem[..];
      if q == 0 {
        KeepsFewer(m, m1, Live(bs), p, base, brk);
        return;
      }
      ghost var c := MoveTarget(bs, blocks, b, base, old(brk), brk, limit, q, size);
      CopyPayload(q, p, have, b, c);
      ghost var m2 := mem[..];
      Free(p);
      MoveKeeps(m, m1, m2, mem[..], bs, live, b, c, base, brk);
    }

    /** A block that is large enough stays.  Otherwise the payload moves to where malloc puts it, all
        of it, and the old block is given back; when malloc fails nothing is given back. */
    method Realloc(p: u32, size: u32) returns (q: u32)
      requires Valid() && size <= MAX_REQUEST && (p == 0 || Owns(InUse(), p))
      modifies this, mem
      ensures Valid()
      ensures p == 0 ==> Served(old(blocks), InUse(), base, old(brk), brk, limit, q, size)
      ensures p != 0 && size == 0 ==> q == 0 && InUse() == Without(old(InUse()), p)
      ensures p != 0 && size != 0 ==> forall b :: b in old(InUse()) && b.addr + HEADER == p ==>
        if size <= b.size then q == p && blocks == old(blocks) && mem[..] == old(mem[..])
        else Moved(old(blocks), InUse(), base, old(brk), brk, limit, p, q, size)
             && (q != 0 ==> WordsAt(mem[..], q / 4, b.size / 4) == WordsAt(old(mem[..]), p / 4, b.size / 4))
      ensures Keeps(old(mem[..]), mem[..], Without(old(InUse()), p), base, brk)
    {
      hide Live, Keeps, Tiled, Stored, Coalesced, Served;
      ghost var bs, m := blocks, mem[..];
      WithoutNone(bs);
      if p == 0 {
        q := Malloc(size);
        return;
      }
      if size == 0 {
        Free(p);
        return 0;
      }
      ghost var i := OwnedAt(bs, p, base, brk);
      BlockAt(m, bs, base, brk, i);
      OnlyOwner(bs, base, brk, i);
      var have := mem[(p - HEADER) / 4];
      if have >= size {
        KeepsSelf(m, Without(Live(bs), p), base, brk);
        return p;
      }
      ghost var b := bs[i];
      assert b in Live(bs);
      q := Move(p, size, have, b);
    }
  }

  ghost predicate Moved(bs: seq<Block>, live: set<Block>, base: nat, brk: nat, brk': nat, limit: nat, p: nat,
                        q: nat, size: u32)
  {
    exists between :: Served(bs, between, base, brk, brk', limit, q, size)
                      && live == if q == 0 then between else Without(between, p)
  }

  function WordsAt(m: seq<u32>, k: nat, n: nat): seq<u32> {
    if k + n <= |m| then m[k..k + n] else []
  }

  lemma OnlyOwner(bs: seq<Block>, lo: nat, hi: nat, i: nat)
    requires Tiled(bs, lo, hi) && i < |bs|
    ensures forall b :: b in Live(bs) && b.addr == bs[i].addr ==> b == bs[i]
  {
    forall c | c in Live(bs) && c.addr == bs[i].addr ensures c == bs[i] {
      var j :| 0 <= j < |bs| && bs[j] == c;
      SameStart(bs, lo, hi, i, j);
    }
  }

  lemma KeepsFewer(m: seq<u32>, m': seq<u32>, live: set<Block>, p: nat, lo: nat, hi: nat)
    requires Keeps(m, m', live, lo, hi)
    ensures Keeps(m, m', Without(live, p), lo, hi)
  {
  }

  lemma WordsApart(b: Block, c: Block, n: nat)
    requires Aligned(b) && Aligned(c) && b.size == n < c.size && (End(b) <= c.addr || End(c) <= b.addr)
    ensures (c.addr + HEADER) / 4 + n / 4 <= (b.addr + HEADER) / 4
      || (b.addr + HEADER) / 4 + n / 4 <= (c.addr + HEADER) / 4
    ensures 4 * ((c.addr + HEADER) / 4) == c.addr + HEADER && 4 * ((b.addr + HEADER) / 4) == b.addr + HEADER
    ensures 4 * (n / 4) == n
  {
  }

  lemma Copied(m: seq<u32>, m': seq<u32>, dst: nat, src: nat, n: nat)
    requires |m'| == |m| && dst + n <= |m| && src + n <= |m|
    requires m'[dst..dst + n] == m[src..src + n]
    ensures WordsAt(m', dst, n) == WordsAt(m, src, n)
  {
  }

  /** All blocks that were in use still are, and lie apart from c. */
  ghost predicate Clear(before: set<Block>, live: set<Block>, c: Block) {
    forall d :: d in before ==> d in live && (End(d) <= c.addr || End(c) <= d.addr)
  }

  /** The block malloc gives for a larger size lies apart from the old one, in the heap. */
  lemma MoveTarget(bs: seq<Block>, cs: seq<Block>, b: Block, base: nat, brk: nat, brk': nat, limit: nat, q: nat,
                   size: u32)
    returns (c: Block)
    requires Tiled(bs, base, brk) && Tiled(cs, base, brk') && base % 4 == 0 && size <= MAX_REQUEST
    requires Served(bs, Live(cs), base, brk, brk', limit, q, size) && q != 0
    requires b in Live(bs) && b.size < size
    ensures c in Live(cs) && c.addr + HEADER == q && b.size < c.size && c in cs
    ensures b in Live(cs) && Owns(Live(cs), b.addr + HEADER)
    ensures Clear(Live(bs), Live(cs), c) && (End(b) <= c.addr || End(c) <= b.addr)
    ensures base <= c.addr && End(c) <= brk' && Aligned(c) && base <= b.addr && End(b) <= brk' && Aligned(b)
  {
    ServedMeans(bs, Live(cs), base, brk, brk', limit, q, size);
    c :| c in Live(cs) && c.addr + HEADER == q;
    assert b in Without(Live(cs), q);
    forall d | d in Live(bs) ensures d in Live(cs) && (End(d) <= c.addr || End(c) <= d.addr) {
      assert d in Without(Live(cs), q);
      LiveDisjoint(cs, base, brk', d, c);
    }
    LiveDisjoint(cs, base, brk', b, c);
    LiveDisjoint(cs, base, brk', c, b);
    assert b.size <= c.size;
  }

  lemma PayloadWrite(m: seq<u32>, m': seq<u32>, bs: seq<Block>, lo: nat, hi: nat, c: Block)
    requires Tiled(bs, lo, hi) && Stored(m, bs, 0) && c in bs
    requires OnlyIn(m, m', c.addr + HEADER, End(c))
    ensures Stored(m', bs, 0)
  {
    var i :| 0 <= i < |bs| && bs[i] == c;
    forall k: nat ensures Linked(m', bs, k, 0) {
      if k < |bs| {
        BlockAt(m, bs, lo, hi, k);
        if k < i { Ordered(bs, lo, hi, k, i); }
        if i < k { Ordered(bs, lo, hi, i, k); }
      }
    }
  }

  /** Through the three steps of a move, the payload arrives and the other blocks keep theirs. */
  lemma MoveKeeps(m: seq<u32>, m1: seq<u32>, m2: seq<u32>, m3: seq<u32>, bs: seq<Block>, live: set<Block>,
                  b: Block, c: Block, lo: nat, hi: nat)
    requires Keeps(m, m1, Live(bs), lo, hi) && Keeps(m2, m3, Without(live, b.addr + HEADER), lo, hi)
    requires OnlyIn(m1, m2, c.addr + HEADER, End(c)) && c in live && b in Live(bs) && b.size < c.size
    requires Aligned(b) && Aligned(c) && lo <= b.addr && lo <= c.addr && End(b) <= hi && End(c) <= hi <= 4 * |m|
    requires WordsAt(m2, (c.addr + HEADER) / 4, b.size / 4) == WordsAt(m1, (b.addr + HEADER) / 4, b.size / 4)
    requires Clear(Live(bs), live, c)
    ensures Keeps(m, m3, Without(Live(bs), b.addr + HEADER), lo, hi)
    ensures WordsAt(m3, (c.addr + HEADER) / 4, b.size / 4) == WordsAt(m, (b.addr + HEADER) / 4, b.size / 4)
  {
    assert c in Without(live, b.addr + HEADER) && b in Live(bs);
    var x, y, n := (b.addr + HEADER) / 4, (c.addr + HEADER) / 4, b.size / 4;
    SameWords(m, m1, b, n);
    SameWords(m2, m3, c, n);
    KeepsMoved(m, m1, m2, m3, Live(bs), live, b, c, lo, hi);
  }

  lemma SameWords(m: seq<u32>, m': seq<u32>, b: Block, n: nat)
    requires |m'| == |m| && Aligned(b) && 4 * n <= b.size && End(b) <= 4 * |m|
    requires forall k: nat :: k < |m| && Holds(b, k) ==> m'[k] == m[k]
    ensures WordsAt(m', (b.addr + HEADER) / 4, n) == WordsAt(m, (b.addr + HEADER) / 4, n)
  {
    var x := (b.addr + HEADER) / 4;
    var u, v := m'[x..x + n], m[x..x + n];
    forall k | 0 <= k < n ensures u[k] == v[k] { assert Holds(b, x + k); }
    assert u == v;
  }

  lemma KeepsMoved(m: seq<u32>, m1: seq<u32>, m2: seq<u32>, m3: seq<u32>, before: set<Block>, live: set<Block>,
                   b: Block, c: Block, lo: nat, hi: nat)
    requires Keeps(m, m1, before, lo, hi) && Keeps(m2, m3, Without(live, b.addr + HEADER), lo, hi)
    requires OnlyIn(m1, m2, c.addr + HEADER, End(c)) && lo <= c.addr && End(c) <= hi
    requires Clear(before, live, c)
    ensures Keeps(m, m3, Without(before, b.addr + HEADER), lo, hi)
  {
    forall d, k: nat | d in Without(before, b.addr + HEADER) && k < |m| && Holds(d, k) ensures m3[k] == m[k] {
      assert d in Without(live, b.addr + HEADER);
    }
  }

  lemma ReuseLive(bs: seq<Block>, i: nat, s: nat)
    requires i < |bs| && IsFirstFit(bs, bs[i], s)
    ensures Live(bs) - {bs[i]} == Live(bs)
    ensures Reused(bs, Live(bs) + {bs[i].(free := false)}, bs[i].addr + HEADER, s)
    ensures Coalesced(bs) ==> Coalesced(Marked(bs, i, false))
  {
    var cs := Marked(bs, i, false);
    assert forall j: nat :: FreePair(cs, j) ==> FreePair(bs, j);
  }

  lemma AppendLive(bs: seq<Block>, b: Block)
    requires !b.free
    ensures Live(bs + [b]) == Live(bs) + {b}
  {
  }
}
