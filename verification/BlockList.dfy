/** Memory cut into blocks that lie end to end, each behind a header of three words: its size,
    whether it is free, and the address of the next block.  The kernel heap and the C library's
    heap both keep such a list inside the memory they hand out. */
module BlockList {
  import opened Bits

  const HEADER := 12

  datatype Block = Block(addr: nat, size: nat, free: bool)

  function End(b: Block): nat { b.addr + HEADER + b.size }

  function StartOf(bs: seq<Block>, i: nat, hi: nat): nat {
    if i < |bs| then bs[i].addr else hi
  }

  predicate Aligned(b: Block) { b.addr % 4 == 0 && b.size % 4 == 0 }

  /** Block i reaches to the next one. */
  predicate Joined(bs: seq<Block>, i: nat, hi: nat) {
    i < |bs| ==> Aligned(bs[i]) && End(bs[i]) == StartOf(bs, i + 1, hi)
  }

  /** The blocks cover [lo, hi) exactly, without gap or overlap, in the order of the list. */
  ghost predicate Tiled(bs: seq<Block>, lo: nat, hi: nat) {
    && 0 < lo && hi < WORD
    && StartOf(bs, 0, hi) == lo
    && forall i: nat :: Joined(bs, i, hi)
  }

  predicate FreePair(bs: seq<Block>, i: nat) {
    i + 1 < |bs| && bs[i].free && bs[i + 1].free
  }

  ghost predicate Coalesced(bs: seq<Block>) {
    forall i: nat :: !FreePair(bs, i)
  }

  /** The blocks in use. */
  ghost function Live(bs: seq<Block>): set<Block> {
    set b | b in bs && !b.free
  }

  /** The three words of a header. */
  predicate HeaderAt(m: seq<u32>, b: Block, next: nat) {
    && b.addr / 4 + 2 < |m|
    && m[b.addr / 4] == b.size
    && m[b.addr / 4 + 1] == (if b.free then 1 else 0)
    && m[b.addr / 4 + 2] == next
  }

  predicate Linked(m: seq<u32>, bs: seq<Block>, i: nat, tail: nat) {
    i < |bs| ==> HeaderAt(m, bs[i], StartOf(bs, i + 1, tail))
  }

  /** The headers in memory form the list bs, whose last block points to tail. */
  ghost predicate Stored(m: seq<u32>, bs: seq<Block>, tail: nat) {
    forall i: nat :: Linked(m, bs, i, tail)
  }

  /** Word k of memory belongs to the payload of the block. */
  predicate Holds(b: Block, k: nat) { b.addr + HEADER <= 4 * k < End(b) }

  /** No word changed, except between addresses a and z. */
  predicate OnlyIn(m: seq<u32>, m': seq<u32>, a: nat, z: nat) {
    |m'| == |m| && forall k: nat :: k < |m| && !(a <= 4 * k < z) ==> m'[k] == m[k]
  }

  ghost predicate KeepsBlocks(m: seq<u32>, m': seq<u32>, live: set<Block>) {
    |m'| == |m| && forall b, k: nat :: b in live && k < |m| && Holds(b, k) ==> m'[k] == m[k]
  }

  /** No payload word of the given blocks changed, and no word outside the heap. */
  ghost predicate Keeps(m: seq<u32>, m': seq<u32>, live: set<Block>, lo: nat, hi: nat) {
    OnlyIn(m, m', lo, hi) && KeepsBlocks(m, m', live)
  }

  lemma {:induction false} Ordered(bs: seq<Block>, lo: nat, hi: nat, i: nat, j: nat)
    requires Tiled(bs, lo, hi) && i < j < |bs|
    ensures End(bs[i]) <= bs[j].addr
  {
    assert Joined(bs, j - 1, hi);
    if i + 1 < j { Ordered(bs, lo, hi, i, j - 1); }
  }

  lemma Within(bs: seq<Block>, lo: nat, hi: nat, i: nat)
    requires Tiled(bs, lo, hi) && i < |bs|
    ensures lo <= bs[i].addr && End(bs[i]) <= hi
  {
    if i > 0 { Ordered(bs, lo, hi, 0, i); }
    if i < |bs| - 1 { Ordered(bs, lo, hi, i, |bs| - 1); }
    assert Joined(bs, |bs| - 1, hi);
  }

  /** Blocks of the list are the same if they start at the same address. */
  lemma SameStart(bs: seq<Block>, lo: nat, hi: nat, i: nat, j: nat)
    requires Tiled(bs, lo, hi) && i < |bs| && j < |bs| && bs[i].addr == bs[j].addr
    ensures i == j
  {
    if i < j { Ordered(bs, lo, hi, i, j); }
    if j < i { Ordered(bs, lo, hi, j, i); }
  }

  lemma {:induction false} Locate(bs: seq<Block>, lo: nat, hi: nat, x: nat, n: nat) returns (i: nat)
    requires Tiled(bs, lo, hi) && n <= |bs| && lo <= x < StartOf(bs, n, hi)
    ensures i < n && bs[i].addr <= x < End(bs[i])
  {
    if n > 0 { assert Joined(bs, n - 1, hi); }
    if n == 0 {
      assert false;
    } else if bs[n - 1].addr <= x {
      i := n - 1;
    } else {
      i := Locate(bs, lo, hi, x, n - 1);
    }
  }

  predicate Apart(b: Block, a: nat, n: nat) { a + n <= b.addr || End(b) <= a }

  /** The n bytes at a lie in [lo, hi) and meet no block in use. */
  ghost predicate Gap(live: set<Block>, lo: nat, hi: nat, a: nat, n: nat) {
    lo <= a && a + n <= hi && forall b :: b in live ==> Apart(b, a, n)
  }

  /** There is a place for a header and s bytes. */
  ghost predicate Room(live: set<Block>, lo: nat, hi: nat, s: nat) {
    exists a: nat, n: nat :: n == HEADER + s && Gap(live, lo, hi, a, n)
  }

  predicate Suits(b: Block, s: nat) { b.free && s <= b.size }

  lemma LiveApart(bs: seq<Block>, lo: nat, hi: nat, i: nat)
    requires Tiled(bs, lo, hi) && i < |bs|
    ensures forall b :: b in Live(bs) && b != bs[i] ==> Apart(b, bs[i].addr, HEADER + bs[i].size)
  {
    forall b | b in Live(bs) && b != bs[i] ensures Apart(b, bs[i].addr, HEADER + bs[i].size) {
      var j :| 0 <= j < |bs| && bs[j] == b;
      if j < i { Ordered(bs, lo, hi, j, i); } else { Ordered(bs, lo, hi, i, j); }
    }
  }

  /** A request finds a free block exactly when there is room for it anywhere: a list without two
      free neighbours wastes nothing by its cuts. */
  lemma RoomExactly(bs: seq<Block>, lo: nat, hi: nat, s: nat)
    requires Tiled(bs, lo, hi) && Coalesced(bs)
    ensures (exists i :: 0 <= i < |bs| && Suits(bs[i], s)) <==> Room(Live(bs), lo, hi, s)
  {
    if i :| 0 <= i < |bs| && Suits(bs[i], s) {
      LiveApart(bs, lo, hi, i);
      Within(bs, lo, hi, i);
      assert Gap(Live(bs), lo, hi, bs[i].addr, HEADER + s);
    }
    if Room(Live(bs), lo, hi, s) {
      var a: nat, n: nat :| n == HEADER + s && Gap(Live(bs), lo, hi, a, n);
      assert Joined(bs, |bs|, hi);
      var i := Locate(bs, lo, hi, a, |bs|);
      var b := bs[i];
      assert b in bs && (b.free || b in Live(bs));
      assert Joined(bs, i, hi);
      if i + 1 < |bs| {
        assert !FreePair(bs, i);
        assert bs[i + 1] in Live(bs);
      }
      assert Suits(bs[i], s);
    }
  }

  /** What is in use determines the list: two heaps without free neighbours that have the same
      blocks in use are cut in the same way, whatever calls led to them. */
  lemma Canonical(bs: seq<Block>, cs: seq<Block>, lo: nat, hi: nat)
    requires Tiled(bs, lo, hi) && Tiled(cs, lo, hi) && Coalesced(bs) && Coalesced(cs)
    requires Live(bs) == Live(cs)
    ensures bs == cs
  {
    CanonicalPrefix(bs, cs, lo, hi, |bs|);
    if |bs| < |cs| { Within(cs, lo, hi, |bs|); }
  }

  lemma {:induction false} CanonicalPrefix(bs: seq<Block>, cs: seq<Block>, lo: nat, hi: nat, n: nat)
    requires Tiled(bs, lo, hi) && Tiled(cs, lo, hi) && Coalesced(bs) && Coalesced(cs)
    requires Live(bs) == Live(cs) && n <= |bs|
    ensures n <= |cs| && bs[..n] == cs[..n] && StartOf(bs, n, hi) == StartOf(cs, n, hi)
  {
    if n > 0 {
      CanonicalPrefix(bs, cs, lo, hi, n - 1);
      Within(bs, lo, hi, n - 1);
      assert Joined(bs, n - 1, hi);
      assert Joined(cs, n - 1, hi);
      NotPast(bs, cs, lo, hi, n - 1);
      NotPast(cs, bs, lo, hi, n - 1);
      assert bs[n - 1] == cs[n - 1];
    }
  }

  /** Where two such lists have a block at the same address, it is in use in both or in neither,
      and it does not end later in the second. */
  lemma NotPast(bs: seq<Block>, cs: seq<Block>, lo: nat, hi: nat, i: nat)
    requires Tiled(bs, lo, hi) && Tiled(cs, lo, hi) && Coalesced(bs) && Coalesced(cs)
    requires Live(bs) == Live(cs) && i < |bs| && i < |cs| && bs[i].addr == cs[i].addr
    ensures cs[i].size <= bs[i].size && (cs[i].free ==> bs[i].free)
  {
    if !bs[i].free {
      assert bs[i] in Live(cs);
      var j :| 0 <= j < |cs| && cs[j] == bs[i];
      SameStart(cs, lo, hi, i, j);
    } else if !cs[i].free {
      assert cs[i] in Live(bs);
      var j :| 0 <= j < |bs| && bs[j] == cs[i];
      SameStart(bs, lo, hi, i, j);
    } else if i + 1 < |bs| {
      assert Joined(bs, i, hi);
      assert !FreePair(bs, i);
      assert bs[i + 1] in Live(cs);
      var j :| 0 <= j < |cs| && cs[j] == bs[i + 1];
      if j < i { Ordered(cs, lo, hi, j, i); }
      if i < j { Ordered(cs, lo, hi, i, j); }
    } else {
      assert Joined(bs, i, hi);
      Within(cs, lo, hi, i);
    }
  }

  /** Blocks i to j of the list replaced by others. */
  function Replace(bs: seq<Block>, i: nat, j: nat, mid: seq<Block>): seq<Block>
    requires i <= j <= |bs|
  {
    bs[..i] + mid + bs[j..]
  }

  lemma ReplaceTiled(bs: seq<Block>, lo: nat, hi: nat, i: nat, j: nat, mid: seq<Block>)
    requires Tiled(bs, lo, hi) && i < j <= |bs| && |mid| > 0
    requires Tiled(mid, bs[i].addr, StartOf(bs, j, hi))
    ensures Tiled(Replace(bs, i, j, mid), lo, hi)
  {
    var cs := Replace(bs, i, j, mid);
    forall k: nat | k < |cs| ensures Joined(cs, k, hi) {
      if k < i {
        assert Joined(bs, k, hi);
      } else if k < i + |mid| {
        assert Joined(mid, k - i, StartOf(bs, j, hi));
      } else {
        assert Joined(bs, k - i - |mid| + j, hi);
      }
    }
  }

  /** Replacing blocks rewrites their headers only. */
  lemma ReplaceStored(m: seq<u32>, m': seq<u32>, bs: seq<Block>, lo: nat, hi: nat, i: nat, j: nat, mid: seq<Block>)
    requires Tiled(bs, lo, hi) && i < j <= |bs| && |mid| > 0
    requires Stored(m, bs, 0) && Stored(m', mid, StartOf(bs, j, 0))
    requires Tiled(mid, bs[i].addr, StartOf(bs, j, hi))
    requires OnlyIn(m, m', bs[i].addr, StartOf(bs, j, hi))
    ensures Stored(m', Replace(bs, i, j, mid), 0)
  {
    var cs := Replace(bs, i, j, mid);
    assert Joined(bs, j - 1, hi);
    forall k: nat | k < |cs| ensures Linked(m', cs, k, 0) {
      if k < i {
        assert Linked(m, bs, k, 0) && Joined(bs, k, hi);
        Ordered(bs, lo, hi, k, i);
      } else if k < i + |mid| {
        assert Linked(m', mid, k - i, StartOf(bs, j, 0));
      } else {
        var t := k - i - |mid| + j;
        assert Linked(m, bs, t, 0) && Joined(bs, t, hi) && cs[k] == bs[t];
        Ordered(bs, lo, hi, j - 1, t);
      }
    }
  }

  /** What replacing does to the blocks in use. */
  lemma ReplaceLive(bs: seq<Block>, i: nat, j: nat, mid: seq<Block>)
    requires i <= j <= |bs|
    ensures Live(Replace(bs, i, j, mid)) == Live(bs[..i]) + Live(mid) + Live(bs[j..])
    ensures Live(bs) == Live(bs[..i]) + Live(bs[i..j]) + Live(bs[j..])
  {
    assert bs == bs[..i] + bs[i..j] + bs[j..];
  }

  /** The blocks outside i..j keep every word. */
  lemma OthersKept(m: seq<u32>, m': seq<u32>, bs: seq<Block>, lo: nat, hi: nat, i: nat, j: nat)
    requires Tiled(bs, lo, hi) && i < j <= |bs|
    requires OnlyIn(m, m', bs[i].addr, StartOf(bs, j, hi))
    ensures Keeps(m, m', Live(bs[..i]) + Live(bs[j..]), lo, hi)
  {
    Within(bs, lo, hi, i);
    Within(bs, lo, hi, j - 1);
    assert Joined(bs, j - 1, hi);
    forall b, k: nat | b in Live(bs[..i]) + Live(bs[j..]) && k < |m| && Holds(b, k) ensures m'[k] == m[k] {
      if b in bs[..i] {
        var t :| 0 <= t < i && bs[t] == b;
        Ordered(bs, lo, hi, t, i);
      } else {
        var t :| 0 <= t < |bs[j..]| && bs[j..][t] == b;
        assert bs[j + t] == b;
        Ordered(bs, lo, hi, j - 1, j + t);
      }
    }
  }

  lemma KeepsTrans(m: seq<u32>, m': seq<u32>, m'': seq<u32>, live: set<Block>, lo: nat, hi: nat)
    requires Keeps(m, m', live, lo, hi) && Keeps(m', m'', live, lo, hi)
    ensures Keeps(m, m'', live, lo, hi)
  {
  }

  /** What memory holds where block i starts. */
  lemma BlockAt(m: seq<u32>, bs: seq<Block>, lo: nat, hi: nat, i: nat)
    requires Tiled(bs, lo, hi) && Stored(m, bs, 0) && i < |bs|
    ensures HeaderAt(m, bs[i], StartOf(bs, i + 1, 0)) && Aligned(bs[i])
    ensures lo <= bs[i].addr && End(bs[i]) == StartOf(bs, i + 1, hi) <= hi < WORD && 0 < lo
  {
    assert Linked(m, bs, i, 0) && Joined(bs, i, hi);
    Within(bs, lo, hi, i);
  }

  lemma FirstAt(m: seq<u32>, bs: seq<Block>, lo: nat, hi: nat, i: nat)
    requires Tiled(bs, lo, hi) && Stored(m, bs, 0) && i <= |bs|
    ensures StartOf(bs, i, 0) == 0 <==> i == |bs|
    ensures i < |bs| ==> HeaderAt(m, bs[i], StartOf(bs, i + 1, 0)) && Aligned(bs[i])
  {
    if i < |bs| { BlockAt(m, bs, lo, hi, i); }
  }

  /** The one block that takes the place of two. */
  function Both(b: Block, c: Block): Block { Block(b.addr, b.size + HEADER + c.size, true) }

  /** The list with blocks i and i + 1 made one. */
  function Join(bs: seq<Block>, i: nat): (cs: seq<Block>)
    requires i + 1 < |bs|
    ensures |cs| == |bs| - 1 && cs[i].free
    ensures forall k :: 0 <= k <= i ==> cs[k].addr == bs[k].addr
    ensures forall k :: 0 <= k < i ==> cs[k] == bs[k]
  {
    Replace(bs, i, i + 2, [Both(bs[i], bs[i + 1])])
  }

  lemma BothStored(m: seq<u32>, m': seq<u32>, bs: seq<Block>, lo: nat, hi: nat, i: nat)
    requires Tiled(bs, lo, hi) && FreePair(bs, i) && |m| == |m'|
    requires forall k: nat :: k < |m| && k != bs[i].addr / 4 && k != bs[i].addr / 4 + 2 ==> m'[k] == m[k]
    requires HeaderAt(m', Both(bs[i], bs[i + 1]), StartOf(bs, i + 2, 0))
    ensures Tiled([Both(bs[i], bs[i + 1])], bs[i].addr, StartOf(bs, i + 2, hi))
    ensures Stored(m', [Both(bs[i], bs[i + 1])], StartOf(bs, i + 2, 0))
    ensures OnlyIn(m, m', bs[i].addr, StartOf(bs, i + 2, hi))
  {
    hide Tiled, Stored, HeaderAt, OnlyIn;
    var z := StartOf(bs, i + 2, hi);
    BothJoined(bs, lo, hi, i);
    OneTiled(m', Both(bs[i], bs[i + 1]), z, StartOf(bs, i + 2, 0));
    TwoWords(m, m', bs[i].addr, z);
  }

  lemma BothJoined(bs: seq<Block>, lo: nat, hi: nat, i: nat)
    requires Tiled(bs, lo, hi) && i + 1 < |bs|
    ensures var b, z := Both(bs[i], bs[i + 1]), StartOf(bs, i + 2, hi);
      Aligned(b) && End(b) == z && 0 < b.addr && z < WORD && b.addr % 4 == 0
  {
    assert Joined(bs, i, hi) && Joined(bs, i + 1, hi);
    Within(bs, lo, hi, i + 1);
    Within(bs, lo, hi, i);
    BothAligned(bs[i], bs[i + 1]);
  }

  lemma BothAligned(b: Block, c: Block)
    requires Aligned(b) && Aligned(c) && End(b) == c.addr
    ensures Aligned(Both(b, c)) && End(Both(b, c)) == End(c) && Both(b, c).addr == b.addr && b.addr % 4 == 0
  {
  }

  /** A single block tiles the space up to its end. */
  lemma OneTiled(m: seq<u32>, b: Block, z: nat, next: nat)
    requires Aligned(b) && End(b) == z && 0 < b.addr && z < WORD && HeaderAt(m, b, next)
    ensures Tiled([b], b.addr, z) && Stored(m, [b], next)
  {
    hide HeaderAt;
    assert forall k: nat :: Joined([b], k, z);
  }

  lemma TwoWords(m: seq<u32>, m': seq<u32>, a: nat, z: nat)
    requires |m'| == |m| && a % 4 == 0 && a + HEADER <= z
    requires forall k: nat :: k < |m| && k != a / 4 && k != a / 4 + 2 ==> m'[k] == m[k]
    ensures OnlyIn(m, m', a, z)
  {
  }

  lemma JoinPair(m: seq<u32>, m': seq<u32>, bs: seq<Block>, lo: nat, hi: nat, i: nat)
    requires Tiled(bs, lo, hi) && Stored(m, bs, 0) && FreePair(bs, i) && |m| == |m'|
    requires forall k: nat :: k < |m| && k != bs[i].addr / 4 && k != bs[i].addr / 4 + 2 ==> m'[k] == m[k]
    requires HeaderAt(m', Join(bs, i)[i], StartOf(bs, i + 2, 0))
    ensures Tiled(Join(bs, i), lo, hi) && Stored(m', Join(bs, i), 0)
    ensures Live(Join(bs, i)) == Live(bs) && Keeps(m, m', Live(bs), lo, hi)
  {
    hide Live, Keeps, Tiled, Stored, OnlyIn, HeaderAt;
    var mid := [Both(bs[i], bs[i + 1])];
    assert Join(bs, i) == Replace(bs, i, i + 2, mid) && Join(bs, i)[i] == mid[0];
    BothStored(m, m', bs, lo, hi, i);
    ReplaceTiled(bs, lo, hi, i, i + 2, mid);
    ReplaceStored(m, m', bs, lo, hi, i, i + 2, mid);
    ReplaceLive(bs, i, i + 2, mid);
    OthersKept(m, m', bs, lo, hi, i, i + 2);
    FreeLive(mid);
    FreeLive(bs[i..i + 2]);
    assert Live(bs) == Live(bs[..i]) + Live(bs[i + 2..]);
  }

  lemma FreeLive(bs: seq<Block>)
    requires forall i :: 0 <= i < |bs| ==> bs[i].free
    ensures Live(bs) == {}
  {
  }

  /** One joining step of the walk: the first of two free neighbours takes over the second. */
  method JoinNext(mem: array<u32>, current: u32, ghost bs: seq<Block>, ghost i: nat, ghost lo: nat, ghost hi: nat)
    requires Tiled(bs, lo, hi) && Stored(mem[..], bs, 0) && FreePair(bs, i) && current == bs[i].addr
    modifies mem
    ensures Tiled(Join(bs, i), lo, hi) && Stored(mem[..], Join(bs, i), 0)
    ensures Live(Join(bs, i)) == Live(bs) && Keeps(old(mem[..]), mem[..], Live(bs), lo, hi)
  {
    hide Live, Keeps, Tiled, Stored;
    BlockAt(mem[..], bs, lo, hi, i);
    BlockAt(mem[..], bs, lo, hi, i + 1);
    ghost var m := mem[..];
    var next := mem[current / 4 + 2];
    mem[current / 4] := mem[current / 4] + HEADER + mem[next / 4];
    mem[current / 4 + 2] := mem[next / 4 + 2];
    JoinPair(m, mem[..], bs, lo, hi, i);
  }

  /** Joins neighbouring free blocks in one walk over the list.  The blocks in use stay as they are. */
  method Coalesce(mem: array<u32>, head: u32, ghost bs: seq<Block>, ghost lo: nat, ghost hi: nat)
    returns (ghost cs: seq<Block>)
    requires Tiled(bs, lo, hi) && Stored(mem[..], bs, 0) && head == StartOf(bs, 0, 0)
    modifies mem
    ensures Tiled(cs, lo, hi) && Stored(mem[..], cs, 0) && head == StartOf(cs, 0, 0)
    ensures Coalesced(cs) && Live(cs) == Live(bs)
    ensures Keeps(old(mem[..]), mem[..], Live(bs), lo, hi)
  {
    hide Live, Keeps, Tiled, Stored, Join;
    cs := bs;
    var current := head;
    ghost var i: nat := 0;
    KeepsSelf(mem[..], Live(bs), lo, hi);
    FirstAt(mem[..], cs, lo, hi, 0);
    while current != 0 && mem[current / 4 + 2] != 0
      invariant i <= |cs| && current == StartOf(cs, i, 0) && (current == 0 <==> i == |cs|)
      invariant i < |cs| ==> HeaderAt(mem[..], cs[i], StartOf(cs, i + 1, 0)) && Aligned(cs[i])
      invariant Tiled(cs, lo, hi) && Stored(mem[..], cs, 0) && head == StartOf(cs, 0, 0)
      invariant Live(cs) == Live(bs) && Keeps(old(mem[..]), mem[..], Live(bs), lo, hi)
      invariant forall k: nat :: k < i ==> !FreePair(cs, k)
      decreases |cs| - i
    {
      var next := mem[current / 4 + 2];
      BlockAt(mem[..], cs, lo, hi, i);
      BlockAt(mem[..], cs, lo, hi, i + 1);
      if mem[current / 4 + 1] != 0 && mem[next / 4 + 1] != 0 {
        ghost var m := mem[..];
        JoinNext(mem, current, cs, i, lo, hi);
        KeepsTrans(old(mem[..]), m, mem[..], Live(bs), lo, hi);
        assert forall k: nat :: k < i ==> FreePair(Join(cs, i), k) ==> FreePair(cs, k);
        cs := Join(cs, i);
      } else {
        i := i + 1;
        current := next;
      }
      FirstAt(mem[..], cs, lo, hi, i);
    }
    FirstAt(mem[..], cs, lo, hi, if i < |cs| then i + 1 else i);
    assert forall k: nat :: FreePair(cs, k) ==> k < i;
  }

  lemma KeepsSelf(m: seq<u32>, live: set<Block>, lo: nat, hi: nat)
    ensures Keeps(m, m, live, lo, hi)
  {
  }

  /** Block i marked free or in use. */
  function Marked(bs: seq<Block>, i: nat, free: bool): seq<Block>
    requires i < |bs|
  {
    Replace(bs, i, i + 1, [bs[i].(free := free)])
  }

  lemma MarkBlock(m: seq<u32>, m': seq<u32>, bs: seq<Block>, lo: nat, hi: nat, i: nat, free: bool)
    requires Tiled(bs, lo, hi) && Stored(m, bs, 0) && i < |bs|
    requires |m'| == |m| && bs[i].addr / 4 + 1 < |m| && m'[bs[i].addr / 4 + 1] == if free then 1 else 0
    requires forall k: nat :: k < |m| && k != bs[i].addr / 4 + 1 ==> m'[k] == m[k]
    ensures Tiled(Marked(bs, i, free), lo, hi) && Stored(m', Marked(bs, i, free), 0)
    ensures Live(Marked(bs, i, free)) ==
              if free then Live(bs) - {bs[i]} else Live(bs) - {bs[i]} + {bs[i].(free := false)}
    ensures Keeps(m, m', Live(bs) - {bs[i]}, lo, hi)
  {
    hide Keeps;
    BlockAt(m, bs, lo, hi, i);
    var mid, z := [bs[i].(free := free)], StartOf(bs, i + 1, hi);
    assert forall k: nat :: Joined(mid, k, z);
    ReplaceTiled(bs, lo, hi, i, i + 1, mid);
    ReplaceStored(m, m', bs, lo, hi, i, i + 1, mid);
    ReplaceLive(bs, i, i + 1, mid);
    OthersKept(m, m', bs, lo, hi, i, i + 1);
    var rest := Live(bs[..i]) + Live(bs[i + 1..]);
    assert bs[i] !in rest by { Elsewhere(bs, lo, hi, i); }
    assert bs[i..i + 1] == [bs[i]];
    assert Live(bs) - {bs[i]} == rest;
  }

  lemma Elsewhere(bs: seq<Block>, lo: nat, hi: nat, i: nat)
    requires Tiled(bs, lo, hi) && i < |bs|
    ensures bs[i] !in bs[..i] && bs[i] !in bs[i + 1..]
  {
    forall j: nat | j < |bs| && j != i ensures bs[j] != bs[i] {
      if bs[j] == bs[i] { SameStart(bs, lo, hi, i, j); }
    }
  }

  /** b is the first block of the list that serves a request for s bytes. */
  ghost predicate IsFirstFit(bs: seq<Block>, b: Block, s: nat) {
    b in bs && Suits(b, s) && forall c :: c in bs && Suits(c, s) ==> b.addr <= c.addr
  }

  /** Walks the list to the first free block that is large enough; 0 when there is none. */
  method FindFree(mem: array<u32>, head: u32, s: u32, ghost bs: seq<Block>, ghost lo: nat, ghost hi: nat)
    returns (p: u32, ghost i: nat)
    requires Tiled(bs, lo, hi) && Stored(mem[..], bs, 0) && head == StartOf(bs, 0, 0)
    ensures p == 0 <==> forall b :: b in bs ==> !Suits(b, s)
    ensures p != 0 ==> i < |bs| && bs[i].addr == p && IsFirstFit(bs, bs[i], s)
  {
    hide Tiled, Stored;
    p, i := head, 0;
    FirstAt(mem[..], bs, lo, hi, 0);
    while p != 0
      invariant i <= |bs| && p == StartOf(bs, i, 0) && (p == 0 <==> i == |bs|)
      invariant i < |bs| ==> HeaderAt(mem[..], bs[i], StartOf(bs, i + 1, 0)) && Aligned(bs[i])
      invariant forall j :: 0 <= j < i ==> !Suits(bs[j], s)
      decreases |bs| - i
    {
      if mem[p / 4 + 1] != 0 && mem[p / 4] >= s {
        FirstOf(bs, lo, hi, i, s);
        return;
      }
      FirstAt(mem[..], bs, lo, hi, i + 1);
      p, i := mem[p / 4 + 2], i + 1;
    }
  }

  lemma FirstOf(bs: seq<Block>, lo: nat, hi: nat, i: nat, s: nat)
    requires Tiled(bs, lo, hi) && i < |bs| && Suits(bs[i], s)
    requires forall j :: 0 <= j < i ==> !Suits(bs[j], s)
    ensures IsFirstFit(bs, bs[i], s)
  {
    forall c | c in bs && Suits(c, s) ensures bs[i].addr <= c.addr {
      var j :| 0 <= j < |bs| && bs[j] == c;
      if i < j { Ordered(bs, lo, hi, i, j); }
    }
  }

  /** A size rounded up to whole words, as a 32-bit number. */
  function Align4(size: u32): u32 { (size + 3) % WORD / 4 * 4 }

  /** Rounding up never loses a byte, except that the last three sizes wrap around to 0. */
  lemma Align4Covers(size: u32)
    ensures size <= Align4(size) <==> size <= WORD - 4 || size == 0
    ensures size > WORD - 4 ==> Align4(size) == 0
    ensures Align4(size) % 4 == 0 && Align4(size) < size + 4
  {
  }

  /** The payload at p belongs to a block in use. */
  ghost predicate Owns(live: set<Block>, p: nat) {
    exists b :: b in live && b.addr + HEADER == p
  }

  ghost function Without(live: set<Block>, p: nat): set<Block> {
    set b | b in live && b.addr + HEADER != p
  }

  lemma WithoutNone(bs: seq<Block>)
    ensures Without(Live(bs), 0) == Live(bs)
  {
  }

  lemma OwnedAt(bs: seq<Block>, p: nat, lo: nat, hi: nat) returns (i: nat)
    requires Tiled(bs, lo, hi) && Owns(Live(bs), p)
    ensures i < |bs| && bs[i].addr + HEADER == p && bs[i] in Live(bs)
    ensures Live(bs) - {bs[i]} == Without(Live(bs), p)
  {
    var b :| b in Live(bs) && b.addr + HEADER == p;
    i :| 0 <= i < |bs| && bs[i] == b;
    forall c | c in Live(bs) && c.addr == b.addr ensures c == b {
      var j :| 0 <= j < |bs| && bs[j] == c;
      SameStart(bs, lo, hi, i, j);
    }
  }

  /** Blocks in use do not overlap, and their payloads are whole words of the heap. */
  lemma LiveDisjoint(bs: seq<Block>, lo: nat, hi: nat, b: Block, c: Block)
    requires Tiled(bs, lo, hi) && b in Live(bs) && c in Live(bs)
    ensures b == c || End(b) <= c.addr || End(c) <= b.addr
    ensures lo <= b.addr && End(b) <= hi && Aligned(b)
  {
    var i :| 0 <= i < |bs| && bs[i] == b;
    assert Joined(bs, i, hi);
    Within(bs, lo, hi, i);
    LiveApart(bs, lo, hi, i);
  }
}
