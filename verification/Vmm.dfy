/** The virtual memory manager of kernel/vmm.c. */
module Vmm {
  import opened Bits
  import opened Bytes
  import opened Pmm
  import opened PageTables

  const PAGE_WRITABLE := 2
  const IDENTITY_LIMIT := 0x100_0000      // 16 MiB
  const FB_BASE := 0xfd00_0000
  const FB_SIZE := 0x40_0000              // 4 MiB

  datatype PageOp = Map(phys: u32, page: nat, flags: nat) | Unmap(page: nat)

  /** The entry that an operation leaves in page q. */
  function EntryAfter(entry: u32, op: PageOp, q: nat): u32 {
    match op
    case Map(phys, page, flags) =>
      if q == page && PresentFlags(flags) < FLAG_LIMIT then MakeEntry(phys, PresentFlags(flags)) else entry
    case Unmap(page) => if q == page then 0 else entry
  }

  /** The last of the operations on page q decides its entry. */
  function EntryAfterAll(entry: u32, ops: seq<PageOp>, q: nat): u32 {
    if ops == [] then entry else EntryAfter(EntryAfterAll(entry, ops[..|ops| - 1], q), ops[|ops| - 1], q)
  }

  predicate OpOk(op: PageOp) {
    op.page < PAGES && (op.Map? ==> op.flags < FLAG_LIMIT)
  }

  /** The directory entries that some mapping needs and that have no page table. */
  ghost function Missing(mem: Memory, dir: nat, ops: seq<PageOp>): set<nat> {
    set i | 0 <= i < |ops| && ops[i].Map? && !Present(Pde(mem, dir, ops[i].page / ENTRIES)) :: ops[i].page / ENTRIES
  }

  /** What is missing after the first operation, when a table was made for it if it needed one. */
  lemma MissingAfter(mem: Memory, mem': Memory, dir: nat, ops: seq<PageOp>)
    requires ops != [] && forall i :: 0 <= i < |ops| ==> OpOk(ops[i])
    requires forall k: nat :: k < ENTRIES ==>
      (Present(Pde(mem', dir, k)) <==> Present(Pde(mem, dir, k)) || (ops[0].Map? && k == ops[0].page / ENTRIES))
    ensures Missing(mem', dir, ops[1..]) <= Missing(mem, dir, ops)
    ensures ops[0].Map? ==> ops[0].page / ENTRIES !in Missing(mem', dir, ops[1..])
    ensures ops[0].Map? && !Present(Pde(mem, dir, ops[0].page / ENTRIES)) ==>
      ops[0].page / ENTRIES in Missing(mem, dir, ops) && |Missing(mem', dir, ops[1..])| < |Missing(mem, dir, ops)|
    ensures |Missing(mem', dir, ops[1..])| <= |Missing(mem, dir, ops)|
  {
    hide Pde, Present;
    var m, m', k := Missing(mem, dir, ops), Missing(mem', dir, ops[1..]), ops[0].page / ENTRIES;
    forall x | x in m' ensures x in m {
      var i :| 0 <= i < |ops[1..]| && ops[1..][i].Map? && ops[1..][i].page / ENTRIES == x
               && !Present(Pde(mem', dir, ops[1..][i].page / ENTRIES));
      assert ops[i + 1] == ops[1..][i] && OpOk(ops[i + 1]);
    }
    assert OpOk(ops[0]);
    if ops[0].Map? && !Present(Pde(mem, dir, k)) {
      assert m' <= m - {k};
      Subset(m', m - {k});
      assert |m - {k}| == |m| - 1;
    } else {
      Subset(m', m);
    }
  }

  lemma {:induction false} Subset(a: set<nat>, b: set<nat>)
    requires a <= b
    ensures |a| <= |b|
  {
    if a != {} {
      var x :| x in a;
      Subset(a - {x}, b - {x});
    }
  }

  class Machine {
    var mem: Memory
    var dir: nat
    const pmm: FrameAllocator

    constructor (mem: Memory, pmm: FrameAllocator)
      ensures this.mem == mem && this.pmm == pmm
    {
      this.mem, this.pmm, this.dir := mem, pmm, 0;
    }

    ghost predicate Valid()
      reads this, pmm, pmm.bitmap
    {
      pmm.Valid() && pmm.maxBlocks <= |mem| && TablesOk(mem, dir, pmm.Used())
    }

    ghost function PteOf(page: nat): u32
      reads this
    {
      Pte(mem, dir, page)
    }

    ghost function FreeFrames(): int
      reads pmm, pmm.bitmap
    {
      pmm.maxBlocks - |pmm.Used()|
    }

    /** The directory has a table for the 4 MiB that the page lies in. */
    ghost predicate HasTableFor(page: nat)
      reads this
    {
      Present(Pde(mem, dir, page / ENTRIES))
    }

    /** Gives directory entry k an empty page table in a fresh frame. */
    method MakeTable(k: nat, flags: nat)
      requires Valid() && k < ENTRIES && !Present(Pde(mem, dir, k))
      requires flags < FLAG_LIMIT && flags % 2 == 1
      requires pmm.Used() != Range(0, pmm.maxBlocks)
      modifies this`mem, pmm`usedBlocks, pmm.bitmap
      ensures Valid() && |mem| == |old(mem)|
      ensures forall q: nat :: q < PAGES ==> PteOf(q) == Pte(old(mem), dir, q)
      ensures forall j: nat :: j < ENTRIES && j != k ==> Pde(mem, dir, j) == Pde(old(mem), dir, j)
      ensures Present(Pde(mem, dir, k))
      ensures forall b: nat :: b < 12 ==> (Bit(Pde(mem, dir, k), b) <==> Bit(flags, b))
      ensures FrameOf(Pde(mem, dir, k)) !in old(pmm.Used()) && FrameOf(Pde(mem, dir, k)) < pmm.maxBlocks
      ensures pmm.Used() == old(pmm.Used()) + {FrameOf(Pde(mem, dir, k))}
      ensures forall f: nat :: f in old(pmm.Used()) && f != dir && f < |mem| ==> mem[f] == old(mem)[f]
    {
      hide Pte, Words, MakeEntry, TablesOk, Pde, Entry, WithEntry, Range, Bit;
      ghost var mem0, used := mem, pmm.Used();
      TablesThere(mem, dir, used);
      var addr := pmm.AllocFrame();
      mem := WithEntry(mem, dir, k, MakeEntry(addr, flags));
      mem := mem[addr / PAGE_SIZE := Zeros(PAGE_SIZE)];
      NewTable(mem0, dir, used, k, addr, flags, mem);
      MadeEntry(addr, flags);
      MadeBits(addr, flags);
    }

    /** vmm_map_page: makes a page table if there is none yet, and writes the entry.  The entry has the
        frame of phys, the flags and PAGE_PRESENT; that of a new table has PAGE_WRITABLE too. */
    method MapPage(phys: u32, virt: u32, flags: nat)
      requires Valid() && flags < FLAG_LIMIT
      requires HasTableFor(virt / PAGE_SIZE) || pmm.Used() != Range(0, pmm.maxBlocks)
      modifies this`mem, pmm`usedBlocks, pmm.bitmap
      ensures Valid() && |mem| == |old(mem)|
      ensures forall q: nat :: q < PAGES ==>
        PteOf(q) == EntryAfter(old(PteOf(q)), Map(phys, virt / PAGE_SIZE, flags), q)
      ensures forall k: nat :: k < ENTRIES ==>
        (Present(Pde(mem, dir, k)) <==> Present(Pde(old(mem), dir, k)) || k == virt / PAGE_SIZE / ENTRIES)
      ensures PteOf(virt / 4096) / 4096 == phys / 4096
      ensures forall k: nat :: k < 12 ==> (Bit(PteOf(virt / 4096), k) <==> k == 0 || Bit(flags, k))
      ensures forall q: nat :: q < PAGES && q != virt / 4096 ==> PteOf(q) == old(PteOf(q))
      ensures !old(HasTableFor(virt / PAGE_SIZE)) ==>
        forall k: nat :: k < 12 ==> (Bit(Pde(mem, dir, virt / 0x40_0000), k) <==> k <= 1 || Bit(flags, k))
      ensures forall k: nat :: k < ENTRIES && (k != virt / 0x40_0000 || old(HasTableFor(virt / PAGE_SIZE))) ==>
        Pde(mem, dir, k) == Pde(old(mem), dir, k)
      ensures old(HasTableFor(virt / PAGE_SIZE)) ==> pmm.Used() == old(pmm.Used())
      ensures !old(HasTableFor(virt / PAGE_SIZE)) ==>
        exists t: nat :: t !in old(pmm.Used()) && t < pmm.maxBlocks && pmm.Used() == old(pmm.Used()) + {t}
      ensures forall f: nat :: f in old(pmm.Used()) && IsData(old(mem), dir, f) && f < |mem| ==>
        mem[f] == old(mem)[f] && IsData(mem, dir, f)
    {
      hide Pte, Words, MakeEntry, PresentFlags, TableFlags, TablesOk, Pde, Entry, WithEntry, Bit;
      FlagBits(flags);
      EntryBits(phys, flags);
      assert virt / PAGE_SIZE / ENTRIES == virt / 0x40_0000;
      var k, i := virt / PAGE_SIZE / ENTRIES, virt / PAGE_SIZE % ENTRIES;
      ghost var mem0, used := mem, pmm.Used();
      TablesThere(mem, dir, used);
      if !Present(Entry(mem, dir, k)) {
        MakeTable(k, TableFlags(flags));
      }
      TablesThere(mem, dir, pmm.Used());
      ghost var mem1 := mem;
      var table := FrameOf(Entry(mem, dir, k));
      var w := MakeEntry(phys, PresentFlags(flags));
      mem := WithEntry(mem, table, i, w);
      SetPte(mem1, dir, pmm.Used(), virt / PAGE_SIZE, w, mem);
      DataKept(mem0, mem1, dir, used, k);
      SameTables(mem1, mem, dir);
    }

    /** vmm_unmap_page.  A frame that held a page table is not given back. */
    method UnmapPage(virt: u32)
      requires Valid()
      modifies this`mem
      ensures Valid() && |mem| == |old(mem)|
      ensures forall q: nat :: q < PAGES ==> PteOf(q) == if q == virt / 4096 then 0 else old(PteOf(q))
      ensures forall q: nat :: q < PAGES ==> PteOf(q) == EntryAfter(old(PteOf(q)), Unmap(virt / PAGE_SIZE), q)
      ensures forall k: nat :: k < ENTRIES ==> Pde(mem, dir, k) == Pde(old(mem), dir, k)
      ensures forall f: nat :: f < |mem| && IsData(old(mem), dir, f) ==> mem[f] == old(mem)[f] && IsData(mem, dir, f)
    {
      hide Words, TablesOk, Pde, Entry, WithEntry;
      var k, i := virt / PAGE_SIZE / ENTRIES, virt / PAGE_SIZE % ENTRIES;
      TablesThere(mem, dir, pmm.Used());
      if !Present(Entry(mem, dir, k)) { return; }
      var table := FrameOf(Entry(mem, dir, k));
      mem := WithEntry(mem, table, i, 0);
      SetPte(old(mem), dir, pmm.Used(), virt / PAGE_SIZE, 0, mem);
      SameTables(old(mem), mem, dir);
    }

    /** vmm_get_physical: the frame address of the page, 0 when it was never mapped. */
    method GetPhysical(virt: u32) returns (addr: u32)
      requires Valid()
      ensures addr == PteOf(virt / 4096) / 4096 * 4096
    {
      hide Words, TablesOk, Entry;
      TablesThere(mem, dir, pmm.Used());
      var k, i := virt / PAGE_SIZE / ENTRIES, virt / PAGE_SIZE % ENTRIES;
      if !Present(Entry(mem, dir, k)) { return 0; }
      addr := Entry(mem, FrameOf(Entry(mem, dir, k)), i) / PAGE_SIZE * PAGE_SIZE;
    }

    /** Any run of mappings and unmappings, as long as there is a frame for each page table that the
        mappings still need: each page has the entry that the last operation on it left. */
    method RunOps(ops: seq<PageOp>)
      requires Valid() && (forall i :: 0 <= i < |ops| ==> OpOk(ops[i])) && FreeFrames() >= |Missing(mem, dir, ops)|
      modifies this`mem, pmm`usedBlocks, pmm.bitmap
      ensures Valid()
      ensures forall q: nat :: q < PAGES ==> PteOf(q) == EntryAfterAll(old(PteOf(q)), ops, q)
    {
      hide TablesOk, Pte, Pde, Range, TakenSet, EntryAfter, Missing;
      var i := 0;
      assert ops[0..] == ops;
      while i < |ops|
        invariant 0 <= i <= |ops| && Valid()
        invariant FreeFrames() >= |Missing(mem, dir, ops[i..])|
        invariant forall q: nat :: q < PAGES ==> PteOf(q) == EntryAfterAll(old(PteOf(q)), ops[..i], q)
      {
        assert OpOk(ops[i]);
        assert ops[..i + 1][..i] == ops[..i];
        assert ops[i..][0] == ops[i] && ops[i..][1..] == ops[i + 1..];
        ghost var mem0 := mem;
        NeedsFrame(ops[i..]);
        match ops[i] {
          case Map(phys, page, flags) => MapPage(phys, page * PAGE_SIZE, flags);
          case Unmap(page) => UnmapPage(page * PAGE_SIZE);
        }
        MissingAfter(mem0, mem, dir, ops[i..]);
        i := i + 1;
      }
      assert ops[..i] == ops;
    }

    lemma NeedsFrame(ops: seq<PageOp>)
      requires pmm.Valid() && ops != [] && FreeFrames() >= |Missing(mem, dir, ops)|
      ensures ops[0].Map? && !HasTableFor(ops[0].page) ==> pmm.Used() != Range(0, pmm.maxBlocks)
    {
      if ops[0].Map? && !HasTableFor(ops[0].page) {
        assert ops[0].page / ENTRIES in Missing(mem, dir, ops);
        SomeFree();
      }
    }

    lemma SomeFree()
      requires pmm.Valid() && FreeFrames() > 0
      ensures pmm.Used() != Range(0, pmm.maxBlocks)
    {
      RangeSize(0, pmm.maxBlocks);
    }

    method MapSelf(page: nat)
      requires Valid() && page < PAGES && (HasTableFor(page) || FreeFrames() > 0)
      modifies this`mem, pmm`usedBlocks, pmm.bitmap
      ensures Valid() && |mem| == |old(mem)|
      ensures FreeFrames() == old(FreeFrames()) - (if old(HasTableFor(page)) then 0 else 1)
      ensures forall q: nat :: q < PAGES ==> PteOf(q) == if q == page then Identity(q) else old(PteOf(q))
      ensures forall k: nat :: k < ENTRIES ==>
        (Present(Pde(mem, dir, k)) <==> Present(Pde(old(mem), dir, k)) || k == page / ENTRIES)
    {
      hide TablesOk, Pte, Pde, Range, TakenSet, MakeEntry, PresentFlags, Present, Bit;
      FlagBits(PAGE_WRITABLE);
      if FreeFrames() > 0 { SomeFree(); }
      MapPage(page * PAGE_SIZE, page * PAGE_SIZE, PAGE_WRITABLE);
    }

    /** Maps `count` pages from page `first` on, each to the frame of the same number. */
    method MapIdentity(first: nat, count: nat)
      requires Valid() && first + count <= PAGES && first % ENTRIES == 0 && count % ENTRIES == 0
      requires forall k: nat :: first / ENTRIES <= k < (first + count) / ENTRIES ==> !Present(Pde(mem, dir, k))
      requires FreeFrames() >= count / ENTRIES
      modifies this`mem, pmm`usedBlocks, pmm.bitmap
      ensures Valid() && |mem| == |old(mem)|
      ensures FreeFrames() == old(FreeFrames()) - count / ENTRIES
      ensures forall q: nat :: q < PAGES ==>
        PteOf(q) == if first <= q < first + count then Identity(q) else old(PteOf(q))
      ensures forall k: nat :: k < ENTRIES ==>
        (Present(Pde(mem, dir, k)) <==>
          Present(Pde(old(mem), dir, k)) || first / ENTRIES <= k < (first + count) / ENTRIES)
    {
      hide TablesOk, Pte, Pde, Range, TakenSet, Identity, Present;
      var i := 0;
      while i < count
        invariant 0 <= i <= count && Valid() && |mem| == |old(mem)|
        invariant FreeFrames() == old(FreeFrames()) - (i + ENTRIES - 1) / ENTRIES
        invariant forall q: nat :: q < PAGES ==>
          PteOf(q) == if first <= q < first + i then Identity(q) else old(PteOf(q))
        invariant forall k: nat :: k < ENTRIES ==>
          (Present(Pde(mem, dir, k)) <==>
            Present(Pde(old(mem), dir, k)) || first / ENTRIES <= k < first / ENTRIES + (i + ENTRIES - 1) / ENTRIES)
      {
        MapSelf(first + i);
        i := i + 1;
      }
    }

    /** vmm_init: a fresh directory in which the first 16 MiB and the frame buffer are mapped to
        themselves, and nothing else is. */
    method Init()
      requires pmm.Valid() && pmm.maxBlocks <= |mem| && FreeFrames() >= 6
      modifies this, pmm`usedBlocks, pmm.bitmap
      ensures Valid() && FreeFrames() == old(FreeFrames()) - 6
      ensures forall q: nat :: q < PAGES ==>
        PteOf(q) ==
          if q < IDENTITY_LIMIT / PAGE_SIZE || FB_BASE / PAGE_SIZE <= q < (FB_BASE + FB_SIZE) / PAGE_SIZE
          then q * PAGE_SIZE + 3 else 0
    {
      hide TablesOk, Pte, Pde, Range, TakenSet, MakeEntry, Present;
      SomeFree();
      var addr := pmm.AllocFrame();
      dir := addr / PAGE_SIZE;
      mem := mem[dir := Zeros(PAGE_SIZE)];
      EmptyDirectory(mem, dir, pmm.Used());
      MapIdentity(0, IDENTITY_LIMIT / PAGE_SIZE);
      MapIdentity(FB_BASE / PAGE_SIZE, FB_SIZE / PAGE_SIZE);
      forall q: nat | q < PAGES ensures Identity(q) == q * PAGE_SIZE + 3 { IdentityIs(q); }
    }
  }

  /** The entry of a page mapped writable to the frame of its own number. */
  function Identity(q: nat): u32
    requires q < PAGES
  {
    FlagBits(PAGE_WRITABLE);
    MakeEntry(q * PAGE_SIZE, PresentFlags(PAGE_WRITABLE))
  }

  lemma IdentityIs(q: nat)
    requires q < PAGES
    ensures Identity(q) == q * PAGE_SIZE + 3
  {
    assert PresentFlags(2) == 3;
  }

  lemma EmptyDirectory(mem: Memory, dir: nat, used: set<nat>)
    requires dir < |mem| && dir in used && mem[dir] == Zeros(PAGE_SIZE)
    ensures TablesOk(mem, dir, used)
    ensures forall k: nat :: k < ENTRIES ==> !Present(Pde(mem, dir, k))
    ensures forall q: nat :: q < PAGES ==> Pte(mem, dir, q) == 0
  {
    forall k: nat ensures Pde(mem, dir, k) == 0 { ZeroEntry(mem, dir, k); }
  }
}
