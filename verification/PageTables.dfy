/** Two-level page tables as they lie in physical memory. */
module PageTables {
  import opened Bits
  import opened Bytes
  import opened Pmm

  const ENTRIES := 1024
  const PAGES := 0x10_0000
  const FLAG_LIMIT := 0x1000

  type Page = p: seq<byte> | |p| == PAGE_SIZE witness Zeros(PAGE_SIZE)
  type Memory = seq<Page>

  /** Word i of frame f. */
  function Entry(mem: Memory, f: nat, i: nat): u32 {
    if f < |mem| && i < ENTRIES then Words(mem[f])[i] else 0
  }

  function WithEntry(mem: Memory, f: nat, i: nat, w: u32): (m: Memory)
    requires f < |mem| && i < ENTRIES
    ensures |m| == |mem|
  {
    mem[f := Patch(mem[f], 4 * i, WordBytes([w]))]
  }

  lemma EntryUpdate(mem: Memory, f: nat, i: nat, w: u32, g: nat, j: nat)
    requires f < |mem| && i < ENTRIES
    ensures Entry(WithEntry(mem, f, i, w), g, j) == if g == f && j == i then w else Entry(mem, g, j)
    ensures g < |mem| && g != f ==> WithEntry(mem, f, i, w)[g] == mem[g]
  {
    PatchWord(mem[f], i, w);
  }

  predicate Present(w: u32) { w % 2 == 1 }

  function Pde(mem: Memory, dir: nat, k: nat): u32 { Entry(mem, dir, k) }

  function FrameOf(w: u32): nat { w / PAGE_SIZE }

  /** The page table entry of a page; 0 where there is no table. */
  function Pte(mem: Memory, dir: nat, page: nat): u32 {
    if Present(Pde(mem, dir, page / ENTRIES)) then
      Entry(mem, FrameOf(Pde(mem, dir, page / ENTRIES)), page % ENTRIES)
    else 0
  }

  /** The directory and the page tables lie in distinct frames, all of them in use. */
  ghost predicate TablesOk(mem: Memory, dir: nat, used: set<nat>) {
    && dir < |mem| && dir in used
    && (forall k :: 0 <= k < ENTRIES && Present(Pde(mem, dir, k)) ==>
      IsTable(mem, dir, used, FrameOf(Pde(mem, dir, k))))
    && (forall j, k :: 0 <= j < k < ENTRIES && Present(Pde(mem, dir, j)) && Present(Pde(mem, dir, k)) ==>
          FrameOf(Pde(mem, dir, j)) != FrameOf(Pde(mem, dir, k)))
  }

  ghost predicate IsTable(mem: Memory, dir: nat, used: set<nat>, f: nat) {
    f < |mem| && f in used && f != dir
  }

  /** Frame f holds neither the directory nor a page table. */
  ghost predicate IsData(mem: Memory, dir: nat, f: nat) {
    f != dir && forall k :: 0 <= k < ENTRIES && Present(Pde(mem, dir, k)) ==> FrameOf(Pde(mem, dir, k)) != f
  }

  /** `flags | PAGE_PRESENT`, and with PAGE_WRITABLE too. */
  function PresentFlags(flags: nat): nat { SetBit(flags, 0) }
  function TableFlags(flags: nat): nat { SetBit(SetBit(flags, 0), 1) }

  lemma FlagBits(flags: nat)
    requires flags < FLAG_LIMIT
    ensures PresentFlags(flags) < FLAG_LIMIT && TableFlags(flags) < FLAG_LIMIT
    ensures PresentFlags(flags) % 2 == 1 && TableFlags(flags) % 2 == 1
  {
    assert Pow2(12) == FLAG_LIMIT by { assert Pow2(4) == 16; assert Pow2(8) == 256; }
    BitOpsFit(flags, 0, 12);
    BitOpsFit(SetBit(flags, 0), 1, 12);
    SetBitBits(flags, 0, 0);
    SetBitBits(SetBit(flags, 0), 1, 0);
  }

  /** An entry for a frame: its address or-ed with flags below the page size. */
  function MakeEntry(addr: u32, flags: nat): u32
    requires flags < FLAG_LIMIT
  {
    addr / PAGE_SIZE * PAGE_SIZE + flags
  }

  lemma MadeEntry(addr: u32, flags: nat)
    requires flags < FLAG_LIMIT
    ensures FrameOf(MakeEntry(addr, flags)) == addr / PAGE_SIZE
    ensures Present(MakeEntry(addr, flags)) <==> flags % 2 == 1
  {
  }

  /** The flags of an entry are its bits below 12. */
  lemma MadeBits(addr: u32, flags: nat)
    requires flags < FLAG_LIMIT
    ensures forall k: nat :: k < 12 ==> (Bit(MakeEntry(addr, flags), k) <==> Bit(flags, k))
  {
    assert Pow2(12) == PAGE_SIZE by { assert Pow2(4) == 16; assert Pow2(8) == 256; }
    hide Bit, Pow2;
    forall k: nat | k < 12 ensures Bit(MakeEntry(addr, flags), k) <==> Bit(flags, k) {
      LowBits(addr / PAGE_SIZE, flags, 12, k);
    }
  }

  /** A page's entry has the frame, PAGE_PRESENT and the flags; a table's has PAGE_WRITABLE too. */
  lemma EntryBits(addr: u32, flags: nat)
    requires flags < FLAG_LIMIT
    ensures PresentFlags(flags) < FLAG_LIMIT && MakeEntry(addr, PresentFlags(flags)) / 4096 == addr / 4096
    ensures forall k: nat :: k < 12 ==> (Bit(MakeEntry(addr, PresentFlags(flags)), k) <==> k == 0 || Bit(flags, k))
    ensures forall k: nat :: k < 12 ==> (Bit(TableFlags(flags), k) <==> k <= 1 || Bit(flags, k))
  {
    FlagBits(flags);
    MadeEntry(addr, PresentFlags(flags));
    MadeBits(addr, PresentFlags(flags));
    hide Bit, MakeEntry;
    forall k: nat | k < 12
      ensures Bit(PresentFlags(flags), k) <==> k == 0 || Bit(flags, k)
      ensures Bit(TableFlags(flags), k) <==> k <= 1 || Bit(flags, k)
    {
      SetBitBits(flags, 0, k);
      SetBitBits(SetBit(flags, 0), 1, k);
    }
  }

  // ---- changing one entry ----

  /** A new, empty page table in a fresh frame changes no page's entry. */
  lemma NewTable(mem: Memory, dir: nat, used: set<nat>, k: nat, addr: u32, flags: nat, mem': Memory)
    requires TablesOk(mem, dir, used) && k < ENTRIES && !Present(Pde(mem, dir, k))
    requires flags < FLAG_LIMIT && flags % 2 == 1
    requires addr / PAGE_SIZE < |mem| && addr / PAGE_SIZE !in used
    requires mem' == WithEntry(mem, dir, k, MakeEntry(addr, flags))[addr / PAGE_SIZE := Zeros(PAGE_SIZE)]
    ensures TablesOk(mem', dir, used + {addr / PAGE_SIZE})
    ensures forall j :: 0 <= j < ENTRIES ==>
      Pde(mem', dir, j) == if j == k then MakeEntry(addr, flags) else Pde(mem, dir, j)
    ensures forall q: nat :: q < PAGES ==> Pte(mem', dir, q) == Pte(mem, dir, q)
    ensures forall f: nat :: f < |mem| && f != dir && f in used ==> mem'[f] == mem[f]
  {
    var t, w := addr / PAGE_SIZE, MakeEntry(addr, flags);
    MadeEntry(addr, flags);
    hide Words, MakeEntry;
    forall g: nat, j: nat | g != t ensures Entry(mem', g, j) == if g == dir && j == k then w else Entry(mem, g, j) {
      EntryUpdate(mem, dir, k, w, g, j);
    }
    forall j: nat ensures Entry(mem', t, j) == 0 { ZeroEntry(mem', t, j); }
    forall j | 0 <= j < ENTRIES && Present(Pde(mem', dir, j))
      ensures IsTable(mem', dir, used + {t}, FrameOf(Pde(mem', dir, j)))
      ensures j != k ==> FrameOf(Pde(mem', dir, j)) != t && Pde(mem', dir, j) == Pde(mem, dir, j)
    {
      if j != k { assert IsTable(mem, dir, used, FrameOf(Pde(mem, dir, j))); }
    }
    forall q: nat | q < PAGES ensures Pte(mem', dir, q) == Pte(mem, dir, q) {
      if q / ENTRIES != k && Present(Pde(mem, dir, q / ENTRIES)) {
        assert IsTable(mem, dir, used, FrameOf(Pde(mem, dir, q / ENTRIES)));
      }
    }
    forall f: nat | f < |mem| && f != dir && f in used ensures mem'[f] == mem[f] {
      EntryUpdate(mem, dir, k, w, f, 0);
    }
  }

  lemma ZeroEntry(mem: Memory, f: nat, j: nat)
    requires f < |mem| && mem[f] == Zeros(PAGE_SIZE)
    ensures Entry(mem, f, j) == 0
  {
    WordsOfZeros(PAGE_SIZE);
  }

  /** Writing the entry of one page changes the entry of no other page. */
  lemma SetPte(mem: Memory, dir: nat, used: set<nat>, page: nat, w: u32, mem': Memory)
    requires TablesOk(mem, dir, used) && page < PAGES && Present(Pde(mem, dir, page / ENTRIES))
    requires FrameOf(Pde(mem, dir, page / ENTRIES)) < |mem|
    requires mem' == WithEntry(mem, FrameOf(Pde(mem, dir, page / ENTRIES)), page % ENTRIES, w)
    ensures TablesOk(mem', dir, used)
    ensures forall j :: 0 <= j < ENTRIES ==> Pde(mem', dir, j) == Pde(mem, dir, j)
    ensures forall q: nat :: q < PAGES ==> Pte(mem', dir, q) == if q == page then w else Pte(mem, dir, q)
    ensures forall f: nat :: f < |mem| && IsData(mem, dir, f) ==> mem'[f] == mem[f]
  {
    var t := FrameOf(Pde(mem, dir, page / ENTRIES));
    hide Words;
    assert IsTable(mem, dir, used, t);
    forall g: nat, j: nat ensures Entry(mem', g, j) == if g == t && j == page % ENTRIES then w else Entry(mem, g, j) {
      EntryUpdate(mem, t, page % ENTRIES, w, g, j);
    }
    forall j | 0 <= j < ENTRIES ensures Pde(mem', dir, j) == Pde(mem, dir, j) {}
    forall j | 0 <= j < ENTRIES && Present(Pde(mem', dir, j))
      ensures IsTable(mem', dir, used, FrameOf(Pde(mem', dir, j)))
    {
      assert IsTable(mem, dir, used, FrameOf(Pde(mem, dir, j)));
    }
    forall q: nat | q < PAGES ensures Pte(mem', dir, q) == if q == page then w else Pte(mem, dir, q) {
      if q / ENTRIES == page / ENTRIES && q % ENTRIES == page % ENTRIES { assert q == page; }
    }
    forall f: nat | f < |mem| && IsData(mem, dir, f) ensures mem'[f] == mem[f] {
      EntryUpdate(mem, t, page % ENTRIES, w, f, 0);
    }
  }

  /** Writing to a data frame leaves all translations as they are. */
  lemma DataWrite(mem: Memory, dir: nat, used: set<nat>, f: nat, p: Page, mem': Memory)
    requires TablesOk(mem, dir, used) && f < |mem| && IsData(mem, dir, f) && mem' == mem[f := p]
    ensures TablesOk(mem', dir, used)
    ensures forall k :: 0 <= k < ENTRIES ==> Pde(mem', dir, k) == Pde(mem, dir, k)
    ensures forall q: nat :: q < PAGES ==> Pte(mem', dir, q) == Pte(mem, dir, q)
    ensures forall g: nat :: IsData(mem', dir, g) <==> IsData(mem, dir, g)
  {
    hide Words;
    forall k: nat ensures Pde(mem', dir, k) == Pde(mem, dir, k) {}
    forall q: nat | q < PAGES ensures Pte(mem', dir, q) == Pte(mem, dir, q) {
      if Present(Pde(mem, dir, q / ENTRIES)) {
        assert FrameOf(Pde(mem, dir, q / ENTRIES)) != f;
      }
    }
  }

  lemma TablesThere(mem: Memory, dir: nat, used: set<nat>)
    requires TablesOk(mem, dir, used)
    ensures dir < |mem| && dir in used
    ensures forall k: nat :: k < ENTRIES ==> Pde(mem, dir, k) == Entry(mem, dir, k)
    ensures forall k: nat :: k < ENTRIES && Present(Pde(mem, dir, k)) ==>
      FrameOf(Pde(mem, dir, k)) < |mem| && FrameOf(Pde(mem, dir, k)) in used && FrameOf(Pde(mem, dir, k)) != dir
  {
    forall k: nat | k < ENTRIES && Present(Pde(mem, dir, k))
      ensures FrameOf(Pde(mem, dir, k)) < |mem| && FrameOf(Pde(mem, dir, k)) in used && FrameOf(Pde(mem, dir, k)) != dir
    {
      assert IsTable(mem, dir, used, FrameOf(Pde(mem, dir, k)));
    }
  }

  /** With the same directory entries the same frames hold data. */
  lemma SameTables(mem: Memory, mem': Memory, dir: nat)
    requires forall k :: 0 <= k < ENTRIES ==> Pde(mem', dir, k) == Pde(mem, dir, k)
    ensures forall f: nat :: IsData(mem', dir, f) <==> IsData(mem, dir, f)
  {
  }

  /** A frame in use that holds data still does when the new table lies in a frame not in use. */
  lemma DataKept(mem: Memory, mem': Memory, dir: nat, used: set<nat>, k: nat)
    requires k < ENTRIES
    requires forall j: nat :: j < ENTRIES && j != k ==> Pde(mem', dir, j) == Pde(mem, dir, j)
    requires mem' == mem || (Present(Pde(mem', dir, k)) && FrameOf(Pde(mem', dir, k)) !in used)
    ensures forall f: nat :: f in used && IsData(mem, dir, f) ==> IsData(mem', dir, f)
  {
    forall f: nat | f in used && IsData(mem, dir, f) ensures IsData(mem', dir, f) {
      forall j | 0 <= j < ENTRIES && Present(Pde(mem', dir, j)) ensures FrameOf(Pde(mem', dir, j)) != f {
        if j != k { assert Pde(mem', dir, j) == Pde(mem, dir, j); }
      }
    }
  }
}
