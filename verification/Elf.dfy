/** The ELF loader of kernel/elf.c: from program headers to a memory image. */
module Elf {
  import opened Bits
  import opened Bytes
  import opened Pmm
  import opened PageTables
  import opened Vmm

  const ELF_MAGIC: u32 := 0x464C457F
  const EHDR_SIZE := 52
  const PHDR_SIZE := 32
  const PT_LOAD := 1

  // ---- the file ----

  function Half(s: seq<byte>, at: nat): nat
    requires at + 2 <= |s|
  {
    var lo: int, hi: int := s[at], s[at + 1];
    lo + 0x100 * hi
  }

  datatype Ehdr = Ehdr(entry: u32, phoff: u32, phentsize: nat, phnum: nat)

  function EhdrOf(data: seq<byte>): (h: Ehdr)
    requires |data| >= EHDR_SIZE
    ensures h.phentsize < 0x1_0000 && h.phnum < 0x1_0000
  {
    Ehdr(WordAt(data, 24), WordAt(data, 28), Half(data, 42), Half(data, 44))
  }

  /** A 32-bit little-endian executable for the i386 with program headers inside the file. */
  predicate IsExecutable(data: seq<byte>) {
    && |data| >= EHDR_SIZE
    && WordAt(data, 0) == ELF_MAGIC && data[4] == 1 && data[5] == 1
    && Half(data, 16) == 2 && Half(data, 18) == 3
    && var h := EhdrOf(data);
       h.phnum != 0 && h.phoff != 0 && (h.phoff + h.phnum * h.phentsize) % WORD <= |data|
  }

  datatype Phdr = Phdr(typ: u32, offset: u32, vaddr: u32, filesz: u32, memsz: u32, flags: u32)

  function PhdrFrom(s: seq<byte>): Phdr
    requires |s| >= PHDR_SIZE
  {
    Phdr(WordAt(s, 0), WordAt(s, 4), WordAt(s, 8), WordAt(s, 16), WordAt(s, 20), WordAt(s, 24))
  }

  /** Where program header i starts. */
  function PhdrOffset(h: Ehdr, i: nat): nat { h.phoff + i * h.phentsize }

  function PhdrAt(data: seq<byte>, i: nat): Phdr
    requires |data| >= EHDR_SIZE
  {
    var at := PhdrOffset(EhdrOf(data), i);
    if at + PHDR_SIZE <= |data| then PhdrFrom(data[at..]) else Phdr(0, 0, 0, 0, 0, 0)
  }

  // ---- the layout of the records ----

  type u16 = x: int | 0 <= x < 0x1_0000

  function HalfBytes(h: seq<u16>): (s: seq<byte>)
    ensures |s| == 2 * |h|
  {
    seq(2 * |h|, i requires 0 <= i < 2 * |h| => if i % 2 == 0 then h[i / 2] % 0x100 else h[i / 2] / 0x100)
  }

  lemma HalfReads(h: seq<u16>, k: nat, s: seq<byte>, at: nat)
    requires k < |h| && at + 2 * |h| <= |s| && s[at..at + 2 * |h|] == HalfBytes(h)
    ensures Half(s, at + 2 * k) == h[k]
  {
    assert s[at + 2 * k] == HalfBytes(h)[2 * k] && s[at + 2 * k + 1] == HalfBytes(h)[2 * k + 1];
  }

  lemma WordReads(w: seq<u32>, k: nat, s: seq<byte>, at: nat)
    requires k < |w| && at + 4 * |w| <= |s| && s[at..at + 4 * |w|] == WordBytes(w)
    ensures WordAt(s, at + 4 * k) == w[k]
  {
    forall i | 0 <= i < 4 ensures s[at + 4 * k + i] == ByteOf(w[k], i) {
      assert s[at + 4 * k + i] == WordBytes(w)[4 * k + i];
      assert (4 * k + i) / 4 == k && (4 * k + i) % 4 == i;
    }
    WordRoundTrip(w[k], s, at + 4 * k);
  }

  /** The header of a file, with its fields in the order of elf32_ehdr_t. */
  function EhdrFile(ident: seq<byte>, typ: u16, machine: u16, version: u32, entry: u32, phoff: u32, shoff: u32,
                    flags: u32, ehsize: u16, phentsize: u16, phnum: u16, shentsize: u16, shnum: u16, shstrndx: u16,
                    rest: seq<byte>): seq<byte>
  {
    ident + HalfBytes([typ, machine]) + WordBytes([version, entry, phoff, shoff, flags])
    + HalfBytes([ehsize, phentsize, phnum, shentsize, shnum, shstrndx]) + rest
  }

  /** What the loader reads of the file header are its fields, and it accepts exactly the files of magic
      number 7f 45 4c 46, class 1, encoding 1, type 2 and machine 3 that hold their program headers. */
  lemma EhdrLayout(ident: seq<byte>, typ: u16, machine: u16, version: u32, entry: u32, phoff: u32, shoff: u32,
                   flags: u32, ehsize: u16, phentsize: u16, phnum: u16, shentsize: u16, shnum: u16, shstrndx: u16,
                   rest: seq<byte>)
    requires |ident| == 16
    ensures var data := EhdrFile(ident, typ, machine, version, entry, phoff, shoff, flags, ehsize, phentsize,
                                 phnum, shentsize, shnum, shstrndx, rest);
      && |data| == 52 + |rest| && EhdrOf(data) == Ehdr(entry, phoff, phentsize, phnum)
      && (IsExecutable(data) <==>
            && ident[..6] == [0x7f, 0x45, 0x4c, 0x46, 1, 1] && typ == 2 && machine == 3
            && phnum != 0 && phoff != 0 && (phoff + phnum * phentsize) % 0x1_0000_0000 <= 52 + |rest|)
  {
    hide WordAt, Half, WordBytes, HalfBytes;
    var kind, words := [typ, machine], [version, entry, phoff, shoff, flags];
    var counts := [ehsize, phentsize, phnum, shentsize, shnum, shstrndx];
    var data := EhdrFile(ident, typ, machine, version, entry, phoff, shoff, flags, ehsize, phentsize,
                         phnum, shentsize, shnum, shstrndx, rest);
    assert data[16..20] == HalfBytes(kind);
    assert data[20..40] == WordBytes(words);
    assert data[40..52] == HalfBytes(counts);
    HalfReads(kind, 0, data, 16);
    HalfReads(kind, 1, data, 16);
    WordReads(words, 1, data, 20);
    WordReads(words, 2, data, 20);
    HalfReads(counts, 1, data, 40);
    HalfReads(counts, 2, data, 40);
    assert data[..6] == ident[..6];
    MagicBytes(data);
  }

  lemma MagicBytes(data: seq<byte>)
    requires |data| >= EHDR_SIZE
    ensures WordAt(data, 0) == ELF_MAGIC && data[4] == 1 && data[5] == 1 <==>
      data[..6] == [0x7f, 0x45, 0x4c, 0x46, 1, 1]
  {
    var b0: int, b1: int, b2: int, b3: int := data[0], data[1], data[2], data[3];
    assert WordAt(data, 0) == ELF_MAGIC <==> b0 == 0x7f && b1 == 0x45 && b2 == 0x4c && b3 == 0x46;
    assert data[..6] == [data[0], data[1], data[2], data[3], data[4], data[5]];
  }

  /** What the loader reads of program header i are its fields, in the order of elf32_phdr_t. */
  lemma PhdrLayout(front: seq<byte>, typ: u32, offset: u32, vaddr: u32, paddr: u32, filesz: u32, memsz: u32,
                   flags: u32, align: u32, rest: seq<byte>, i: nat)
    requires var data := front + WordBytes([typ, offset, vaddr, paddr, filesz, memsz, flags, align]) + rest;
      |data| >= 52 && |front| == EhdrOf(data).phoff + i * EhdrOf(data).phentsize
    ensures PhdrAt(front + WordBytes([typ, offset, vaddr, paddr, filesz, memsz, flags, align]) + rest, i) ==
      Phdr(typ, offset, vaddr, filesz, memsz, flags)
  {
    hide WordAt, WordBytes, EhdrOf;
    var words := [typ, offset, vaddr, paddr, filesz, memsz, flags, align];
    var data := front + WordBytes(words) + rest;
    var s := data[|front|..];
    assert s[0..32] == WordBytes(words);
    forall k: nat | k < 8 ensures WordAt(s, 0 + 4 * k) == words[k] { WordReads(words, k, s, 0); }
    assert PhdrAt(data, i) == PhdrFrom(s);
    PhdrWords(s, words);
  }

  lemma PhdrWords(s: seq<byte>, w: seq<u32>)
    requires |s| >= PHDR_SIZE && |w| == 8
    requires forall k: nat :: k < 8 ==> WordAt(s, 0 + 4 * k) == w[k]
    ensures PhdrFrom(s) == Phdr(w[0], w[1], w[2], w[4], w[5], w[6])
  {
    hide WordAt;
    assert WordAt(s, 0 + 4 * 0) == w[0] && WordAt(s, 0 + 4 * 1) == w[1] && WordAt(s, 0 + 4 * 2) == w[2];
    assert WordAt(s, 0 + 4 * 4) == w[4] && WordAt(s, 0 + 4 * 5) == w[5] && WordAt(s, 0 + 4 * 6) == w[6];
  }

  /** The header describes memory to be loaded. */
  predicate Loads(p: Phdr) { p.typ == PT_LOAD && p.memsz != 0 }

  function FirstPage(p: Phdr): nat { p.vaddr / PAGE_SIZE }
  function EndPage(p: Phdr): (e: nat)
    ensures e >= FirstPage(p) && e * PAGE_SIZE >= p.vaddr + p.memsz
  {
    (p.vaddr + p.memsz + PAGE_SIZE - 1) / PAGE_SIZE
  }

  predicate InFile(data: seq<byte>, p: Phdr) { p.offset as int + p.filesz <= |data| }

  /** What the loader takes for granted: header entries of full size, no wrap-around at 32 bits,
      no more bytes in the file than in memory, and no page shared by two segments. */
  ghost predicate WellFormed(data: seq<byte>) {
    IsExecutable(data) ==> |data| < WORD && HeadersOk(data, EhdrOf(data))
  }

  ghost predicate HeadersOk(data: seq<byte>, h: Ehdr)
    requires |data| >= EHDR_SIZE
  {
    && h.phentsize >= PHDR_SIZE && h.phoff + h.phnum * h.phentsize < WORD
    && (forall i :: 0 <= i < h.phnum && Loads(PhdrAt(data, i)) ==> SegmentOk(PhdrAt(data, i)))
    && (forall i, j :: 0 <= i < j < h.phnum && Loads(PhdrAt(data, i)) && Loads(PhdrAt(data, j)) ==>
          Apart(PhdrAt(data, i), PhdrAt(data, j)))
  }

  predicate SegmentOk(p: Phdr) {
    && p.filesz <= p.memsz && p.vaddr as int + p.memsz + PAGE_SIZE <= WORD
    && p.offset as int + p.filesz < WORD
  }

  predicate Apart(p: Phdr, q: Phdr) { EndPage(p) <= FirstPage(q) || EndPage(q) <= FirstPage(p) }

  // ---- how far the frames go ----

  /** What matters of memory for mapping: the number of free frames, and which page tables exist. */
  datatype Supply = Supply(free: int, tables: set<nat>)

  /** NoMemory: a page could get no frame, and loading fails.  TableLost: a page table could get
      none, which the mapping code does not notice. */
  datatype Plan = Enough(left: Supply) | NoMemory | TableLost | BadSegment

  function PlanPages(page: nat, end: nat, s: Supply): Plan
    decreases end - page
  {
    if page >= end then Enough(s)
    else if s.free <= 0 then NoMemory
    else if page / ENTRIES in s.tables then PlanPages(page + 1, end, Supply(s.free - 1, s.tables))
    else if s.free == 1 then TableLost
    else PlanPages(page + 1, end, Supply(s.free - 2, s.tables + {page / ENTRIES}))
  }

  function PlanFrom(data: seq<byte>, i: nat, s: Supply): Plan
    requires |data| >= EHDR_SIZE
    decreases EhdrOf(data).phnum - i
  {
    if i >= EhdrOf(data).phnum then Enough(s) else
      var p := PhdrAt(data, i);
      if !Loads(p) then PlanFrom(data, i + 1, s)
      else if !InFile(data, p) then BadSegment
      else
        var r := PlanPages(FirstPage(p), EndPage(p), s);
        if r.Enough? then PlanFrom(data, i + 1, r.left) else r
  }

  // ---- the same in closed form ----

  /** The page tables that pages [page, end) lie in. */
  function TablesOf(page: nat, end: nat): set<nat> {
    set q: nat | page <= q < end :: q / ENTRIES
  }

  /** The frames that pages [page, end) take: one each, and one for each table not among `tables`. */
  function Cost(page: nat, end: nat, tables: set<nat>): int {
    end - page + |TablesOf(page, end) - tables|
  }

  /** All frames are gone in front of page q. */
  predicate OutAt(page: nat, q: nat, end: nat, s: Supply) {
    page <= q < end && s.free == Cost(page, q, s.tables)
  }

  /** Page q takes the last frame, and its table would need one more. */
  predicate LostAt(page: nat, q: nat, end: nat, s: Supply) {
    page <= q < end && q / ENTRIES !in s.tables + TablesOf(page, q) && s.free == Cost(page, q, s.tables) + 1
  }

  ghost predicate RunsOut(page: nat, end: nat, s: Supply) {
    exists q: nat :: OutAt(page, q, end, s)
  }

  ghost predicate LosesTable(page: nat, end: nat, s: Supply) {
    exists q: nat :: LostAt(page, q, end, s)
  }

  lemma SetCost(a: set<nat>, b: set<nat>, t: set<nat>)
    ensures |(a + b) - t| == |a - t| + |b - (t + a)|
  {
    assert (a + b) - t == (a - t) + (b - (t + a));
  }

  lemma CostStep(page: nat, q: nat, tables: set<nat>)
    requires page < q
    ensures TablesOf(page, q) == {page / ENTRIES} + TablesOf(page + 1, q)
    ensures Cost(page, q, tables) ==
      (if page / ENTRIES in tables then 1 else 2) + Cost(page + 1, q, tables + {page / ENTRIES})
  {
    var x := {page / ENTRIES};
    forall k: nat ensures k in TablesOf(page, q) <==> k in x + TablesOf(page + 1, q) {
      if k in TablesOf(page, q) {
        var r: nat :| page <= r < q && r / ENTRIES == k;
        if r != page { assert r / ENTRIES in TablesOf(page + 1, q); }
      }
      if k in x { assert page / ENTRIES in TablesOf(page, q); }
    }
    assert TablesOf(page, q) == x + TablesOf(page + 1, q);
    SetCost(x, TablesOf(page + 1, q), tables);
    assert x - tables == if page / ENTRIES in tables then {} else x;
  }

  lemma CostNone(page: nat, tables: set<nat>)
    ensures TablesOf(page, page) == {} && Cost(page, page, tables) == 0
  {
    assert TablesOf(page, page) == {};
    assert {} - tables == {};
  }

  /** What becomes of the pages of one segment, by counting. */
  lemma {:induction false} PlanPagesExactly(page: nat, end: nat, s: Supply)
    requires page <= end && s.free >= 0
    ensures var r := PlanPages(page, end, s);
      && (r.Enough? <==> s.free >= Cost(page, end, s.tables))
      && (r.Enough? ==> r.left == Supply(s.free - Cost(page, end, s.tables), s.tables + TablesOf(page, end)))
      && (r == NoMemory <==> RunsOut(page, end, s))
      && (r == TableLost <==> LosesTable(page, end, s))
      && r != BadSegment
    decreases end - page
  {
    hide TablesOf, Cost, RunsOut, LosesTable;
    CostNone(page, s.tables);
    if page == end {
      NoStops(page, end, s);
    } else {
      var s' := After(page, s);
      CostStep(page, end, s.tables);
      CostBounds(page + 1, end, s'.tables);
      StopsLater(page, end, s);
      if s'.free < 0 {
        NoStops(page + 1, end, s');
      } else {
        PlanPagesExactly(page + 1, end, s');
        assert page / ENTRIES in s.tables ==> s'.tables == s.tables;
        assert s.tables + TablesOf(page, end) == s'.tables + TablesOf(page + 1, end);
      }
    }
  }

  /** One page, one frame, and no table: the frame goes to the page, and the table gets none. */
  lemma LosesInstance()
    ensures LosesTable(0, 1, Supply(1, {})) && PlanPages(0, 1, Supply(1, {})) == TableLost
  {
    StopsLater(0, 1, Supply(1, {}));
  }

  /** What is left when one page has been mapped. */
  function After(page: nat, s: Supply): Supply {
    Supply(s.free - (if page / ENTRIES in s.tables then 1 else 2), s.tables + {page / ENTRIES})
  }

  lemma CostBounds(page: nat, end: nat, tables: set<nat>)
    requires page <= end
    ensures Cost(page, end, tables) >= 0
  {
  }

  lemma NoStops(page: nat, end: nat, s: Supply)
    requires page >= end || s.free < 0
    ensures !RunsOut(page, end, s) && !LosesTable(page, end, s)
  {
    hide TablesOf, Cost;
    forall q: nat ensures !OutAt(page, q, end, s) && !LostAt(page, q, end, s) {
      if page <= q { CostBounds(page, q, s.tables); }
    }
  }

  /** Where the pages stop is at the first of them, or where the ones behind it stop. */
  lemma StopsLater(page: nat, end: nat, s: Supply)
    requires page < end
    ensures RunsOut(page, end, s) <==> s.free == 0 || RunsOut(page + 1, end, After(page, s))
    ensures LosesTable(page, end, s) <==>
      (page / ENTRIES !in s.tables && s.free == 1) || LosesTable(page + 1, end, After(page, s))
  {
    hide OutAt, LostAt;
    StopsHere(page, end, s);
    var next, s' := page + 1, After(page, s);
    if q: nat :| OutAt(page, q, end, s) { StopsThere(page, q, end, s); }
    if q: nat :| OutAt(next, q, end, s') { StopsThere(page, q, end, s); }
    if q: nat :| LostAt(page, q, end, s) { StopsThere(page, q, end, s); }
    if q: nat :| LostAt(next, q, end, s') { StopsThere(page, q, end, s); }
  }

  lemma StopsHere(page: nat, end: nat, s: Supply)
    requires page < end
    ensures OutAt(page, page, end, s) <==> s.free == 0
    ensures LostAt(page, page, end, s) <==> page / ENTRIES !in s.tables && s.free == 1
    ensures !OutAt(page + 1, page, end, After(page, s)) && !LostAt(page + 1, page, end, After(page, s))
  {
    CostNone(page, s.tables);
  }

  lemma StopsThere(page: nat, q: nat, end: nat, s: Supply)
    requires page < end
    ensures q != page ==> (OutAt(page, q, end, s) <==> OutAt(page + 1, q, end, After(page, s)))
    ensures q != page ==> (LostAt(page, q, end, s) <==> LostAt(page + 1, q, end, After(page, s)))
  {
    hide TablesOf, Cost;
    if page < q {
      CostStep(page, q, s.tables);
      assert s.tables + TablesOf(page, q) == After(page, s).tables + TablesOf(page + 1, q);
    }
  }

  /** The number of pages that header i asks for. */
  function PagesAt(data: seq<byte>, i: nat): nat
    requires |data| >= EHDR_SIZE
  {
    if Loads(PhdrAt(data, i)) then EndPage(PhdrAt(data, i)) - FirstPage(PhdrAt(data, i)) else 0
  }

  /** The page tables that they lie in. */
  function TablesAt(data: seq<byte>, i: nat): set<nat>
    requires |data| >= EHDR_SIZE
  {
    if Loads(PhdrAt(data, i)) then TablesOf(FirstPage(PhdrAt(data, i)), EndPage(PhdrAt(data, i))) else {}
  }

  function PagesTo(data: seq<byte>, i: nat, j: nat): nat
    requires |data| >= EHDR_SIZE
    decreases j - i
  {
    if i >= j then 0 else PagesAt(data, i) + PagesTo(data, i + 1, j)
  }

  function TablesTo(data: seq<byte>, i: nat, j: nat): set<nat>
    requires |data| >= EHDR_SIZE
    decreases j - i
  {
    if i >= j then {} else TablesAt(data, i) + TablesTo(data, i + 1, j)
  }

  /** The frames that the segments i to j - 1 take. */
  function FramesFor(data: seq<byte>, i: nat, j: nat, tables: set<nat>): nat
    requires |data| >= EHDR_SIZE
  {
    PagesTo(data, i, j) + |TablesTo(data, i, j) - tables|
  }

  /** The loadable segments i to j - 1 lie in the file. */
  ghost predicate InFileTo(data: seq<byte>, i: nat, j: nat)
    requires |data| >= EHDR_SIZE
  {
    forall k :: i <= k < j && Loads(PhdrAt(data, k)) ==> InFile(data, PhdrAt(data, k))
  }

  /** What is left for header j when the segments from i on in front of it are loaded. */
  function LeftFor(data: seq<byte>, i: nat, j: nat, s: Supply): Supply
    requires |data| >= EHDR_SIZE
  {
    Supply(s.free - FramesFor(data, i, j, s.tables), s.tables + TablesTo(data, i, j))
  }

  /** The segment of header j takes the last frame with a page whose table would need one more. */
  ghost predicate LosesAt(data: seq<byte>, i: nat, j: nat, s: Supply)
    requires |data| >= EHDR_SIZE
  {
    && i <= j < EhdrOf(data).phnum && Loads(PhdrAt(data, j)) && InFileTo(data, i, j + 1)
    && LosesTable(FirstPage(PhdrAt(data, j)), EndPage(PhdrAt(data, j)), LeftFor(data, i, j, s))
  }

  ghost predicate LosesFrom(data: seq<byte>, i: nat, s: Supply)
    requires |data| >= EHDR_SIZE
  {
    exists j: nat :: LosesAt(data, i, j, s)
  }

  lemma FramesNone(data: seq<byte>, i: nat, s: Supply)
    requires |data| >= EHDR_SIZE
    ensures FramesFor(data, i, i, s.tables) == 0 && LeftFor(data, i, i, s) == s && InFileTo(data, i, i)
  {
    assert {} - s.tables == {} && s.tables + {} == s.tables;
  }

  /** What is left when the segment of header i has been loaded. */
  function Behind(data: seq<byte>, i: nat, s: Supply): Supply
    requires |data| >= EHDR_SIZE
  {
    Supply(s.free - (PagesAt(data, i) + |TablesAt(data, i) - s.tables|), s.tables + TablesAt(data, i))
  }

  lemma BehindIs(data: seq<byte>, i: nat, s: Supply)
    requires |data| >= EHDR_SIZE
    ensures var p := PhdrAt(data, i);
      Behind(data, i, s) ==
        if Loads(p) then
          Supply(s.free - Cost(FirstPage(p), EndPage(p), s.tables), s.tables + TablesOf(FirstPage(p), EndPage(p)))
        else s
  {
    hide TablesOf, PhdrAt, FirstPage, EndPage, Loads;
    assert {} - s.tables == {} && s.tables + {} == s.tables;
  }

  lemma FramesStep(data: seq<byte>, i: nat, j: nat, s: Supply)
    requires |data| >= EHDR_SIZE && i < j
    ensures LeftFor(data, i, j, s) == LeftFor(data, i + 1, j, Behind(data, i, s))
    ensures FramesFor(data, i, j, s.tables) ==
      s.free - Behind(data, i, s).free + FramesFor(data, i + 1, j, Behind(data, i, s).tables)
  {
    hide PagesAt, TablesAt;
    SetCost(TablesAt(data, i), TablesTo(data, i + 1, j), s.tables);
    assert s.tables + (TablesAt(data, i) + TablesTo(data, i + 1, j)) ==
      (s.tables + TablesAt(data, i)) + TablesTo(data, i + 1, j);
  }

  lemma LosesHere(data: seq<byte>, i: nat, s: Supply)
    requires |data| >= EHDR_SIZE && i < EhdrOf(data).phnum
    ensures var p := PhdrAt(data, i);
      LosesAt(data, i, i, s) <==> Loads(p) && InFile(data, p) && LosesTable(FirstPage(p), EndPage(p), s)
  {
    hide LosesTable, LeftFor, PhdrAt, FirstPage, EndPage, Loads, InFile, EhdrOf;
    FramesNone(data, i, s);
  }

  lemma LosesThere(data: seq<byte>, i: nat, j: nat, s: Supply)
    requires |data| >= EHDR_SIZE && i < j
    ensures var p := PhdrAt(data, i);
      LosesAt(data, i, j, s) <==> (Loads(p) ==> InFile(data, p)) && LosesAt(data, i + 1, j, Behind(data, i, s))
  {
    hide LosesTable, LeftFor, PhdrAt, FirstPage, EndPage, Loads, InFile, EhdrOf, Behind, FramesFor;
    FramesStep(data, i, j, s);
    assert InFileTo(data, i, j + 1) <==>
      (Loads(PhdrAt(data, i)) ==> InFile(data, PhdrAt(data, i))) && InFileTo(data, i + 1, j + 1);
  }

  /** A table is lost at header i, or behind it. */
  lemma LosesLater(data: seq<byte>, i: nat, s: Supply)
    requires |data| >= EHDR_SIZE && i < EhdrOf(data).phnum
    ensures var p := PhdrAt(data, i);
      LosesFrom(data, i, s) <==>
        (Loads(p) ==> InFile(data, p))
        && ((Loads(p) && LosesTable(FirstPage(p), EndPage(p), s)) || LosesFrom(data, i + 1, Behind(data, i, s)))
  {
    hide LosesTable, PhdrAt, FirstPage, EndPage, Loads, Behind, InFile, EhdrOf, LosesAt;
    var next, s' := i + 1, Behind(data, i, s);
    LosesHere(data, i, s);
    NotBefore(data, next, s');
    if j: nat :| LosesAt(data, i, j, s) {
      NotBefore(data, i, s);
      if i < j { LosesThere(data, i, j, s); }
    }
    if j: nat :| LosesAt(data, next, j, s') {
      LosesThere(data, i, j, s);
    }
  }

  lemma NotBefore(data: seq<byte>, i: nat, s: Supply)
    requires |data| >= EHDR_SIZE
    ensures forall j: nat :: LosesAt(data, i, j, s) ==> i <= j
  {
    hide LosesTable, LeftFor, PhdrAt, FirstPage, EndPage, Loads, InFile, EhdrOf, InFileTo;
  }

  lemma NoLoss(data: seq<byte>, i: nat, s: Supply)
    requires |data| >= EHDR_SIZE && (i >= EhdrOf(data).phnum || s.free < 0)
    ensures !LosesFrom(data, i, s)
  {
    hide PhdrAt, FirstPage, EndPage, EhdrOf, LosesTable;
    forall j: nat ensures !LosesAt(data, i, j, s) {
      NoStops(0, 0, LeftFor(data, i, j, s));
      if s.free < 0 { NoStops(FirstPage(PhdrAt(data, j)), EndPage(PhdrAt(data, j)), LeftFor(data, i, j, s)); }
    }
  }

  /** What becomes of all segments, by counting: the frames suffice exactly when there are as many as
      the pages and the missing tables. */
  lemma {:induction false} PlanFromExactly(data: seq<byte>, i: nat, s: Supply)
    requires |data| >= EHDR_SIZE && i <= EhdrOf(data).phnum && s.free >= 0
    ensures var n, r := EhdrOf(data).phnum, PlanFrom(data, i, s);
      && (r.Enough? <==> InFileTo(data, i, n) && s.free >= FramesFor(data, i, n, s.tables))
      && (r.Enough? ==> r.left == LeftFor(data, i, n, s))
      && (r == TableLost <==> LosesFrom(data, i, s))
    decreases EhdrOf(data).phnum - i
  {
    hide PhdrAt, FirstPage, EndPage, Loads, InFile, EhdrOf, LosesTable, LosesFrom, TablesOf, Cost, PlanPages, FramesFor,
      LeftFor, Behind;
    var n := EhdrOf(data).phnum;
    FramesNone(data, i, s);
    PlanEnd(data, n, s);
    if i == n {
      NoLoss(data, i, s);
    } else {
      var p, s' := PhdrAt(data, i), Behind(data, i, s);
      PlanHeader(data, i, s);
      FramesStep(data, i, n, s);
      LosesLater(data, i, s);
      BehindIs(data, i, s);
      if Loads(p) { PlanPagesExactly(FirstPage(p), EndPage(p), s); }
      if s'.free >= 0 {
        PlanFromExactly(data, i + 1, s');
      } else {
        NoLoss(data, i + 1, s');
      }
    }
  }

  // ---- the memory image ----

  /** The byte at a virtual address. */
  function VirtualByte(mem: Memory, dir: nat, va: nat): byte {
    var f := FrameOf(Pte(mem, dir, va / PAGE_SIZE));
    if f < |mem| then mem[f][va % PAGE_SIZE] else 0
  }

  type Backing = map<nat, nat>

  /** The pages of `backing` are mapped, each to the frame it names; the frames are distinct, in
      use, and hold no page table. */
  ghost predicate Backed(mem: Memory, dir: nat, used: set<nat>, backing: Backing) {
    && (forall p :: p in backing ==> PageBacked(mem, dir, used, p, backing[p]))
    && (forall p, q :: p in backing && q in backing && p != q ==> backing[p] != backing[q])
  }

  ghost predicate PageBacked(mem: Memory, dir: nat, used: set<nat>, p: nat, f: nat) {
    p < PAGES && Present(Pte(mem, dir, p)) && FrameOf(Pte(mem, dir, p)) == f && f < |mem| && f in used
      && IsData(mem, dir, f)
  }

  /** The segment's bytes, seen through the page tables: those of the file, and then zeros. */
  ghost predicate SegmentLoaded(data: seq<byte>, p: Phdr, mem: Memory, dir: nat) {
    InFile(data, p) && forall k: nat :: k < p.memsz ==> ByteLoaded(data, p, mem, dir, k)
  }

  ghost predicate ByteLoaded(data: seq<byte>, p: Phdr, mem: Memory, dir: nat, k: nat)
    requires InFile(data, p)
  {
    VirtualByte(mem, dir, p.vaddr + k) == if k < p.filesz then data[p.offset + k] else 0
  }

  ghost predicate PagesIn(p: Phdr, backing: Backing) {
    forall q: nat :: FirstPage(p) <= q < EndPage(p) ==> q in backing
  }

  lemma AddressPage(p: Phdr, a: nat)
    requires p.vaddr <= a < p.vaddr + p.memsz
    ensures FirstPage(p) <= a / PAGE_SIZE < EndPage(p)
  {
  }

  /** Storing one byte through the page tables changes that byte, and no other byte of the pages
      in `backing`. */
  lemma ByteStored(mem: Memory, dir: nat, used: set<nat>, backing: Backing, va: nat, b: byte, mem': Memory)
    requires TablesOk(mem, dir, used) && Backed(mem, dir, used, backing) && va / PAGE_SIZE in backing
    requires FrameOf(Pte(mem, dir, va / PAGE_SIZE)) < |mem|
    requires var f := FrameOf(Pte(mem, dir, va / PAGE_SIZE)); mem' == mem[f := mem[f][va % PAGE_SIZE := b]]
    ensures TablesOk(mem', dir, used) && Backed(mem', dir, used, backing)
    ensures forall q: nat :: q < PAGES ==> Pte(mem', dir, q) == Pte(mem, dir, q)
    ensures forall a: nat :: a / PAGE_SIZE in backing ==>
      VirtualByte(mem', dir, a) == if a == va then b else VirtualByte(mem, dir, a)
  {
    hide Words, TablesOk, IsData, Pte;
    assert PageBacked(mem, dir, used, va / PAGE_SIZE, backing[va / PAGE_SIZE]);
    var f := FrameOf(Pte(mem, dir, va / PAGE_SIZE));
    DataWrite(mem, dir, used, f, mem[f][va % PAGE_SIZE := b], mem');
    forall p | p in backing ensures PageBacked(mem', dir, used, p, backing[p]) {
      assert PageBacked(mem, dir, used, p, backing[p]);
    }
    forall a: nat | a / PAGE_SIZE in backing
      ensures VirtualByte(mem', dir, a) == if a == va then b else VirtualByte(mem, dir, a)
    {
      assert PageBacked(mem, dir, used, a / PAGE_SIZE, backing[a / PAGE_SIZE]);
      if a / PAGE_SIZE == va / PAGE_SIZE && a % PAGE_SIZE == va % PAGE_SIZE { assert a == va; }
    }
  }

  /** Mapping one more page to a fresh frame leaves the pages mapped before, and their bytes. */
  lemma PageAdded(mem: Memory, dir: nat, used: set<nat>, backing: Backing, page: nat, f: nat,
                  mem': Memory, used': set<nat>)
    requires Backed(mem, dir, used, backing) && page !in backing && page < PAGES
    requires |mem'| == |mem| && used <= used' && f < |mem| && f !in used && f in used'
    requires Present(Pte(mem', dir, page)) && FrameOf(Pte(mem', dir, page)) == f && IsData(mem', dir, f)
    requires forall q: nat :: q < PAGES && q != page ==> Pte(mem', dir, q) == Pte(mem, dir, q)
    requires forall g: nat :: g in used && IsData(mem, dir, g) && g < |mem| ==>
      mem'[g] == mem[g] && IsData(mem', dir, g)
    ensures Backed(mem', dir, used', backing[page := f])
    ensures forall a: nat :: a / PAGE_SIZE in backing ==> VirtualByte(mem', dir, a) == VirtualByte(mem, dir, a)
  {
    hide Words, IsData, Pte;
    forall p | p in backing ensures PageBacked(mem', dir, used', p, backing[p]) {
      assert PageBacked(mem, dir, used, p, backing[p]);
    }
    forall a: nat | a / PAGE_SIZE in backing ensures VirtualByte(mem', dir, a) == VirtualByte(mem, dir, a) {
      assert PageBacked(mem, dir, used, a / PAGE_SIZE, backing[a / PAGE_SIZE]);
    }
  }

  // ---- the loader ----

  ghost function SupplyOf(m: Machine): Supply
    reads m, m.pmm, m.pmm.bitmap
  {
    Supply(m.FreeFrames(), set k: nat | k < ENTRIES && Present(Pde(m.mem, m.dir, k)))
  }

  ghost predicate Ready(m: Machine, backing: Backing)
    reads m, m.pmm, m.pmm.bitmap
  {
    m.Valid() && Backed(m.mem, m.dir, m.pmm.Used(), backing)
  }

  /** The entries and the bytes of the pages mapped before are as they were. */
  ghost predicate PagesKept(mem: Memory, mem': Memory, dir: nat, backing: Backing) {
    && |mem'| == |mem|
    && (forall q: nat :: q < PAGES && q in backing ==> Pte(mem', dir, q) == Pte(mem, dir, q))
    && (forall a: nat :: a / PAGE_SIZE in backing ==> VirtualByte(mem', dir, a) == VirtualByte(mem, dir, a))
  }

  /** The entry of a page of the segment: present and writable, and a user page if the segment has PF_R. */
  predicate AccessOk(p: Phdr, w: u32) {
    Bit(w, 0) && Bit(w, 1) && (Bit(w, 2) <==> p.flags / 4 % 2 == 1)
  }

  /** All pages of the segment may be accessed as its flags say. */
  ghost predicate Access(p: Phdr, mem: Memory, dir: nat) {
    forall q: nat :: p.vaddr / 4096 <= q < (p.vaddr + p.memsz + 4095) / 4096 ==> AccessOk(p, Pte(mem, dir, q))
  }

  lemma FlagsFit(p: Phdr, w: u32)
    requires forall k: nat :: k < 12 ==> (Bit(w, k) <==> k == 0 || Bit(if p.flags / 4 % 2 == 1 then 7 else 3, k))
    ensures AccessOk(p, w)
  {
    assert Bit(7, 1) && Bit(7, 2) && Bit(3, 1) && !Bit(3, 2);
  }

  lemma FreeExactly(m: Machine)
    requires m.pmm.Valid()
    ensures m.FreeFrames() >= 0
    ensures m.FreeFrames() == 0 <==> m.pmm.Used() == Range(0, m.pmm.maxBlocks)
  {
    TakenCount(m.pmm.bitmap[..]);
  }

  lemma GrownUsed(mem: Memory, dir: nat, used: set<nat>, used': set<nat>)
    requires TablesOk(mem, dir, used) && used <= used'
    ensures TablesOk(mem, dir, used')
  {
    forall k | 0 <= k < ENTRIES && Present(Pde(mem, dir, k))
      ensures IsTable(mem, dir, used', FrameOf(Pde(mem, dir, k)))
    {
      assert IsTable(mem, dir, used, FrameOf(Pde(mem, dir, k)));
    }
  }

  lemma FreshIsData(mem: Memory, dir: nat, used: set<nat>, f: nat)
    requires TablesOk(mem, dir, used) && f !in used
    ensures IsData(mem, dir, f)
  {
    forall k | 0 <= k < ENTRIES && Present(Pde(mem, dir, k)) ensures FrameOf(Pde(mem, dir, k)) != f {
      assert IsTable(mem, dir, used, FrameOf(Pde(mem, dir, k)));
    }
  }

  lemma OneLeft(page: nat, s: Supply)
    requires s.free > 0 && PlanPages(page, page + 1, s) != TableLost
    ensures page / ENTRIES in s.tables || s.free > 1
  {
  }

  lemma OnePage(page: nat, s: Supply, s': Supply)
    requires s.free > 0 && PlanPages(page, page + 1, s) != TableLost
    requires s' == if page / ENTRIES in s.tables then Supply(s.free - 1, s.tables)
                   else Supply(s.free - 2, s.tables + {page / ENTRIES})
    ensures PlanPages(page, page + 1, s) == Enough(s')
  {
  }

  /** One page of a segment: a fresh frame, mapped at the page. */
  method MapFresh(m: Machine, page: nat, flags: nat, ghost backing: Backing) returns (ok: bool, ghost backing': Backing)
    requires Ready(m, backing) && page < PAGES && page !in backing && flags < FLAG_LIMIT
    requires PlanPages(page, page + 1, SupplyOf(m)) != TableLost
    modifies m`mem, m.pmm`usedBlocks, m.pmm.bitmap
    ensures Ready(m, backing') && PagesKept(old(m.mem), m.mem, m.dir, backing)
    ensures old(m.pmm.Used()) <= m.pmm.Used()
    ensures ok <==> old(SupplyOf(m)).free > 0
    ensures ok ==> PlanPages(page, page + 1, old(SupplyOf(m))) == Enough(SupplyOf(m))
    ensures ok ==> forall k: nat :: k < 12 ==> (Bit(Pte(m.mem, m.dir, page), k) <==> k == 0 || Bit(flags, k))
    ensures ok ==>
      && page in backing' && backing' == backing[page := backing'[page]]
      && backing'[page] !in old(m.pmm.Used())
    ensures !ok ==> backing' == backing
  {
    hide TablesOk, Pde, Pte, Words, MakeEntry, PresentFlags, IsData, Backed, TakenSet, Range, VirtualByte, Bit;
    backing' := backing;
    ghost var mem0, used0, supply := m.mem, m.pmm.Used(), SupplyOf(m);
    FreeExactly(m);
    var addr := m.pmm.AllocFrame();
    if addr == 0 { return false, backing'; }
    var f := addr / PAGE_SIZE;
    GrownUsed(m.mem, m.dir, used0, m.pmm.Used());
    assert m.FreeFrames() == supply.free - 1;
    OneLeft(page, supply);
    FreeExactly(m);
    FreshIsData(mem0, m.dir, used0, f);
    m.MapPage(addr, page * PAGE_SIZE, flags);
    assert m.PteOf(page) == Pte(m.mem, m.dir, page);
    forall q: nat | q < PAGES && q != page ensures Pte(m.mem, m.dir, q) == Pte(mem0, m.dir, q) {
      assert m.PteOf(q) == Pte(m.mem, m.dir, q);
    }
    PresentBit(Pte(m.mem, m.dir, page));
    PageAdded(mem0, m.dir, used0, backing, page, f, m.mem, m.pmm.Used());
    backing' := backing[page := f];
    OnePage(page, supply, SupplyOf(m));
    ok := true;
  }

  lemma PresentBit(w: u32)
    ensures Bit(w, 0) ==> Present(w)
  {
  }

  /** The frames that `backing` has and `was` has not were free before. */
  ghost predicate Fresh(was: Backing, backing: Backing, used: set<nat>) {
    forall q :: q in backing && q !in was ==> backing[q] !in used
  }

  /** Pages [page, end), apart from those of `was`, which all stay. */
  ghost predicate Added(was: Backing, backing: Backing, first: nat, page: nat) {
    && (forall q :: q in was ==> q in backing && backing[q] == was[q])
    && (forall q: nat :: q in backing && q !in was <==> first <= q < page)
  }

  lemma PlanStep(page: nat, end: nat, s: Supply)
    requires page < end
    ensures PlanPages(page, page + 1, s) == TableLost ==> PlanPages(page, end, s) == TableLost
    ensures s.free <= 0 ==> PlanPages(page, end, s) == NoMemory
    ensures PlanPages(page, page + 1, s).Enough? ==>
            PlanPages(page, end, s) == PlanPages(page + 1, end, PlanPages(page, page + 1, s).left)
  {
    PlanNone(page + 1, page + 1, Supply(s.free - 1, s.tables));
    PlanNone(page + 1, page + 1, Supply(s.free - 2, s.tables + {page / ENTRIES}));
  }

  lemma KeptTrans(m0: Memory, m1: Memory, m2: Memory, dir: nat, b: Backing, b': Backing)
    requires PagesKept(m0, m1, dir, b) && PagesKept(m1, m2, dir, b')
    requires forall q :: q in b ==> q in b'
    ensures PagesKept(m0, m2, dir, b)
  {
  }

  /** The pages of a segment, each mapped to a frame of its own. */
  method MapSegment(m: Machine, p: Phdr, ghost backing: Backing) returns (ok: bool, ghost backing': Backing)
    requires Ready(m, backing) && SegmentOk(p)
    requires forall q: nat :: FirstPage(p) <= q < EndPage(p) ==> q !in backing
    requires PlanPages(FirstPage(p), EndPage(p), SupplyOf(m)) != TableLost
    modifies m`mem, m.pmm`usedBlocks, m.pmm.bitmap
    ensures Ready(m, backing') && PagesKept(old(m.mem), m.mem, m.dir, backing)
    ensures old(m.pmm.Used()) <= m.pmm.Used() && Fresh(backing, backing', old(m.pmm.Used()))
    ensures ok <==> PlanPages(FirstPage(p), EndPage(p), old(SupplyOf(m))).Enough?
    ensures ok ==>
      && PlanPages(FirstPage(p), EndPage(p), old(SupplyOf(m))) == Enough(SupplyOf(m))
      && Added(backing, backing', FirstPage(p), EndPage(p))
    ensures ok ==> Access(p, m.mem, m.dir)
    ensures !ok ==> PlanPages(FirstPage(p), EndPage(p), old(SupplyOf(m))) == NoMemory
  {
    hide TablesOk, Pde, Pte, Words, IsData, Backed, TakenSet, Range, VirtualByte, PlanPages, FirstPage, EndPage,
      SetBit, PagesKept, Bit, AccessOk, Access;
    backing' := backing;
    var flags := if p.flags / 4 % 2 == 1 then 7 else 3;
    var page, end := FirstPage(p), EndPage(p);
    PageBounds(p);
    ghost var mem0, used0, plan := m.mem, m.pmm.Used(), PlanPages(page, end, SupplyOf(m));
    KeptRefl(m.mem, m.dir, backing);
    while page < end
      invariant FirstPage(p) <= page && (page <= end || page == FirstPage(p))
      invariant Ready(m, backing') && PagesKept(mem0, m.mem, m.dir, backing)
      invariant used0 <= m.pmm.Used() && Fresh(backing, backing', used0)
      invariant Added(backing, backing', FirstPage(p), page)
      invariant PlanPages(page, end, SupplyOf(m)) == plan
      invariant forall q: nat :: FirstPage(p) <= q < page ==> AccessOk(p, Pte(m.mem, m.dir, q))
      decreases end - page
    {
      PlanStep(page, end, SupplyOf(m));
      ghost var mem1, b := m.mem, backing';
      ok, backing' := MapFresh(m, page, flags, b);
      KeptTrans(mem0, mem1, m.mem, m.dir, backing, b);
      if !ok { return; }
      EntriesKept(mem1, m.mem, m.dir, b);
      FlagsFit(p, Pte(m.mem, m.dir, page));
      page := page + 1;
    }
    AccessAll(p, m.mem, m.dir);
    PlanNone(page, end, SupplyOf(m));
    ok := true;
  }

  lemma EntriesKept(mem: Memory, mem': Memory, dir: nat, b: Backing)
    requires PagesKept(mem, mem', dir, b)
    ensures forall q: nat :: q < PAGES && q in b ==> Pte(mem', dir, q) == Pte(mem, dir, q)
  {
  }

  lemma AccessAll(p: Phdr, mem: Memory, dir: nat)
    requires forall q: nat :: FirstPage(p) <= q < EndPage(p) ==> AccessOk(p, Pte(mem, dir, q))
    ensures Access(p, mem, dir)
  {
    hide AccessOk, Pte;
  }

  /** Kept pages may be accessed as before. */
  lemma AccessKept(p: Phdr, mem: Memory, mem': Memory, dir: nat, b: Backing)
    requires Access(p, mem, dir) && SegmentOk(p) && PagesIn(p, b) && PagesKept(mem, mem', dir, b)
    ensures Access(p, mem', dir)
  {
    hide AccessOk, Pte, VirtualByte;
    PageBounds(p);
  }

  lemma KeptRefl(mem: Memory, dir: nat, b: Backing)
    ensures PagesKept(mem, mem, dir, b)
  {
  }

  lemma PlanNone(page: nat, end: nat, s: Supply)
    requires page >= end
    ensures PlanPages(page, end, s) == Enough(s)
  {
  }

  lemma PageBounds(p: Phdr)
    requires SegmentOk(p)
    ensures FirstPage(p) <= EndPage(p) <= PAGES
  {
  }

  /** Bytes from `va` on have been stored; other bytes of the backed pages are as they were. */
  ghost predicate Copied(mem: Memory, mem': Memory, dir: nat, backing: Backing, va: nat, src: seq<byte>) {
    && |mem'| == |mem|
    && (forall q: nat :: q < PAGES ==> Pte(mem', dir, q) == Pte(mem, dir, q))
    && forall a: nat :: a / PAGE_SIZE in backing ==>
         VirtualByte(mem', dir, a) == if va <= a < va + |src| then src[a - va] else VirtualByte(mem, dir, a)
  }

  /** One byte stored at a virtual address. */
  method StoreByte(m: Machine, va: nat, b: byte, ghost backing: Backing)
    requires Ready(m, backing) && va / PAGE_SIZE in backing
    modifies m`mem
    ensures Ready(m, backing) && Copied(old(m.mem), m.mem, m.dir, backing, va, [b])
    ensures SupplyOf(m) == old(SupplyOf(m))
  {
    hide TablesOk, Pte, Words, IsData, Entry;
    assert PageBacked(m.mem, m.dir, m.pmm.Used(), va / PAGE_SIZE, backing[va / PAGE_SIZE]);
    hide PageBacked;
    var f := FrameOf(Pte(m.mem, m.dir, va / PAGE_SIZE));
    DataKeeps(m.mem, m.dir, m.pmm.Used(), f, m.mem[f][va % PAGE_SIZE := b]);
    ByteStored(m.mem, m.dir, m.pmm.Used(), backing, va, b, m.mem[f := m.mem[f][va % PAGE_SIZE := b]]);
    m.mem := m.mem[f := m.mem[f][va % PAGE_SIZE := b]];
  }

  lemma DataKeeps(mem: Memory, dir: nat, used: set<nat>, f: nat, p: Page)
    requires TablesOk(mem, dir, used) && f < |mem| && IsData(mem, dir, f)
    ensures forall k: nat :: k < ENTRIES ==> Pde(mem[f := p], dir, k) == Pde(mem, dir, k)
  {
    DataWrite(mem, dir, used, f, p, mem[f := p]);
  }

  lemma CopiedStep(m0: Memory, m1: Memory, m2: Memory, dir: nat, b: Backing, va: nat, src: seq<byte>, x: byte)
    requires Copied(m0, m1, dir, b, va, src) && Copied(m1, m2, dir, b, va + |src|, [x])
    ensures Copied(m0, m2, dir, b, va, src + [x])
  {
    hide VirtualByte, Pte;
  }

  /** memcpy to virtual addresses. */
  method CopyIn(m: Machine, va: nat, src: seq<byte>, ghost backing: Backing)
    requires Ready(m, backing) && forall a: nat :: va <= a < va + |src| ==> InBacking(backing, a)
    modifies m`mem
    ensures Ready(m, backing) && Copied(old(m.mem), m.mem, m.dir, backing, va, src)
    ensures SupplyOf(m) == old(SupplyOf(m))
  {
    hide Ready, Copied, SupplyOf;
    ghost var mem0 := m.mem;
    CopiedNone(m.mem, m.dir, backing, va);
    var i := 0;
    while i < |src|
      invariant 0 <= i <= |src| && Ready(m, backing)
      invariant Copied(mem0, m.mem, m.dir, backing, va, src[..i])
      invariant SupplyOf(m) == old(SupplyOf(m))
    {
      ghost var mem1 := m.mem;
      assert InBacking(backing, va + i);
      StoreByte(m, va + i, src[i], backing);
      CopiedStep(mem0, mem1, m.mem, m.dir, backing, va, src[..i], src[i]);
      assert src[..i + 1] == src[..i] + [src[i]];
      i := i + 1;
    }
    assert src[..i] == src;
  }

  predicate InBacking(backing: Backing, a: nat) { a / PAGE_SIZE in backing }

  lemma CopiedNone(mem: Memory, dir: nat, b: Backing, va: nat)
    ensures Copied(mem, mem, dir, b, va, [])
  {
  }

  /** The file bytes and then the zeros make the segment. */
  lemma SegmentDone(data: seq<byte>, p: Phdr, m0: Memory, m1: Memory, m2: Memory, dir: nat, b: Backing)
    requires InFile(data, p) && p.filesz <= p.memsz && SegmentOk(p) && PagesIn(p, b)
    requires Copied(m0, m1, dir, b, p.vaddr, data[p.offset..p.offset + p.filesz])
    requires Copied(m1, m2, dir, b, p.vaddr + p.filesz, Zeros(p.memsz - p.filesz))
    ensures SegmentLoaded(data, p, m2, dir)
  {
    hide VirtualByte, FirstPage, EndPage, Pte;
    PageBounds(p);
    forall k: nat | k < p.memsz ensures ByteLoaded(data, p, m2, dir, k) {
      AddressPage(p, p.vaddr + k);
      assert (p.vaddr + k) / PAGE_SIZE in b;
    }
  }

  /** What was copied to one segment's pages leaves the bytes of the other pages. */
  lemma CopyKeeps(m0: Memory, m1: Memory, dir: nat, b: Backing, was: Backing, p: Phdr, va: nat, src: seq<byte>)
    requires SegmentOk(p) && Copied(m0, m1, dir, b, va, src)
    requires p.vaddr <= va && va + |src| <= p.vaddr + p.memsz
    requires forall q :: q in was ==> q in b && !(FirstPage(p) <= q < EndPage(p))
    ensures PagesKept(m0, m1, dir, was)
  {
    hide VirtualByte, FirstPage, EndPage, Pte;
    PageBounds(p);
    forall a: nat | a / PAGE_SIZE in was ensures VirtualByte(m1, dir, a) == VirtualByte(m0, dir, a) {
      if va <= a < va + |src| {
        AddressPage(p, a);
      }
    }
  }

  /** One segment: its pages are mapped, the file's bytes copied, and the rest zeroed. */
  method LoadSegment(m: Machine, data: seq<byte>, p: Phdr, ghost backing: Backing)
    returns (ok: bool, ghost backing': Backing)
    requires Ready(m, backing) && SegmentOk(p) && InFile(data, p)
    requires forall q: nat :: FirstPage(p) <= q < EndPage(p) ==> q !in backing
    requires PlanPages(FirstPage(p), EndPage(p), SupplyOf(m)) != TableLost
    modifies m`mem, m.pmm`usedBlocks, m.pmm.bitmap
    ensures Ready(m, backing') && PagesKept(old(m.mem), m.mem, m.dir, backing)
    ensures old(m.pmm.Used()) <= m.pmm.Used() && Fresh(backing, backing', old(m.pmm.Used()))
    ensures ok <==> PlanPages(FirstPage(p), EndPage(p), old(SupplyOf(m))).Enough?
    ensures ok ==>
      && PlanPages(FirstPage(p), EndPage(p), old(SupplyOf(m))) == Enough(SupplyOf(m))
      && Added(backing, backing', FirstPage(p), EndPage(p))
      && SegmentLoaded(data, p, m.mem, m.dir) && Access(p, m.mem, m.dir)
    ensures !ok ==> PlanPages(FirstPage(p), EndPage(p), old(SupplyOf(m))) == NoMemory
  {
    hide Copied, FirstPage, EndPage, PlanPages, PagesKept, SegmentLoaded, TablesOk, Backed, TakenSet, Pde, Access, Pte;
    ghost var mem0 := m.mem;
    ok, backing' := MapSegment(m, p, backing);
    if !ok { return; }
    PageBounds(p);
    AddedPages(p, backing, backing');
    ghost var mem1 := m.mem;
    CopyIn(m, p.vaddr, data[p.offset..p.offset + p.filesz], backing');
    ghost var mem2 := m.mem;
    CopyIn(m, p.vaddr + p.filesz, Zeros(p.memsz - p.filesz), backing');
    SegmentDone(data, p, mem1, mem2, m.mem, m.dir, backing');
    CopyKeeps(mem1, mem2, m.dir, backing', backing, p, p.vaddr, data[p.offset..p.offset + p.filesz]);
    CopyKeeps(mem2, m.mem, m.dir, backing', backing, p, p.vaddr + p.filesz, Zeros(p.memsz - p.filesz));
    KeptTrans(mem0, mem1, mem2, m.dir, backing, backing);
    KeptTrans(mem0, mem2, m.mem, m.dir, backing, backing);
    CopyAccess(p, mem1, mem2, m.dir, backing', p.vaddr, data[p.offset..p.offset + p.filesz]);
    CopyAccess(p, mem2, m.mem, m.dir, backing', p.vaddr + p.filesz, Zeros(p.memsz - p.filesz));
  }

  lemma CopyAccess(p: Phdr, m0: Memory, m1: Memory, dir: nat, b: Backing, va: nat, src: seq<byte>)
    requires Access(p, m0, dir) && SegmentOk(p) && Copied(m0, m1, dir, b, va, src)
    ensures Access(p, m1, dir)
  {
    hide AccessOk, Pte, VirtualByte;
    PageBounds(p);
  }

  lemma AddedPages(p: Phdr, b: Backing, b': Backing)
    requires SegmentOk(p) && Added(b, b', FirstPage(p), EndPage(p))
    ensures PagesIn(p, b')
    ensures forall a: nat :: p.vaddr <= a < p.vaddr + p.memsz ==> InBacking(b', a)
  {
    hide FirstPage, EndPage;
    forall a: nat | p.vaddr <= a < p.vaddr + p.memsz ensures InBacking(b', a) {
      AddressPage(p, a);
    }
  }

  /** elf_validate. */
  method Validate(data: seq<byte>) returns (r: int)
    requires |data| < WORD
    ensures r == (if IsExecutable(data) then 0 else -1)
  {
    if |data| < EHDR_SIZE { return -1; }
    if WordAt(data, 0) != ELF_MAGIC { return -1; }
    if data[4] != 1 || data[5] != 1 { return -1; }
    if Half(data, 16) != 2 || Half(data, 18) != 3 { return -1; }
    var h := EhdrOf(data);
    if h.phnum == 0 || h.phoff == 0 { return -1; }
    if (h.phoff + h.phnum * h.phentsize) % WORD > |data| { return -1; }
    r := 0;
  }

  /** Every page of `backing` belongs to a segment in front of header i. */
  ghost predicate Covered(data: seq<byte>, i: nat, backing: Backing)
    requires |data| >= EHDR_SIZE
  {
    forall q :: q in backing ==> exists j :: 0 <= j < i && PageOfHeader(data, j, q)
  }

  ghost predicate PageOfHeader(data: seq<byte>, j: nat, q: nat)
    requires |data| >= EHDR_SIZE
  {
    Loads(PhdrAt(data, j)) && FirstPage(PhdrAt(data, j)) <= q < EndPage(PhdrAt(data, j))
  }

  /** The segments in front of header i are in memory, on pages of `backing`. */
  ghost predicate LoadedTo(data: seq<byte>, i: nat, mem: Memory, dir: nat, backing: Backing)
    requires |data| >= EHDR_SIZE
  {
    forall j :: 0 <= j < i && Loads(PhdrAt(data, j)) ==>
      && SegmentLoaded(data, PhdrAt(data, j), mem, dir) && PagesIn(PhdrAt(data, j), backing)
      && Access(PhdrAt(data, j), mem, dir)
  }

  /** If the header asks for memory, its segment is there: the bytes of the file and then zeros at the
      virtual addresses, on pages of `backing` that may be written, and by user code if it has PF_R. */
  ghost predicate Resident(data: seq<byte>, p: Phdr, mem: Memory, dir: nat, backing: Backing) {
    p.typ == 1 && p.memsz != 0 ==>
      && p.offset as int + p.filesz <= |data|
      && (forall a: nat :: p.vaddr <= a < p.vaddr + p.memsz ==>
            VirtualByte(mem, dir, a) == if a - p.vaddr < p.filesz then data[p.offset + (a - p.vaddr)] else 0)
      && (forall q: nat :: p.vaddr / 4096 <= q < (p.vaddr + p.memsz + 4095) / 4096 ==>
            q in backing && Pte(mem, dir, q) / 4096 == backing[q] && AccessOk(p, Pte(mem, dir, q)))
  }

  lemma NotCovered(data: seq<byte>, i: nat, backing: Backing)
    requires |data| >= EHDR_SIZE && HeadersOk(data, EhdrOf(data)) && i < EhdrOf(data).phnum && Loads(PhdrAt(data, i))
    requires Covered(data, i, backing)
    ensures forall q: nat :: FirstPage(PhdrAt(data, i)) <= q < EndPage(PhdrAt(data, i)) ==> q !in backing
  {
    hide PhdrAt, FirstPage, EndPage, Loads;
    assert forall j :: 0 <= j < i && Loads(PhdrAt(data, j)) ==> Apart(PhdrAt(data, j), PhdrAt(data, i));
  }

  lemma StillCovered(data: seq<byte>, i: nat, was: Backing, backing: Backing)
    requires |data| >= EHDR_SIZE && Covered(data, i, was)
    requires if Loads(PhdrAt(data, i)) then Added(was, backing, FirstPage(PhdrAt(data, i)), EndPage(PhdrAt(data, i)))
             else backing == was
    ensures Covered(data, i + 1, backing)
  {
    hide PhdrAt, FirstPage, EndPage, Loads;
    forall q | q in backing ensures exists j :: 0 <= j < i + 1 && PageOfHeader(data, j, q) {
      if q in was {
        var j :| 0 <= j < i && PageOfHeader(data, j, q);
      } else {
        assert PageOfHeader(data, i, q);
      }
    }
  }

  /** A segment whose pages' bytes are kept stays loaded. */
  lemma StillLoaded(data: seq<byte>, p: Phdr, m0: Memory, m1: Memory, dir: nat, was: Backing, backing: Backing)
    requires SegmentLoaded(data, p, m0, dir) && PagesIn(p, was) && SegmentOk(p)
    requires PagesKept(m0, m1, dir, was) && forall q :: q in was ==> q in backing
    ensures SegmentLoaded(data, p, m1, dir) && PagesIn(p, backing)
  {
    hide VirtualByte, FirstPage, EndPage, Pte;
    PageBounds(p);
    forall k: nat | k < p.memsz ensures ByteLoaded(data, p, m1, dir, k) {
      assert ByteLoaded(data, p, m0, dir, k);
      AddressPage(p, p.vaddr + k);
    }
  }

  lemma LoadedNext(data: seq<byte>, i: nat, m0: Memory, m1: Memory, dir: nat, was: Backing, backing: Backing)
    requires |data| >= EHDR_SIZE && HeadersOk(data, EhdrOf(data)) && i < EhdrOf(data).phnum
    requires LoadedTo(data, i, m0, dir, was) && Loads(PhdrAt(data, i))
    requires PagesKept(m0, m1, dir, was) && Added(was, backing, FirstPage(PhdrAt(data, i)), EndPage(PhdrAt(data, i)))
    requires SegmentLoaded(data, PhdrAt(data, i), m1, dir) && Access(PhdrAt(data, i), m1, dir)
    ensures LoadedTo(data, i + 1, m1, dir, backing)
  {
    hide PhdrAt, FirstPage, EndPage, Loads, PagesKept, SegmentLoaded, Access;
    forall j | 0 <= j < i && Loads(PhdrAt(data, j))
      ensures SegmentLoaded(data, PhdrAt(data, j), m1, dir) && PagesIn(PhdrAt(data, j), backing)
      ensures Access(PhdrAt(data, j), m1, dir)
    {
      assert SegmentOk(PhdrAt(data, j));
      StillLoaded(data, PhdrAt(data, j), m0, m1, dir, was, backing);
      AccessKept(PhdrAt(data, j), m0, m1, dir, was);
    }
    PagesAdded(PhdrAt(data, i), was, backing);
  }

  lemma PagesAdded(p: Phdr, was: Backing, backing: Backing)
    requires Added(was, backing, FirstPage(p), EndPage(p))
    ensures PagesIn(p, backing)
  {
  }

  lemma FreshTrans(b0: Backing, b1: Backing, b2: Backing, u0: set<nat>, u1: set<nat>)
    requires Fresh(b0, b1, u0) && Fresh(b1, b2, u1) && u0 <= u1
    requires forall q :: q in b1 && q in b2 ==> b2[q] == b1[q]
    ensures Fresh(b0, b2, u0)
  {
  }

  /** elf_load.  It fails on what is no executable, on a segment that is not in the file and when
      there are fewer frames than pages and missing tables; otherwise every segment is in memory,
      each page in a frame of its own that was free before. */
  method Load(m: Machine, data: seq<byte>) returns (r: int, entry: u32, ghost backing: Backing)
    requires m.Valid() && |data| < WORD && WellFormed(data)
    requires IsExecutable(data) ==> !LosesFrom(data, 0, SupplyOf(m))
    modifies m`mem, m.pmm`usedBlocks, m.pmm.bitmap
    ensures m.Valid() && (r == 0 || r == -1)
    ensures r == 0 <==> (
      && IsExecutable(data) && InFileTo(data, 0, EhdrOf(data).phnum)
      && old(m.FreeFrames()) >= FramesFor(data, 0, EhdrOf(data).phnum, old(SupplyOf(m)).tables))
    ensures r == 0 ==>
      && entry == data[24] + 0x100 * (data[25] + 0x100 * (data[26] + 0x100 * data[27] as int))
      && (forall i :: 0 <= i < EhdrOf(data).phnum ==> Resident(data, PhdrAt(data, i), m.mem, m.dir, backing))
      && Backed(m.mem, m.dir, m.pmm.Used(), backing)
      && Covered(data, EhdrOf(data).phnum, backing)
      && forall q :: q in backing ==> backing[q] !in old(m.pmm.Used())
  {
    hide PlanFrom, PlanPages, TablesOk, Backed, PhdrAt, FirstPage, EndPage, SegmentLoaded, PagesKept, HeadersOk,
      TakenSet, LoadedTo, Covered, Loads, EhdrOf, Pde, FramesFor, InFileTo, LosesFrom, Access, Resident;
    backing, entry := map[], 0;
    r := Validate(data);
    if r != 0 { return -1, entry, backing; }
    var h := EhdrOf(data);
    FreeExactly(m);
    PlanFromExactly(data, 0, SupplyOf(m));
    ghost var used0, plan := m.pmm.Used(), PlanFrom(data, 0, SupplyOf(m));
    NothingYet(data, m.mem, m.dir, m.pmm.Used());
    var i := 0;
    while i < h.phnum
      invariant 0 <= i <= h.phnum && Ready(m, backing)
      invariant PlanFrom(data, i, SupplyOf(m)) == plan
      invariant LoadedTo(data, i, m.mem, m.dir, backing) && Covered(data, i, backing)
      invariant used0 <= m.pmm.Used() && Fresh(map[], backing, used0)
    {
      var p := PhdrAt(data, i);
      ghost var b, mem1, used1 := backing, m.mem, m.pmm.Used();
      PlanHeader(data, i, SupplyOf(m));
      if Loads(p) {
        HeaderOk(data, i);
        if !InFile(data, p) { return -1, entry, backing; }
        NotCovered(data, i, backing);
        var ok;
        ok, backing := LoadSegment(m, data, p, b);
        if !ok { return -1, entry, backing; }
        LoadedNext(data, i, mem1, m.mem, m.dir, b, backing);
        FreshTrans(map[], b, backing, used0, used1);
      } else {
        LoadedSkip(data, i, m.mem, m.dir, backing);
      }
      StillCovered(data, i, b, backing);
      i := i + 1;
    }
    PlanEnd(data, i, SupplyOf(m));
    AllResident(data, m.mem, m.dir, m.pmm.Used(), backing);
    EntryBytes(data);
    entry := h.entry;
    r := 0;
  }

  lemma EntryBytes(data: seq<byte>)
    requires |data| >= EHDR_SIZE
    ensures EhdrOf(data).entry == data[24] + 0x100 * (data[25] + 0x100 * (data[26] + 0x100 * data[27] as int))
  {
  }

  lemma AllResident(data: seq<byte>, mem: Memory, dir: nat, used: set<nat>, backing: Backing)
    requires |data| >= EHDR_SIZE && LoadedTo(data, EhdrOf(data).phnum, mem, dir, backing)
    requires Backed(mem, dir, used, backing)
    ensures forall i :: 0 <= i < EhdrOf(data).phnum ==> Resident(data, PhdrAt(data, i), mem, dir, backing)
  {
    hide PhdrAt, VirtualByte, Pte, EhdrOf, AccessOk, SegmentLoaded, PagesIn, IsData, FirstPage, EndPage;
    forall i | 0 <= i < EhdrOf(data).phnum ensures Resident(data, PhdrAt(data, i), mem, dir, backing) {
      if Loads(PhdrAt(data, i)) { OneResident(data, PhdrAt(data, i), mem, dir, used, backing); }
    }
  }

  lemma OneResident(data: seq<byte>, p: Phdr, mem: Memory, dir: nat, used: set<nat>, backing: Backing)
    requires SegmentLoaded(data, p, mem, dir) && PagesIn(p, backing) && Access(p, mem, dir)
    requires Backed(mem, dir, used, backing)
    ensures Resident(data, p, mem, dir, backing)
  {
    hide VirtualByte, Pte, AccessOk, IsData;
    forall a: nat | p.vaddr <= a < p.vaddr + p.memsz
      ensures VirtualByte(mem, dir, a) == if a - p.vaddr < p.filesz then data[p.offset + (a - p.vaddr)] else 0
    {
      assert ByteLoaded(data, p, mem, dir, a - p.vaddr);
    }
    forall q: nat | p.vaddr / 4096 <= q < (p.vaddr + p.memsz + 4095) / 4096
      ensures q in backing && Pte(mem, dir, q) / 4096 == backing[q] && AccessOk(p, Pte(mem, dir, q))
    {
      assert FirstPage(p) <= q < EndPage(p);
      assert PageBacked(mem, dir, used, q, backing[q]);
    }
  }

  lemma NothingYet(data: seq<byte>, mem: Memory, dir: nat, used: set<nat>)
    requires |data| >= EHDR_SIZE
    ensures Backed(mem, dir, used, map[]) && LoadedTo(data, 0, mem, dir, map[]) && Covered(data, 0, map[])
  {
  }

  lemma LoadedSkip(data: seq<byte>, i: nat, mem: Memory, dir: nat, backing: Backing)
    requires |data| >= EHDR_SIZE && LoadedTo(data, i, mem, dir, backing) && !Loads(PhdrAt(data, i))
    ensures LoadedTo(data, i + 1, mem, dir, backing)
  {
    hide SegmentLoaded, PagesIn, PhdrAt, Loads, Access;
  }

  lemma HeaderOk(data: seq<byte>, i: nat)
    requires |data| >= EHDR_SIZE && HeadersOk(data, EhdrOf(data)) && i < EhdrOf(data).phnum && Loads(PhdrAt(data, i))
    ensures SegmentOk(PhdrAt(data, i))
  {
  }

  lemma PlanHeader(data: seq<byte>, i: nat, s: Supply)
    requires |data| >= EHDR_SIZE && i < EhdrOf(data).phnum
    ensures var p := PhdrAt(data, i); var r := PlanPages(FirstPage(p), EndPage(p), s);
      PlanFrom(data, i, s) ==
        if !Loads(p) then PlanFrom(data, i + 1, s) else if !InFile(data, p) then BadSegment
        else if r.Enough? then PlanFrom(data, i + 1, r.left) else r
  {
    hide PlanPages, PhdrAt;
  }

  lemma PlanEnd(data: seq<byte>, i: nat, s: Supply)
    requires |data| >= EHDR_SIZE && i >= EhdrOf(data).phnum
    ensures PlanFrom(data, i, s) == Enough(s)
  {
  }
}
