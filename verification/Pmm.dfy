/** The physical memory manager of kernel/pmm.c: one bit for each frame. */
module Pmm {
  import opened Bits

  const PAGE_SIZE := 4096
  const MAX_FRAMES := 0x10_0000        // a 32-bit size in bytes has no more pages

  function Range(lo: nat, n: nat): set<nat> {
    set i: nat | i < lo + n && AtLeast(lo, i)
  }

  lemma RangeStep(lo: nat, n: nat)
    ensures Range(lo, 0) == {}
    ensures Range(lo, n + 1) == Range(lo, n) + {lo + n}
    ensures lo + n !in Range(lo, n)
  {
  }

  /** The value of a 32-bit counter. */
  function Wrap(x: int): u32 { x % WORD }

  lemma WrapMinus(x: int)
    ensures Wrap(Wrap(x) - 1) == Wrap(x - 1)
    ensures 0 <= x < WORD ==> Wrap(x) == x
  {
  }

  predicate AtLeast(lo: nat, i: nat) { lo <= i }

  lemma {:induction false} RangeSize(lo: nat, n: nat)
    ensures |Range(lo, n)| == n
  {
    if n == 0 {
      assert Range(lo, 0) == {};
    } else {
      RangeSize(lo, n - 1);
      assert Range(lo, n) == Range(lo, n - 1) + {lo + n - 1};
    }
  }

  predicate Taken(bm: seq<u32>, i: nat)
    requires i / 32 < |bm|
  {
    Bit(bm[i / 32], i % 32)
  }

  /** The frames whose bit is set. */
  ghost function TakenSet(bm: seq<u32>): set<nat> {
    set i: nat | i < 32 * |bm| && Taken(bm, i)
  }

  lemma TakenUpdate(bm: seq<u32>, i: nat, on: bool) returns (w: u32)
    requires i / 32 < |bm|
    ensures w == if on then SetBit(bm[i / 32], i % 32) else ClearBit(bm[i / 32], i % 32)
    ensures TakenSet(bm[i / 32 := w]) == if on then TakenSet(bm) + {i} else TakenSet(bm) - {i}
  {
    hide Pow2, SetBit, ClearBit, Bit;
    Pow2Word();
    BitOpsFit(bm[i / 32], i % 32, 32);
    w := if on then SetBit(bm[i / 32], i % 32) else ClearBit(bm[i / 32], i % 32);
    var bm' := bm[i / 32 := w];
    forall j: nat | j < 32 * |bm| ensures Taken(bm', j) <==> if j == i then on else Taken(bm, j) {
      SetBitBits(bm[i / 32], i % 32, j % 32);
      ClearBitBits(bm[i / 32], i % 32, j % 32);
    }
  }

  lemma TakenMeaning(bm: seq<u32>, i: nat)
    ensures i in TakenSet(bm) <==> i / 32 < |bm| && Bit(bm[i / 32], i % 32)
  {
  }

  /** A word of the bitmap is all ones exactly when its 32 frames are taken. */
  lemma FullWord(bm: seq<u32>, k: nat)
    requires k < |bm|
    ensures bm[k] == 0xFFFF_FFFF <==> Range(32 * k, 32) <= TakenSet(bm)
  {
    hide Bit, TakenSet, Pow2;
    Pow2Word();
    AllOnes(bm[k], 32);
    var w := bm[k];
    forall i: nat | 32 * k <= i < 32 * k + 32 ensures i in TakenSet(bm) <==> Bit(w, i % 32) { TakenMeaning(bm, i); }
    if AllSet(w, 32) {
      forall i: nat | 32 * k <= i < 32 * k + 32 ensures i in TakenSet(bm) { assert Bit(w, i % 32); }
    } else {
      var j: nat :| j < 32 && !Bit(w, j);
      assert 32 * k + j !in TakenSet(bm);
    }
  }

  lemma TakenCount(bm: seq<u32>)
    ensures |TakenSet(bm)| <= 32 * |bm|
    ensures |TakenSet(bm)| == 32 * |bm| <==> TakenSet(bm) == Range(0, 32 * |bm|)
    ensures TakenSet(bm) <= Range(0, 32 * |bm|)
  {
    var all := Range(0, 32 * |bm|);
    RangeSize(0, 32 * |bm|);
    var rest := all - TakenSet(bm);
    assert TakenSet(bm) + rest == all && TakenSet(bm) !! rest;
    assert |TakenSet(bm)| + |rest| == |all|;
  }

  class FrameAllocator {
    var bitmap: array<u32>
    var maxBlocks: nat
    var usedBlocks: u32

    ghost predicate Sized()
      reads this
    {
      maxBlocks == 32 * bitmap.Length && maxBlocks < MAX_FRAMES
    }

    ghost function Used(): set<nat>
      reads this, bitmap
    {
      TakenSet(bitmap[..])
    }

    /** The count is right, and frame 0 is never to be given out. */
    ghost predicate Valid()
      reads this, bitmap
    {
      Sized() && usedBlocks == |Used()| && (maxBlocks > 0 ==> 0 in Used())
    }

    /** pmm_init: everything is in use at first. */
    constructor (memSize: u32, bitmap: array<u32>)
      requires memSize / PAGE_SIZE == 32 * bitmap.Length
      modifies bitmap
      ensures Valid() && this.bitmap == bitmap && maxBlocks == memSize / PAGE_SIZE
      ensures Used() == Range(0, maxBlocks)
    {
      this.bitmap := bitmap;
      maxBlocks := memSize / PAGE_SIZE;
      usedBlocks := memSize / PAGE_SIZE;
      new;
      forall i | 0 <= i < bitmap.Length { bitmap[i] := 0xFFFF_FFFF; }
      forall i: nat | i < maxBlocks ensures i in Used() { FullWord(bitmap[..], i / 32); }
      TakenCount(bitmap[..]);
      assert Used() == Range(0, maxBlocks);
    }

    method SetFrame(i: nat)
      requires i / 32 < bitmap.Length
      modifies bitmap
      ensures Used() == old(Used()) + {i}
    {
      hide TakenSet, Bit;
      ghost var bm := bitmap[..];
      ghost var w := TakenUpdate(bm, i, true);
      bitmap[i / 32] := SetBit(bitmap[i / 32], i % 32);
      assert bitmap[..] == bm[i / 32 := w];
    }

    method ClearFrame(i: nat)
      requires i / 32 < bitmap.Length
      modifies bitmap
      ensures Used() == old(Used()) - {i}
    {
      hide TakenSet, Bit;
      ghost var bm := bitmap[..];
      ghost var w := TakenUpdate(bm, i, false);
      bitmap[i / 32] := ClearBit(bitmap[i / 32], i % 32);
      assert bitmap[..] == bm[i / 32 := w];
    }

    /** The lowest frame whose bit is clear, or -1. */
    method FirstFree() returns (f: int)
      requires Sized()
      ensures f == -1 <==> Used() == Range(0, maxBlocks)
      ensures f != -1 ==> 0 <= f < maxBlocks && f !in Used() && forall i: nat :: i < f ==> i in Used()
    {
      hide Bit, Taken, TakenSet;
      var k := 0;
      while k < maxBlocks / 32
        invariant 0 <= k <= maxBlocks / 32
        invariant Range(0, 32 * k) <= Used()
      {
        FullWord(bitmap[..], k);
        if bitmap[k] != 0xFFFF_FFFF {
          var j := 0;
          while j < 32
            invariant 0 <= j <= 32
            invariant Range(32 * k, j) <= Used()
          {
            TakenMeaning(bitmap[..], 32 * k + j);
            if !Bit(bitmap[k], j) {
              return 32 * k + j;
            }
            j := j + 1;
          }
          assert false;
        }
        k := k + 1;
      }
      TakenCount(bitmap[..]);
      assert Used() == Range(0, maxBlocks);
      f := -1;
    }

    /** Gives out the lowest free frame, by its address; 0 when all are in use. */
    method AllocFrame() returns (addr: u32)
      requires Valid()
      modifies this`usedBlocks, bitmap
      ensures Valid()
      ensures addr == 0 <==> old(Used()) == Range(0, maxBlocks)
      ensures addr == 0 ==> Used() == old(Used())
      ensures addr != 0 ==>
        && addr % PAGE_SIZE == 0 && addr / PAGE_SIZE < maxBlocks
        && addr / PAGE_SIZE !in old(Used()) && (forall i: nat :: i < addr / PAGE_SIZE ==> i in old(Used()))
        && Used() == old(Used()) + {addr / PAGE_SIZE}
    {
      hide TakenSet;
      TakenCount(bitmap[..]);
      if maxBlocks - usedBlocks == 0 { return 0; }
      var f := FirstFree();
      if f == -1 { assert false; }
      SetFrame(f);
      usedBlocks := usedBlocks + 1;
      addr := f * PAGE_SIZE;
    }

    /** Returns a frame.  The books stay right exactly when it was in use and is not frame 0. */
    method FreeFrame(addr: u32)
      requires Valid() && addr / PAGE_SIZE < maxBlocks
      modifies this`usedBlocks, bitmap
      ensures Used() == old(Used()) - {addr / PAGE_SIZE}
      ensures Valid() <==> addr / PAGE_SIZE in old(Used()) && addr / PAGE_SIZE != 0
    {
      hide TakenSet;
      var f := addr / PAGE_SIZE;
      TakenCount(bitmap[..]);
      ghost var u := Used();
      ClearFrame(f);
      usedBlocks := Wrap(usedBlocks - 1);
      if f in u { assert |u - {f}| == |u| - 1; } else { assert u - {f} == u; }
    }

    /** The loop of InitRegion. */
    method ReleaseFrames(first: nat, count: nat)
      requires Sized() && first + count <= maxBlocks
      modifies this`usedBlocks, bitmap
      ensures Used() == old(Used()) - Range(first, count)
      ensures usedBlocks == Wrap(old(usedBlocks) - count)
    {
      hide TakenSet, Range, Wrap;
      var align, blocks := first, count;
      ghost var u: set<nat>, n: nat, k: nat := Used(), usedBlocks, 0;
      WrapMinus(n);
      RangeStep(first, 0);
      while blocks > 0
        invariant blocks >= 0 && k + blocks == count && align == first + k
        invariant Used() == u - Range(first, k)
        invariant usedBlocks == Wrap(n - k)
      {
        WrapMinus(n - k);
        RangeStep(first, k);
        ClearFrame(align);
        align := align + 1;
        usedBlocks := Wrap(usedBlocks - 1);
        blocks, k := blocks - 1, k + 1;
      }
    }

    /** Makes the frames of a region available; frame 0 stays in use.  The books stay right exactly
        when all the frames were in use and frame 0 is not among them. */
    method InitRegion(base: u32, size: u32)
      requires Valid() && base / PAGE_SIZE + size / PAGE_SIZE <= maxBlocks && maxBlocks > 0
      modifies this`usedBlocks, bitmap
      ensures Sized() && Used() == old(Used()) - Range(base / PAGE_SIZE, size / PAGE_SIZE) + {0}
      ensures Valid() <==>
        Range(base / PAGE_SIZE, size / PAGE_SIZE) <= old(Used()) && 0 !in Range(base / PAGE_SIZE, size / PAGE_SIZE)
    {
      hide TakenSet, Range, Wrap;
      ghost var u, n := Used(), usedBlocks;
      TakenCount(bitmap[..]);
      ReleaseFrames(base / PAGE_SIZE, size / PAGE_SIZE);
      SetFrame(0);
      RangeSize(base / PAGE_SIZE, size / PAGE_SIZE);
      RegionBooks(u, Range(base / PAGE_SIZE, size / PAGE_SIZE), n);
    }

    /** Takes the frames of a region out of use; the books stay right exactly when all were free. */
    method DeinitRegion(base: u32, size: u32)
      requires Valid() && base / PAGE_SIZE + size / PAGE_SIZE <= maxBlocks
      modifies this`usedBlocks, bitmap
      ensures Used() == old(Used()) + Range(base / PAGE_SIZE, size / PAGE_SIZE)
      ensures Valid() <==> Range(base / PAGE_SIZE, size / PAGE_SIZE) !! old(Used())
    {
      hide TakenSet, Range, Wrap;
      var align := base / PAGE_SIZE;
      var blocks := size / PAGE_SIZE;
      ghost var u: set<nat>, n: nat, first: nat, total: nat, k: nat := Used(), usedBlocks, align, blocks, 0;
      WrapMinus(n);
      RangeStep(first, 0);
      TakenCount(bitmap[..]);
      while blocks > 0
        invariant blocks >= 0 && k + blocks == total && align == first + k
        invariant Used() == u + Range(first, k)
        invariant usedBlocks == n + k
      {
        RangeStep(first, k);
        SetFrame(align);
        align := align + 1;
        usedBlocks := usedBlocks + 1;
        blocks, k := blocks - 1, k + 1;
      }
      RangeSize(first, total);
      UnionBooks(u, Range(first, total));
    }
  }

  lemma UnionBooks(u: set<nat>, r: set<nat>)
    ensures |u + r| == |u| + |r| <==> r !! u
    ensures |u + r| <= |u| + |r|
  {
    assert |u + r| == |u| + |r| - |u * r|;
    var both := u * r;
    if both == {} {
      forall x | x in r ensures x !in u { assert x !in both; }
    } else {
      var x :| x in both;
      assert x in r && x in u;
    }
  }

  /** Taking a region out of the used frames, frame 0 excepted, lowers their number by the length
      of the region exactly when all of it was in use and frame 0 is not in it. */
  lemma RegionBooks(u: set<nat>, r: set<nat>, n: nat)
    requires 0 in u && n == |u| && n < MAX_FRAMES && |r| < MAX_FRAMES
    ensures |u - r + {0}| == Wrap(n - |r|) <==> r <= u && 0 !in r
    ensures 0 in u - r + {0}
  {
    var out := u - r + {0};
    assert u == (u - r) + (u * r);
    assert |u| == |u - r| + |u * r|;
    assert r == (r - u) + (u * r);
    assert |r| == |r - u| + |u * r|;
    if 0 in r {
      assert out == (u - r) + {0} && 0 !in u - r;
      assert |out| == |u - r| + 1;
    } else {
      assert out == u - r;
    }
    if !(r <= u) { assert r - u != {}; } else { assert r - u == {}; }
  }
}
