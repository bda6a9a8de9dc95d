/**
 kernel/modules/memory/pmm.c: the frame bitmap and its two allocators.

 A frame is a number: address / 4096, below 4096. A bitmap byte covers 8 frames, a 64 KiB window 16.
 available_mem counts KiB, 4 a frame.
 */
module Pmm {
  import opened Bits
  import opened Sets

  const FRAMES := 4096        // PHYS_MEM_LIMIT / 4096
  const BITMAP_SIZE := 512    // PHYS_MEM_LIMIT / (4096 * 8)
  const WORD := 0x1_0000_0000 // values of an uint32_t

  type word = x: int | 0 <= x < 0x1_0000_0000

  type uint16 = x: int | 0 <= x < 0x10000

  /** The boot loader's memory map, sizes in KiB. */
  datatype MemMap = MemMap(lowMem: uint16, lowMemReserved: uint16, highMem: uint16, highMemReserved: uint16)

  /** div_up(a, b) of an uint32_t: the subtraction wraps when a is 0. */
  function DivUp(a: nat, b: nat): nat
    requires b > 0
  {
    (a - 1) % WORD / b + 1
  }

  /** It is the least number of b that makes a; for 0 the wrapped subtraction makes it all that an uint32_t can hold. */
  lemma DivUpRounds(a: word, b: nat)
    requires b > 0
    ensures a > 0 ==> b * (DivUp(a, b) - 1) < a <= b * DivUp(a, b)
    ensures a == 0 ==> DivUp(a, b) == 0xFFFF_FFFF / b + 1
  {
    if a > 0 {
      var q, r := (a - 1) / b, (a - 1) % b;
      assert a - 1 == b * q + r;
      assert b * (q + 1) == b * q + b;
    }
  }

  predicate Reserved(bytes: seq<int>, i: nat)
    requires i / 8 < |bytes| && bytes[i / 8] >= 0
  {
    BitSet(bytes[i / 8], i % 8)
  }

  ghost predicate IsBitmap(bytes: seq<int>) {
    |bytes| == BITMAP_SIZE && forall j :: 0 <= j < BITMAP_SIZE ==> 0 <= bytes[j] < 256
  }

  /** free holds exactly the frames whose bit is clear. */
  ghost predicate Represents(bytes: seq<int>, free: set<int>) {
    && IsBitmap(bytes)
    && (forall i :: i in free ==> 0 <= i < FRAMES)
    && (forall i :: 0 <= i < FRAMES ==> (i in free <==> !Reserved(bytes, i)))
  }

  // ---- what an allocation may return ----

  ghost predicate FreeRun(free: set<int>, s: int, n: int) {
    forall i :: s <= i < s + n ==> i in free
  }

  /** n frames from s on are free and, for DMA, lie in one aligned 64 KiB window. */
  ghost predicate Fits(free: set<int>, s: int, n: int, dma: bool) {
    0 <= s && FreeRun(free, s, n) && (dma ==> s / 16 == (s + n - 1) / 16)
  }

  ghost predicate HasFit(free: set<int>, n: int, dma: bool) {
    exists s :: Fits(free, s, n, dma)
  }

  /** The answer of plain first fit: the lowest place that fits. */
  ghost predicate FirstFit(free: set<int>, s: int, n: int, dma: bool) {
    Fits(free, s, n, dma) && forall t :: 0 <= t < s ==> !Fits(free, t, n, dma)
  }

  ghost predicate Lowest(free: set<int>, f: int) {
    f in free && forall g :: g in free ==> f <= g
  }

  lemma {:induction false} FirstFitExists(free: set<int>, s: int, n: int, dma: bool) returns (f: int)
    requires Fits(free, s, n, dma)
    ensures FirstFit(free, f, n, dma) && f <= s
    decreases s
  {
    if t :| 0 <= t < s && Fits(free, t, n, dma) {
      f := FirstFitExists(free, t, n, dma);
    } else {
      f := s;
    }
  }

  lemma {:induction false} LowestExists(free: set<int>) returns (f: int)
    requires free != {}
    ensures Lowest(free, f)
    decreases |free|
  {
    var g := Pick(free);
    var rest := free - {g};
    assert forall h :: h in free ==> h in rest || h == g;
    if rest == {} {
      f := g;
    } else {
      f := LowestExists(rest);
      if g < f {
        f := g;
      }
    }
  }

  /** A free run fits for DMA if and only if it crosses no 64 KiB boundary of physical memory. */
  lemma DmaStaysInWindow(free: set<int>, s: int, n: int)
    requires n > 0 && Fits(free, s, n, false)
    ensures Fits(free, s, n, true) <==>
            forall a :: s * 4096 <= a < (s + n) * 4096 ==> a / 0x10000 == s * 4096 / 0x10000
  {
    forall a | s * 4096 <= a < (s + n) * 4096 ensures s / 16 <= a / 0x10000 <= (s + n - 1) / 16 {
      assert a / 4096 / 16 == a / 0x10000 && s <= a / 4096 <= s + n - 1;
    }
    var last := (s + n) * 4096 - 1;
    assert last / 0x10000 == (s + n - 1) / 16 && s * 4096 / 0x10000 == s / 16;
  }

  /** A single page of first fit is the lowest free frame, with or without the DMA flag. */
  lemma FirstFitOfOne(free: set<int>, s: int, dma: bool)
    requires forall f :: f in free ==> 0 <= f
    ensures FirstFit(free, s, 1, dma) <==> Lowest(free, s)
  {
    forall t ensures Fits(free, t, 1, dma) <==> t in free {
      assert t in free ==> FreeRun(free, t, 1);
    }
  }

  // ---- init_pmm's arithmetic ----

  /** (uint16_t)div_up(x, 4U): KiB to whole frames, rounded up; right even for 0, where div_up wraps. */
  function FramesOf(x: uint16): (r: uint16)
    ensures 0 <= 4 * r - x <= 3
  {
    if x == 0 then
      assert DivUp(x, 4) == 0x4000_0000;
      DivUp(x, 4) % 0x10000
    else
      DivUp(x, 4) % 0x10000
  }

  /** Memory maps whose parts fit below 1 MiB and below PHYS_MEM_LIMIT; the first page is reserved. */
  predicate WellFormed(m: MemMap) {
    && 0 < m.lowMemReserved && FramesOf(m.lowMemReserved) <= m.lowMem / 4 && m.lowMem <= 1024
    && FramesOf(m.highMemReserved) <= m.highMem / 4 && m.highMem <= 15 * 1024
  }

  /** The frames a memory map promises: low memory above its reserve and high memory above its own. */
  ghost function Promised(m: MemMap): set<int>
    requires WellFormed(m)
  {
    var low, high := FramesOf(m.lowMemReserved), FramesOf(m.highMemReserved);
    Range(low, m.lowMem / 4 - low) + Range(256 + high, m.highMem / 4 - high)
  }

  /** They are the frames all of whose bytes the map has, in low memory or from 1 MiB on, above what it reserves. */
  lemma PromisedExact(m: MemMap, f: nat)
    requires WellFormed(m)
    ensures f in Promised(m) <==>
            || (1024 * m.lowMemReserved <= 4096 * f && 4096 * (f + 1) <= 1024 * m.lowMem)
            || (0x10_0000 + 1024 * m.highMemReserved <= 4096 * f && 4096 * (f + 1) <= 0x10_0000 + 1024 * m.highMem)
  {
    hide FramesOf;
    var low, high := FramesOf(m.lowMemReserved), FramesOf(m.highMemReserved);
    assert f in Promised(m) <==> low <= f < m.lowMem / 4 || 256 + high <= f < 256 + m.highMem / 4;
  }

  /** The four roundings of init_pmm in KiB: reserves go up to whole frames, sizes down. */
  function Roundings(m: MemMap): (r: nat)
    ensures r <= 12
  {
    m.lowMem % 4 + m.highMem % 4
    + (4 * FramesOf(m.lowMemReserved) - m.lowMemReserved) + (4 * FramesOf(m.highMemReserved) - m.highMemReserved)
  }

  /** What available_mem starts with exceeds the promised frames by the roundings. */
  lemma PromisedSize(m: MemMap)
    requires WellFormed(m)
    ensures m.lowMem - m.lowMemReserved + m.highMem - m.highMemReserved == 4 * |Promised(m)| + Roundings(m)
  {
    var low, high := FramesOf(m.lowMemReserved), FramesOf(m.highMemReserved);
    DisjointRanges(low, m.lowMem / 4 - low, 256 + high, m.highMem / 4 - high);
  }

  /** The four holes are disjoint, lie inside the bitmap, and leave exactly the promised frames. */
  lemma HolesLeavePromised(m: MemMap)
    requires WellFormed(m)
    ensures var low, high := FramesOf(m.lowMemReserved), FramesOf(m.highMemReserved);
            var all, h1, h2, h3, h4 := Range(0, FRAMES), Range(0, low),
              Range(m.lowMem / 4, 256 - m.lowMem / 4), Range(256, high),
              Range(256 + m.highMem / 4, FRAMES - (256 + m.highMem / 4));
            && h1 <= all && h2 <= all - h1 && h3 <= all - h1 - h2 && h4 <= all - h1 - h2 - h3
            && all - h1 - h2 - h3 - h4 == Promised(m) && 0 !in Promised(m)
  {
    hide Range, FramesOf;
  }

  lemma DisjointRanges(s: int, n: nat, t: int, m: nat)
    requires s + n <= t
    ensures |Range(s, n) + Range(t, m)| == n + m
  {
    assert Range(s, n) !! Range(t, m);
  }

  // ---- the allocator ----

  class FrameAllocator {
    const bitmap: array<int>
    var cachedPos: int
    var availableMem: int
    ghost var free: set<int>  // the frames whose bit is clear
    ghost var slack: int      // available_mem minus what the free frames hold; no operation changes it

    ghost predicate BitmapOk()
      reads this, bitmap
    {
      bitmap.Length == BITMAP_SIZE && Represents(bitmap[..], free)
    }

    ghost predicate Valid()
      reads this, bitmap
    {
      && BitmapOk()
      && 0 !in free
      && 0 <= cachedPos < BITMAP_SIZE
      && (forall j :: 0 <= j < cachedPos ==> bitmap[j] == 0xFF)
      && availableMem == 4 * |free| + slack && 0 <= slack <= 12
    }

    constructor ()
      ensures bitmap.Length == BITMAP_SIZE && fresh(bitmap) && cachedPos == 0
    {
      bitmap := new int[BITMAP_SIZE](_ => 0);
      cachedPos, availableMem := 0, 0;
      free, slack := {}, 0;
    }

    lemma FrameBounds()
      requires Valid()
      ensures forall f :: f in free ==> 0 < f < FRAMES
    {
    }

    method ReservePage(index: nat)
      requires BitmapOk() && index in free
      modifies bitmap, `free
      ensures BitmapOk() && free == old(free) - {index}
      ensures forall j :: 0 <= j < BITMAP_SIZE && old(bitmap[j]) == 0xFF ==> bitmap[j] == 0xFF
    {
      var pos := index / 8;
      ghost var b := bitmap[pos];
      ByteAddExact(b, index % 8);
      FullByte(b);
      bitmap[pos] := (bitmap[pos] + Shl1(index % 8)) % 256;
      free := free - {index};
      BitChange(old(bitmap[..]), bitmap[..], old(free), index);
    }

    method UnreservePage(index: nat)
      requires BitmapOk() && index < FRAMES && index !in free
      modifies bitmap, `free
      ensures BitmapOk() && free == old(free) + {index}
      ensures forall j :: 0 <= j < BITMAP_SIZE && j != index / 8 ==> bitmap[j] == old(bitmap[j])
    {
      var pos := index / 8;
      ByteSubtractExact(bitmap[pos], index % 8);
      bitmap[pos] := (bitmap[pos] - Shl1(index % 8)) % 256;
      free := free + {index};
      BitChange(old(bitmap[..]), bitmap[..], old(free), index);
    }

    predicate PageReserved(index: nat): (r: bool)
      requires BitmapOk() && index < FRAMES
      reads this, bitmap
      ensures r <==> index !in free
    {
      var pos := index / 8;
      BitSet(bitmap[pos], index % 8)
    }

    method SetBitmapHole(offset0: nat, size0: nat)
      requires BitmapOk() && offset0 + size0 <= FRAMES && Range(offset0, size0) <= free
      modifies bitmap, `free
      ensures BitmapOk() && free == old(free) - Range(offset0, size0)
    {
      hide Represents;
      var offset, size := offset0, size0;
      while size > 0
        invariant 0 <= size <= size0 && offset == offset0 + size0 - size
        invariant BitmapOk() && free == old(free) - Range(offset0, size0 - size)
      {
        ReservePage(offset);
        offset := offset + 1;
        size := size - 1;
      }
    }

    method AllocPages(size: nat, flags: nat) returns (p: int)
      requires Valid() && size < WORD
      requires availableMem >= size / 1024 && !(flags % 2 == 1 && size > 64 * 1024) ==>
                 HasFit(free, DivUp(size, 4096), flags % 2 == 1)
      modifies this, bitmap
      ensures Valid() && slack == old(slack) && cachedPos == old(cachedPos)
      ensures old(availableMem) < size / 1024 || (flags % 2 == 1 && size > 64 * 1024) ==>
                p == 0 && free == old(free)
      ensures !(old(availableMem) < size / 1024 || (flags % 2 == 1 && size > 64 * 1024)) ==>
                && FirstFit(old(free), p / 4096, DivUp(size, 4096), flags % 2 == 1)
                && 0 < p < WORD && p % 4096 == 0
                && free == old(free) - Range(p / 4096, DivUp(size, 4096))
    {
      hide Represents, HasFit, Range, FreeRun;
      if availableMem < size / 1024 {
        return 0;
      }
      if flags % 2 == 1 && size > 64 * 1024 {
        return 0;
      }
      var count := DivUp(size, 4096);
      var dma := flags % 2 == 1;
      var startIndex, index := FindRun(count, dma);
      RunPaid(free, startIndex, count, dma);
      ReserveRun(startIndex, index);
      FreeBound(bitmap[..], free);
      availableMem := (availableMem - count * 4) % WORD;
      p := startIndex * 4096;
    }

    /** pmm.c:120-123: the countdown that marks the run; frame 0 is never free, so it stops above 0. */
    method ReserveRun(startIndex: nat, end: nat)
      requires BitmapOk() && 0 < startIndex <= end && FreeRun(free, startIndex, end - startIndex)
      modifies bitmap, `free
      ensures BitmapOk() && free == old(free) - Range(startIndex, end - startIndex)
      ensures forall j :: 0 <= j < BITMAP_SIZE && old(bitmap[j]) == 0xFF ==> bitmap[j] == 0xFF
    {
      hide Represents;
      var index := end - 1;
      while index >= startIndex
        invariant startIndex - 1 <= index < end
        invariant BitmapOk()
        invariant forall i :: i in free <==> i in old(free) && !(index < i < end)
        invariant forall j :: 0 <= j < BITMAP_SIZE && old(bitmap[j]) == 0xFF ==> bitmap[j] == 0xFF
      {
        ReservePage(index);
        index := index - 1;
      }
      ghost var rest := old(free) - Range(startIndex, end - startIndex);
      SameInts(free, rest);
    }

    /** The search of alloc_pages: pmm.c:58-117, up to the label done. */
    method FindRun(count: nat, dma: bool) returns (startIndex: nat, index: nat)
      requires Valid() && count > 0 && HasFit(free, count, dma)
      ensures FirstFit(free, startIndex, count, dma)
      ensures 0 < startIndex && startIndex + count <= FRAMES && index == startIndex + count
    {
      hide Represents, BitSet, HasFit, FreeRun;
      ghost var fit := TheFit(bitmap[..], free, count, dma);
      startIndex, index := 0, 0;
      var done := false;
      while !done
        invariant index <= fit + count && (!done ==> index <= fit)
        invariant !done ==> forall t :: 0 <= t < index ==> !Fits(free, t, count, dma)
        invariant done ==> FirstFit(free, startIndex, count, dma) && index == startIndex + count
        decreases !done, fit - index
      {
        ghost var head := index;
        var dmaPos;
        startIndex, dmaPos := SkipReserved(index, fit);
        NoFitInReserved(free, head, startIndex, count, dma);
        index, done := ExtendRun(startIndex, dmaPos, count, dma);
        assert !done ==> forall t :: 0 <= t < index ==> !Fits(free, t, count, dma);
      }
    }

    /** pmm.c:65-78: skip full bytes, note the window of the byte reached, then skip reserved frames. */
    method SkipReserved(index0: nat, ghost fit: int) returns (index: nat, dmaPos: nat)
      requires Valid() && fit in free && index0 <= fit
      ensures index0 <= index <= fit && index in free
      ensures forall i :: index0 <= i < index ==> i !in free
      ensures index0 < (dmaPos + 2) * 8 && dmaPos * 8 <= index && dmaPos % 2 == 0
    {
      index := index0;
      var pos := index / 8;
      FreeByteNotFull(bitmap[..], free, fit);
      while bitmap[pos] == 0xFF
        invariant pos <= fit / 8 && index0 <= index <= fit
        invariant (index == index0 && pos == index0 / 8) || index == pos * 8
        invariant forall i :: index0 <= i < index ==> i !in free
        decreases fit / 8 - pos
      {
        FullByteNotFree(bitmap[..], free, pos);
        pos := pos + 1;
        index := pos * 8;
      }
      dmaPos := pos / 2 * 2;
      while PageReserved(index)
        invariant index0 <= index <= fit && dmaPos * 8 <= index
        invariant forall i :: index0 <= i < index ==> i !in free
        decreases fit - index
      {
        index := index + 1;
      }
    }

    /** pmm.c:80-116: extend the run from startIndex; done tells a `goto done` from a `break`. */
    method ExtendRun(startIndex: nat, dmaPos: nat, count: nat, dma: bool) returns (index: nat, done: bool)
      requires Valid() && count > 0 && startIndex in free
      requires dmaPos * 8 <= startIndex && dmaPos % 2 == 0
      requires forall t :: 0 <= t < startIndex ==> !Fits(free, t, count, dma)
      requires HasFit(free, count, dma)
      ensures done ==> Fits(free, startIndex, count, dma) && index == startIndex + count
      ensures !done ==> index > startIndex || (dma && index == (dmaPos + 2) * 8)
      ensures !done ==> forall t :: 0 <= t < index ==> !Fits(free, t, count, dma)
    {
      hide Represents, PageReserved, HasFit, Fits;
      ghost var fit := TheFit(bitmap[..], free, count, dma);
      index := startIndex;
      while true
        invariant startIndex <= index < startIndex + count && startIndex <= fit
        invariant FreeRun(free, startIndex, index - startIndex)
        decreases startIndex + count - index
      {
        if !PageReserved(index) {
          index := index + 1;
        } else {
          NoFitAcrossReserved(free, startIndex, index, count, dma);
          return index, false;
        }
        if index > FRAMES {
          assert false;
        }
        if index - startIndex >= count {
          if dma {
            var newPos := (index - 1) / 8;
            if newPos - dmaPos <= 1 {
              SameWindow(startIndex, count, dmaPos);
              IsFit(free, startIndex, count, dma);
              return index, true;
            } else {
              NoFitBeforeWindow(free, startIndex, (dmaPos + 2) * 8, count);
              return (dmaPos + 2) * 8, false;
            }
          } else {
            IsFit(free, startIndex, count, dma);
            return index, true;
          }
        }
      }
    }

    /**
     The test of alloc_page keeps it from searching a bitmap without a free frame if and only if the roundings
     of init_pmm stay below one page.
     */
    lemma GuardExact()
      requires Valid()
      ensures (availableMem >= 4 ==> free != {}) <==> free != {} || slack < 4
    {
      if free == {} {
        assert |free| == 0;
      } else {
        var f := Pick(free);
        assert |free| > 0;
      }
    }

    method AllocPage(flags: nat) returns (p: int)
      requires Valid()
      requires slack < 4 || free != {}
      modifies this, bitmap
      ensures Valid() && slack == old(slack)
      ensures slack < 4 ==> (p == 0 <==> old(free) == {})
      ensures old(availableMem) < 4 ==> p == 0 && free == old(free)
      ensures old(availableMem) >= 4 ==>
                && Lowest(old(free), p / 4096) && 0 < p < WORD && p % 4096 == 0
                && free == old(free) - {p / 4096}
    {
      hide BitSet;
      GuardExact();
      if availableMem < 4 {
        return 0;
      }
      ghost var low := LowestExists(free);
      FreeByteNotFull(bitmap[..], free, low);
      while bitmap[cachedPos] == 0xFF
        invariant Valid() && free == old(free) && slack == old(slack) && availableMem == old(availableMem)
        invariant cachedPos <= low / 8 && bitmap[low / 8] != 0xFF
        decreases BITMAP_SIZE - cachedPos
      {
        cachedPos := if cachedPos + 1 > FRAMES then 0 else cachedPos + 1;
      }
      var index := cachedPos * 8;
      ghost var some := NotFullHasFree(bitmap[..], free, cachedPos);
      while PageReserved(index)
        invariant cachedPos * 8 <= index <= low
        decreases low - index
      {
        index := index + 1;
      }
      ReservePage(index);
      FreeBound(bitmap[..], free);
      availableMem := (availableMem - 4) % WORD;
      p := index * 4096;
    }

    method FreePage(page: nat)
      requires Valid() && page / 4096 < FRAMES
      requires page / 4096 !in free && page / 4096 != 0
      modifies this, bitmap
      ensures Valid() && slack == old(slack)
      ensures free == old(free) + {page / 4096}
    {
      hide BitSet;
      var index := page / 4096;
      UnreservePage(index);
      FreeBound(bitmap[..], free);
      availableMem := (availableMem + 4) % WORD;
      if index / 8 < cachedPos {
        cachedPos := index / 8;
      }
    }

    method FreePages(pages0: nat, count0: nat)
      requires Valid() && pages0 / 4096 + count0 <= FRAMES
      requires (forall i :: pages0 / 4096 <= i < pages0 / 4096 + count0 ==> i !in free) && pages0 / 4096 != 0
      modifies this, bitmap
      ensures Valid() && slack == old(slack)
      ensures free == old(free) + Range(pages0 / 4096, count0)
    {
      hide Represents, BitSet;
      var pages, count := pages0, count0;
      ghost var first := pages0 / 4096;
      while count > 0
        invariant 0 <= count <= count0 && pages == pages0 + (count0 - count) * 4096
        invariant Valid() && slack == old(slack)
        invariant forall i :: i in free <==> i in old(free) || first <= i < first + count0 - count
      {
        assert pages / 4096 == first + (count0 - count);
        FreePage(pages);
        count := count - 1;
        pages := pages + 4096;
      }
      SameInts(free, old(free) + Range(first, count0));
    }

    method InitPmm(m: MemMap)
      requires bitmap.Length == BITMAP_SIZE && cachedPos == 0 && WellFormed(m)
      modifies this, bitmap
      ensures Valid() && free == Promised(m) && slack == Roundings(m)
      ensures availableMem == m.lowMem - m.lowMemReserved + m.highMem - m.highMemReserved
    {
      hide Represents, Range, FramesOf, Promised, Roundings;
      SetHoles(m);
      PromisedSize(m);
      var total := m.lowMem - m.lowMemReserved + m.highMem - m.highMemReserved;
      assert 0 <= total < 0x20000;
      availableMem := total % WORD;
      slack := availableMem - 4 * |free|;
    }

    method SetHoles(m: MemMap)
      requires bitmap.Length == BITMAP_SIZE && WellFormed(m)
      modifies bitmap, `free
      ensures BitmapOk() && free == Promised(m) && 0 !in free
    {
      hide Represents, Range, FramesOf, Promised;
      ClearBitmap();
      HolesLeavePromised(m);
      var lowReservedPages, highReservedPages := FramesOf(m.lowMemReserved), FramesOf(m.highMemReserved);
      var lowPages, highPages := m.lowMem / 4, m.highMem / 4;
      SetBitmapHole(0, lowReservedPages);
      SetBitmapHole(lowPages, 256 - lowPages);
      SetBitmapHole(256, highReservedPages);
      SetBitmapHole(256 + highPages, FRAMES - (256 + highPages));
    }

    method ClearBitmap()
      requires bitmap.Length == BITMAP_SIZE
      modifies bitmap, `free
      ensures BitmapOk() && free == Range(0, FRAMES)
    {
      hide Represents, Range;
      forall i | 0 <= i < BITMAP_SIZE {
        bitmap[i] := 0;
      }
      free := Range(0, FRAMES);
      ZeroBitmap(bitmap[..]);
    }
  }

  // ---- lemmas the searches use ----

  /** Counting the run's frames: the free KiB pay for every frame taken. */
  lemma RunPaid(free: set<int>, s: int, n: nat, dma: bool)
    requires FirstFit(free, s, n, dma)
    ensures FreeRun(free, s, n) && |free - Range(s, n)| == |free| - n
  {
    assert Range(s, n) <= free;
    SubsetSize(Range(s, n), free);
  }

  lemma {:induction false} ZeroByte(k: nat)
    ensures !BitSet(0, k)
  {
    if k > 0 {
      ZeroByte(k - 1);
    }
  }

  /** available_mem never wraps: it counts at most 4096 frames. */
  lemma FreeBound(bytes: seq<int>, free: set<int>)
    requires Represents(bytes, free)
    ensures |free| <= FRAMES
  {
    SubsetSize(free, Range(0, FRAMES));
  }

  lemma ZeroBitmap(bytes: seq<int>)
    requires |bytes| == BITMAP_SIZE && forall j :: 0 <= j < BITMAP_SIZE ==> bytes[j] == 0
    ensures Represents(bytes, Range(0, FRAMES))
  {
    hide BitSet, Range;
    forall i | 0 <= i < FRAMES ensures !Reserved(bytes, i) {
      ZeroByte(i % 8);
    }
  }

  lemma FullByteNotFree(bytes: seq<int>, free: set<int>, pos: nat)
    requires Represents(bytes, free) && pos < BITMAP_SIZE && bytes[pos] == 0xFF
    ensures forall i :: pos * 8 <= i < pos * 8 + 8 ==> i !in free
  {
    FullByte(bytes[pos]);
    forall i | pos * 8 <= i < pos * 8 + 8 ensures i !in free {
      assert i / 8 == pos && Reserved(bytes, i);
    }
  }

  lemma NotFullHasFree(bytes: seq<int>, free: set<int>, pos: nat) returns (i: int)
    requires Represents(bytes, free) && pos < BITMAP_SIZE && bytes[pos] != 0xFF
    ensures pos * 8 <= i < pos * 8 + 8 && i in free
  {
    FullByte(bytes[pos]);
    var k :| 0 <= k < 8 && !BitSet(bytes[pos], k);
    i := pos * 8 + k;
    assert i / 8 == pos && i % 8 == k && i < FRAMES;
    assert !Reserved(bytes, i);
  }

  lemma FreeByteNotFull(bytes: seq<int>, free: set<int>, f: int)
    requires Represents(bytes, free) && f in free
    ensures bytes[f / 8] != 0xFF
  {
    assert !Reserved(bytes, f);
    if bytes[f / 8] == 0xFF {
      FullByteBit(f % 8);
    }
  }

  lemma BitChange(a: seq<int>, b: seq<int>, free: set<int>, index: nat)
    requires Represents(a, free) && IsBitmap(b) && index < FRAMES
    requires forall j :: 0 <= j < BITMAP_SIZE && j != index / 8 ==> a[j] == b[j]
    ensures SetsOnly(a[index / 8], b[index / 8], index % 8) ==> Represents(b, free - {index})
    ensures ClearsOnly(a[index / 8], b[index / 8], index % 8) ==> Represents(b, free + {index})
  {
    forall i | 0 <= i < FRAMES && i != index
      ensures SetsOnly(a[index / 8], b[index / 8], index % 8) ==> Reserved(a, i) == Reserved(b, i)
      ensures ClearsOnly(a[index / 8], b[index / 8], index % 8) ==> Reserved(a, i) == Reserved(b, i)
    {
      if i / 8 == index / 8 {
        assert i % 8 != index % 8;
      }
    }
    assert SetsOnly(a[index / 8], b[index / 8], index % 8) ==> Reserved(b, index);
    assert ClearsOnly(a[index / 8], b[index / 8], index % 8) ==> !Reserved(b, index);
  }

  /** What the searches look for; it lies inside the bitmap and above frame 0. */
  lemma TheFit(bytes: seq<int>, free: set<int>, n: nat, dma: bool) returns (fit: int)
    requires Represents(bytes, free) && 0 !in free && n > 0 && HasFit(free, n, dma)
    ensures FirstFit(free, fit, n, dma) && fit in free && 0 < fit && fit + n <= FRAMES
  {
    hide BitSet;
    var s :| Fits(free, s, n, dma);
    fit := FirstFitExists(free, s, n, dma);
    RunInFrames(free, fit, n);
  }

  lemma RunInFrames(free: set<int>, s: int, n: nat)
    requires FreeRun(free, s, n) && n > 0 && forall f :: f in free ==> 0 < f < FRAMES
    ensures 0 < s && s + n <= FRAMES
  {
    assert s in free && s + n - 1 in free;
  }

  lemma NoFitInReserved(free: set<int>, a: int, b: int, n: nat, dma: bool)
    requires n > 0 && forall i :: a <= i < b ==> i !in free
    ensures forall t :: a <= t < b ==> !Fits(free, t, n, dma)
  {
    forall t | a <= t < b ensures !Fits(free, t, n, dma) {
      assert t !in free;
    }
  }

  lemma NoFitAcrossReserved(free: set<int>, a: int, i: int, n: nat, dma: bool)
    requires a <= i < a + n && i !in free
    ensures forall t :: a <= t <= i ==> !Fits(free, t, n, dma)
  {
    forall t | a <= t <= i ensures !Fits(free, t, n, dma) {
      assert t <= i < t + n;
    }
  }

  lemma IsFit(free: set<int>, s: int, n: int, dma: bool)
    requires 0 <= s && FreeRun(free, s, n) && (dma ==> s / 16 == (s + n - 1) / 16)
    ensures Fits(free, s, n, dma)
  {
  }

  lemma SameWindow(s: int, n: int, dmaPos: int)
    requires n > 0 && dmaPos % 2 == 0 && dmaPos * 8 <= s && (s + n - 1) / 8 - dmaPos <= 1
    ensures s / 16 == (s + n - 1) / 16
  {
    assert dmaPos / 2 <= s / 16 <= (s + n - 1) / 16 <= dmaPos / 2;
  }

  /** Nothing that starts before the next window and reaches into it is acceptable to DMA. */
  lemma NoFitBeforeWindow(free: set<int>, s: int, next: int, n: nat)
    requires next % 16 == 0 && next < s + n
    ensures forall t :: s <= t < next ==> !Fits(free, t, n, true)
  {
    forall t | s <= t < next ensures t / 16 != (t + n - 1) / 16 {
      assert t / 16 < next / 16 <= (t + n - 1) / 16;
    }
  }
}
