/**
 kernel/modules/memory/vheap.c's vmalloc and vfree: a region of the virtual heap backed page by page with
 frames of the frame allocator through the page tables.
 */
module Vmalloc {
  import opened Regions
  import opened VHeap
  import opened Vmm
  import opened Pmm
  import IoSpace
  import Space

  const KERNEL_PAGE := 0xE0000  // KERNEL_REGION / 4096

  /** The pages of free blocks are not mapped. */
  ghost predicate FreeUnmapped(bs: Blocks, s: Space.Space) {
    forall i, q :: 0 <= i < |bs| && bs[i].IsFree() && bs[i].start <= q - KERNEL_PAGE < bs[i].End() ==>
      !Space.Mapped(s, q)
  }

  lemma CarveUnmapped(bs: Blocks, i: nat, n: nat, s: Space.Space, u: Space.Space)
    requires Tiled(bs, FIRST, LAST) && FreeUnmapped(bs, s) && i < |bs| && bs[i].IsFree() && 0 < n <= bs[i].pages
    requires forall q :: Space.Mapped(u, q) ==> Space.Mapped(s, q) || 0 <= q - KERNEL_PAGE - bs[i].start < n
    ensures FreeUnmapped(Carve(bs, i, n), u)
  {
    hide Carve, Space.Mapped;
    var r := Carve(bs, i, n);
    CarveSize(bs, i, n);
    forall j, q | 0 <= j < |r| && r[j].IsFree() && r[j].start <= q - KERNEL_PAGE < r[j].End()
      ensures !Space.Mapped(u, q)
    {
      CarveAt(bs, i, n, j);
      var k := if j < i then j else if bs[i].pages == n then j else j - 1;
      if k < i {
        TiledOrder(bs, FIRST, LAST, k, i);
      } else if k > i {
        TiledOrder(bs, FIRST, LAST, i, k);
      }
      assert !Space.Mapped(s, q);
    }
  }

  lemma ReleaseUnmapped(bs: Blocks, i: nat, h: int, s: Space.Space, u: Space.Space)
    requires Tiled(bs, FIRST, LAST) && FreeUnmapped(bs, s) && i < |bs|
    requires forall q :: Space.Mapped(u, q) ==> Space.Mapped(s, q) && !(bs[i].start <= q - KERNEL_PAGE < bs[i].End())
    ensures FreeUnmapped(Release(bs, i, h), u)
  {
    hide Release, Space.Mapped;
    var r, l, e := Release(bs, i, h), Left(bs, i), Right(bs, i);
    ReleaseSize(bs, i, h);
    forall j, q | 0 <= j < |r| && r[j].IsFree() && r[j].start <= q - KERNEL_PAGE < r[j].End()
      ensures !Space.Mapped(u, q)
    {
      ReleaseAt(bs, i, h, j);
      if j == l {
        var k := if q - KERNEL_PAGE < bs[i].start then l else if q - KERNEL_PAGE < bs[i].End() then i else e;
        assert bs[k].start <= q - KERNEL_PAGE < bs[k].End();
      } else {
        var k := if j < l then j else j + e - l;
        assert bs[k].start <= q - KERNEL_PAGE < bs[k].End();
      }
    }
  }

  lemma RegionUnmapped(bs: Blocks, i: nat, s: Space.Space, n: nat)
    requires Tiled(bs, FIRST, LAST) && FreeUnmapped(bs, s) && BestFit(bs, i, n)
    ensures FIRST <= bs[i].start && bs[i].start + n <= LAST
    ensures Space.Unmapped(s, KERNEL_PAGE + bs[i].start, n)
  {
    hide Space.Mapped;
    TiledBounds(bs, FIRST, LAST, i);
  }

  lemma TakenUnmapped(bs: Blocks, i: nat, n: int, s: Space.Space, u: Space.Space)
    requires Tiled(bs, FIRST, LAST) && FreeUnmapped(bs, s) && i < |bs| && bs[i].IsFree() && 0 <= n <= bs[i].pages
    requires forall q :: Space.Mapped(u, q) ==> Space.Mapped(s, q) || 0 <= q - KERNEL_PAGE - bs[i].start < n
    ensures FreeUnmapped(Taken(bs, i, n), u)
  {
    hide Carve;
    if n > 0 {
      CarveUnmapped(bs, i, n, s, u);
    }
  }

  lemma NoPages(s: Space.Space, p: int, f: nat)
    ensures Space.Back(s, p, 0) == s && IoSpace.MapRun(s, p, f, 0) == s
  {
  }

  /** k pages behind a physical address, wrapping at 32 bits. */
  function IoPage(io: word, k: nat): word {
    (io + 4096 * k) % WORD
  }

  lemma FrameBehind(io: word, k: nat)
    ensures IoPage(io, k) / 4096 == (io / 4096 + k) % IoSpace.PHYS_FRAMES
    ensures (IoPage(io, k) + 4096) % WORD == IoPage(io, k + 1) && IoPage(io, 0) == io
  {
    WrappedFrame(io + 4096 * k);
    assert (io + 4096 * k) / 4096 == io / 4096 + k;
  }

  lemma WrappedFrame(x: nat)
    ensures x % WORD / 4096 == x / 4096 % IoSpace.PHYS_FRAMES
    ensures (x % WORD + 4096) % WORD == (x + 4096) % WORD
  {
    var q, r := x / WORD, x % WORD;
    assert x == 0x1_0000_0000 * q + r;
    assert x / 4096 == 0x10_0000 * q + r / 4096;
    if r + 4096 >= WORD {
      assert x + 4096 == 0x1_0000_0000 * (q + 1) + (r + 4096 - 0x1_0000_0000);
    }
  }

  /** The end of a request's loop over pages, as a 32-bit address: it wraps exactly for sizes that round to 0. */
  lemma LoopEnd(region: int, size: word, pages: int)
    requires Rounded(size) == 4096 * pages && 0 < region && region + 4096 * pages < WORD
    requires 0xF000_0000 <= region
    ensures Rounded(size) != 0 ==> region + size < WORD
    ensures Rounded(size) == 0 ==> (region + size) % WORD <= region
  {
  }

  class Memory {
    const mmu: Mmu
    const heap: VirtualHeap

    /** Everything but that the tags agree with the blocks. */
    ghost predicate Sound()
      reads this, mmu, mmu.mountTable, mmu.pmm, mmu.pmm.bitmap, heap, heap.heapInfo, heap.list
    {
      && mmu.Ready() && heap.Sound()
      && heap.heapInfo != mmu.mountTable && heap.heapInfo != mmu.pmm.bitmap
      && FreeUnmapped(heap.blocks, mmu.TheSpace())
    }

    ghost predicate Valid()
      reads this, mmu, mmu.mountTable, mmu.pmm, mmu.pmm.bitmap, heap, heap.heapInfo, heap.list
    {
      Sound() && heap.Valid()
    }

    constructor (mmu: Mmu, heap: VirtualHeap)
      ensures this.mmu == mmu && this.heap == heap
    {
      this.mmu, this.heap := mmu, heap;
    }

    lemma Facts()
      requires Sound()
      ensures mmu.cr3 !in mmu.pmm.free && forall f :: f in mmu.pmm.free ==> 0 < f < FRAMES
      ensures Coalesced(heap.blocks) && mmu.pmm.availableMem == 4 * |mmu.pmm.free| + mmu.pmm.slack
    {
      mmu.pmm.FrameBounds();
    }

    /** What is mapped can be written to, whoever mapped it. */
    lemma RegionMayBeWritten(region: int, size: nat)
      requires mmu.Ready() && 0 <= region && region % 4096 == 0 && region + size <= 1023 * 0x40_0000
      requires forall q :: region / 4096 <= q < region / 4096 + (size + 4095) / 4096 ==> Space.Mapped(mmu.TheSpace(), q)
      ensures forall a: word :: region <= a < region + size ==> MayWrite(mmu.ram, mmu.cr3, a)
    {
      hide MayWrite, Space.Mapped, Describes;
      forall a: word | region <= a < region + size ensures MayWrite(mmu.ram, mmu.cr3, a) {
        assert region / 4096 <= a / 4096 < region / 4096 + (size + 4095) / 4096;
        mmu.MappedMayWrite(a);
      }
    }

    /** There are frames for any best fit vregion_alloc may choose for n pages. */
    ghost predicate Affordable(n: nat)
      requires mmu.Valid()
      reads this, mmu, mmu.mountTable, mmu.pmm, mmu.pmm.bitmap, heap
    {
      forall i: nat :: BestFit(heap.blocks, i, n) ==>
        |mmu.pmm.free| >= Space.Need(mmu.TheSpace(), KERNEL_PAGE + heap.blocks[i].start, n)
    }

    method Vmalloc(size: word, flags: word) returns (region: word, ghost i: nat)
      requires Valid() && heap.list.order != [] && Affordable(Rounded(size) / 4096)
      modifies mmu, mmu.mountTable, mmu.pmm, mmu.pmm.bitmap, heap, heap.heapInfo, heap.list
      ensures Sound() && mmu.pmm.slack == old(mmu.pmm.slack) && heap.list.nodes.Keys == old(heap.list.nodes.Keys)
      ensures region == 0 || Rounded(size) != 0 ==> Valid()
      ensures region == 0 || Rounded(size) == 0 ==>
                mmu.TheSpace() == old(mmu.TheSpace()) && heap.blocks == old(heap.blocks)
      ensures region == 0 && flags == 0 ==>
                forall j :: 0 <= j < |heap.blocks| && heap.blocks[j].IsFree() ==> 4096 * heap.blocks[j].pages < size
      ensures region != 0 ==>
                var n, p := Rounded(size) / 4096, region / 4096;
                && flags == 0 && region % 4096 == 0 && BestFit(old(heap.blocks), i, n)
                && region == Addr(old(heap.blocks)[i].start) && heap.blocks == Taken(old(heap.blocks), i, n)
                && mmu.TheSpace() == Space.Back(old(mmu.TheSpace()), p, n)
                && Space.Between(old(mmu.TheSpace()), mmu.TheSpace(), p, p + n)
      ensures region != 0 ==> forall a: word :: region <= a < region + Rounded(size) ==> MayWrite(mmu.ram, mmu.cr3, a)
      ensures region != 0 && Rounded(size) == 0 ==>
                i < |heap.blocks| && heap.blocks[i].IsFree() && (Valid() <==> !PageBefore(heap.blocks, i))
    {
      hide Tiled, Coalesced, DistinctHeaders, Tagged, Described, FreeHeaders, Carve, FreeUnmapped, Mmu.Counted;
      hide Rounded, Space.Back, Space.Between, Space.Need, FrameAllocator.Valid, Describes;
      if flags != 0 {
        return 0, 0;
      }
      ghost var s, bs := mmu.TheSpace(), heap.blocks;
      var r;
      r, i := heap.VregionAlloc(size);
      if r == 0 {
        return 0, i;
      }
      region := r;
      RegionUnmapped(bs, i, s, Rounded(size) / 4096);
      BackRegion(region, size, i, bs);
      Space.BetweenPages(s, mmu.TheSpace(), region / 4096, region / 4096 + Rounded(size) / 4096);
      TakenUnmapped(bs, i, Rounded(size) / 4096, s, mmu.TheSpace());
      RegionMayBeWritten(region, Rounded(size));
      NoPages(s, region / 4096, 0);
    }

    /** vheap.c:205-213: a frame for every page; the bound is the size asked for, not the rounded one. */
    method BackRegion(region: int, size: word, ghost i: nat, ghost bs: Blocks)
      requires mmu.Ready() && Tiled(bs, FIRST, LAST) && FreeUnmapped(bs, mmu.TheSpace())
      requires BestFit(bs, i, Rounded(size) / 4096) && region == Addr(bs[i].start)
      requires |mmu.pmm.free| >= Space.Need(mmu.TheSpace(), KERNEL_PAGE + bs[i].start, Rounded(size) / 4096)
      modifies mmu, mmu.mountTable, mmu.pmm, mmu.pmm.bitmap
      ensures mmu.Ready() && mmu.pmm.slack == old(mmu.pmm.slack)
      ensures mmu.TheSpace() == Space.Back(old(mmu.TheSpace()), region / 4096, Rounded(size) / 4096)
      ensures Space.Between(old(mmu.TheSpace()), mmu.TheSpace(), region / 4096, region / 4096 + Rounded(size) / 4096)
    {
      hide Tiled, FreeUnmapped, Mmu.Ready, Rounded, Space.Between, Space.Need, Space.Mapped, Space.AllocMap;
      ghost var s, n, p := mmu.TheSpace(), Rounded(size) / 4096, region / 4096;
      RegionUnmapped(bs, i, s, n);
      mmu.CountedConsistent();
      ghost var k := 0;
      var page := region;
      LoopEnd(region, size, n);
      while page < (region + size) % WORD
        invariant 0 <= k <= n && page == region + 4096 * k
        invariant mmu.Ready() && mmu.pmm.slack == old(mmu.pmm.slack)
        invariant mmu.TheSpace() == Space.Back(s, p, k)
        decreases n - k
      {
        Space.NextFrames(s, p, n, k);
        mmu.BackPage(page);
        k := k + 1;
        page := page + 4096;
      }
      Space.BackBetween(s, p, n);
    }

    method Vfree(obj: word, newHeader: int, ghost i: nat)
      requires Valid()
      requires obj != 0 && obj % 4096 == 0 ==>
                 && i < |heap.blocks| && !heap.blocks[i].IsFree() && obj == Addr(heap.blocks[i].start)
                 && Space.Backed(mmu.TheSpace(), obj / 4096, obj / 4096 + heap.blocks[i].pages)
                 && (forall q :: (obj / 4096 <= q < obj / 4096 + heap.blocks[i].pages
                                  && Space.Mapped(mmu.TheSpace(), q)) ==> Space.Frame(mmu.TheSpace(), q) != mmu.cr3)
                 && newHeader !in heap.list.nodes && KERNEL_REGION < newHeader < WORD
      modifies mmu, mmu.mountTable, mmu.pmm, mmu.pmm.bitmap, heap, heap.heapInfo, heap.list
      ensures Valid() && mmu.pmm.slack == old(mmu.pmm.slack)
      ensures obj == 0 || obj % 4096 != 0 ==> mmu.TheSpace() == old(mmu.TheSpace()) && heap.blocks == old(heap.blocks)
      ensures obj != 0 && obj % 4096 == 0 ==>
                && mmu.TheSpace() == Space.Unback(old(mmu.TheSpace()), obj / 4096, old(heap.blocks)[i].pages)
                && heap.blocks == Release(old(heap.blocks), i, newHeader)
    {
      hide Tiled, Coalesced, DistinctHeaders, Tagged, Described, FreeHeaders, Release, FreeUnmapped;
      hide Mmu.Ready, Space.Unback, Space.Backed;
      if obj == 0 || obj != obj / 4096 * 4096 {
        return;
      }
      ghost var s, bs, n := mmu.TheSpace(), heap.blocks, heap.blocks[i].pages;
      UsedTag(bs, heap.heapInfo[..], i);
      var size := heap.heapInfo[(obj - KERNEL_REGION) / 4096];
      UnbackRegion(obj, size, n);
      ReleaseUnmapped(bs, i, newHeader, s, mmu.TheSpace());
      heap.VregionFree(obj, newHeader, i);
    }

    /** vheap.c:227-231: free every page's frame and unmap it; the bound is the size in the tag. */
    method UnbackRegion(obj: word, size: int, ghost n: nat)
      requires mmu.Ready() && obj % 4096 == 0 && size == 4096 * n && obj + size <= 1023 * 0x40_0000
      requires Space.Backed(mmu.TheSpace(), obj / 4096, obj / 4096 + n)
      requires forall q :: obj / 4096 <= q < obj / 4096 + n && Space.Mapped(mmu.TheSpace(), q) ==>
                 Space.Frame(mmu.TheSpace(), q) != mmu.cr3
      modifies mmu, mmu.mountTable, mmu.pmm, mmu.pmm.bitmap
      ensures mmu.Ready() && mmu.pmm.slack == old(mmu.pmm.slack)
      ensures mmu.TheSpace() == Space.Unback(old(mmu.TheSpace()), obj / 4096, n)
      ensures forall q :: Space.Mapped(mmu.TheSpace(), q) <==>
                Space.Mapped(old(mmu.TheSpace()), q) && !(obj / 4096 <= q < obj / 4096 + n)
    {
      hide Mmu.Ready, Space.FreeUnmap, Space.Consistent, Space.Mapped, Space.Backed;
      ghost var s, p, k := mmu.TheSpace(), obj / 4096, 0;
      var page := obj;
      while page < obj + size
        invariant 0 <= k <= n && page == obj + 4096 * k
        invariant mmu.Ready() && mmu.pmm.slack == old(mmu.pmm.slack)
        invariant mmu.TheSpace() == Space.Unback(s, p, k)
        invariant Space.Backed(mmu.TheSpace(), p + k, p + n)
        invariant forall q :: p + k <= q < p + n && Space.Mapped(mmu.TheSpace(), q) ==>
                    Space.Frame(mmu.TheSpace(), q) != mmu.cr3
        invariant forall q :: Space.Mapped(mmu.TheSpace(), q) <==> Space.Mapped(s, q) && !(p <= q < p + k)
        decreases n - k
      {
        UnbackPage(page, p + n);
        k := k + 1;
        page := page + 4096;
      }
    }

    method UnbackPage(page: word, ghost end: int)
      requires mmu.Ready() && page % 4096 == 0 && page < 1023 * 0x40_0000 && page / 4096 < end
      requires Space.Backed(mmu.TheSpace(), page / 4096, end)
      requires Space.Mapped(mmu.TheSpace(), page / 4096) ==> Space.Frame(mmu.TheSpace(), page / 4096) != mmu.cr3
      modifies mmu, mmu.mountTable, mmu.pmm, mmu.pmm.bitmap
      ensures mmu.Ready() && mmu.pmm.slack == old(mmu.pmm.slack)
      ensures old(Space.Mapped(mmu.TheSpace(), page / 4096))
      ensures mmu.TheSpace() == Space.FreeUnmap(old(mmu.TheSpace()), page / 4096)
      ensures Space.Backed(mmu.TheSpace(), page / 4096 + 1, end)
      ensures forall q :: Space.Mapped(mmu.TheSpace(), q) <==> q != page / 4096 && old(Space.Mapped(mmu.TheSpace(), q))
      ensures forall q :: Space.Mapped(mmu.TheSpace(), q) ==>
                Space.Frame(mmu.TheSpace(), q) ==
                  old(if Space.Mapped(mmu.TheSpace(), q) then Space.Frame(mmu.TheSpace(), q) else 0)
    {
      hide Mmu.Counted, Space.UnmapPage, Space.Consistent, Describes, FrameAllocator.Valid, AfterUnmap;
      ghost var u := mmu.TheSpace();
      mmu.CountedConsistent();
      Space.BackedStep(u, page / 4096, end);
      Space.FreeUnmapGives(u, page / 4096);
      var frame := mmu.GetPhysAdr(page);
      mmu.FreeFrame(frame);
      mmu.UnmapPage(page);
    }

    /** There are frames for the tables of any best fit vregion_alloc may choose for n pages. */
    ghost predicate TablesAffordable(n: nat)
      requires mmu.Valid()
      reads this, mmu, mmu.mountTable, mmu.pmm, mmu.pmm.bitmap, heap
    {
      forall i: nat :: BestFit(heap.blocks, i, n) ==>
        |mmu.pmm.free| >= IoSpace.Tables(mmu.TheSpace(), KERNEL_PAGE + heap.blocks[i].start, n)
    }

    method MapIo(ioRegion: word, size: word) returns (region: word, ghost i: nat)
      requires Valid() && heap.list.order != [] && TablesAffordable(Rounded(size) / 4096)
      modifies mmu, mmu.mountTable, mmu.pmm, mmu.pmm.bitmap, heap, heap.heapInfo, heap.list
      ensures Sound() && mmu.pmm.slack == old(mmu.pmm.slack) && heap.list.nodes.Keys == old(heap.list.nodes.Keys)
      ensures region == 0 || Rounded(size) != 0 ==> Valid()
      ensures region == 0 || Rounded(size) == 0 ==>
                mmu.TheSpace() == old(mmu.TheSpace()) && heap.blocks == old(heap.blocks)
      ensures region == 0 ==>
                forall j :: 0 <= j < |heap.blocks| && heap.blocks[j].IsFree() ==> 4096 * heap.blocks[j].pages < size
      ensures region != 0 ==>
                var n, p := Rounded(size) / 4096, region / 4096;
                && region % 4096 == 0 && BestFit(old(heap.blocks), i, n)
                && region == Addr(old(heap.blocks)[i].start) && heap.blocks == Taken(old(heap.blocks), i, n)
                && mmu.TheSpace() == IoSpace.MapRun(old(mmu.TheSpace()), p, ioRegion / 4096, n)
                && IoSpace.Around(old(mmu.TheSpace()), mmu.TheSpace(), p, p + n)
      ensures region != 0 ==> forall a: word :: region <= a < region + Rounded(size) ==> MayWrite(mmu.ram, mmu.cr3, a)
      ensures region != 0 && Rounded(size) == 0 ==>
                i < |heap.blocks| && heap.blocks[i].IsFree() && (Valid() <==> !PageBefore(heap.blocks, i))
    {
      hide Tiled, Coalesced, DistinctHeaders, Tagged, Described, FreeHeaders, Carve, FreeUnmapped, Mmu.Counted;
      hide Rounded, IoSpace.MapRun, IoSpace.Around, IoSpace.Tables, FrameAllocator.Valid, Describes;
      ghost var s, bs := mmu.TheSpace(), heap.blocks;
      var r;
      r, i := heap.VregionAlloc(size);
      if r == 0 {
        return 0, i;
      }
      region := r;
      RegionUnmapped(bs, i, s, Rounded(size) / 4096);
      MapRegion(region, ioRegion, size, i, bs);
      IoPages(s, mmu.TheSpace(), region / 4096, region / 4096 + Rounded(size) / 4096);
      TakenUnmapped(bs, i, Rounded(size) / 4096, s, mmu.TheSpace());
      RegionMayBeWritten(region, Rounded(size));
      NoPages(s, region / 4096, ioRegion / 4096);
    }

    /** vheap.c:246-250: the pages name the caller's frames, whose addresses wrap at 32 bits. */
    method MapRegion(region: int, ioRegion: word, size: word, ghost i: nat, ghost bs: Blocks)
      requires mmu.Ready() && Tiled(bs, FIRST, LAST) && FreeUnmapped(bs, mmu.TheSpace())
      requires BestFit(bs, i, Rounded(size) / 4096) && region == Addr(bs[i].start)
      requires |mmu.pmm.free| >= IoSpace.Tables(mmu.TheSpace(), KERNEL_PAGE + bs[i].start, Rounded(size) / 4096)
      modifies mmu, mmu.mountTable, mmu.pmm, mmu.pmm.bitmap
      ensures mmu.Ready() && mmu.pmm.slack == old(mmu.pmm.slack)
      ensures mmu.TheSpace() == IoSpace.MapRun(old(mmu.TheSpace()), region / 4096, ioRegion / 4096,
          Rounded(size) / 4096)
      ensures IoSpace.Around(old(mmu.TheSpace()), mmu.TheSpace(), region / 4096, region / 4096 + Rounded(size) / 4096)
    {
      hide Tiled, FreeUnmapped, Mmu.Ready, Rounded, IoSpace.Around, IoSpace.Tables, Space.Mapped,
          Space.MapPage, IoPage;
      FrameBehind(ioRegion, 0);
      ghost var s, n, p, f := mmu.TheSpace(), Rounded(size) / 4096, region / 4096, ioRegion / 4096;
      RegionUnmapped(bs, i, s, n);
      mmu.CountedConsistent();
      ghost var k := 0;
      var page := region;
      var io: word := ioRegion;
      LoopEnd(region, size, n);
      while page < (region + size) % WORD
        invariant 0 <= k <= n && page == region + 4096 * k && io == IoPage(ioRegion, k)
        invariant mmu.Ready() && mmu.pmm.slack == old(mmu.pmm.slack)
        invariant mmu.TheSpace() == IoSpace.MapRun(s, p, f, k)
        decreases n - k
      {
        IoSpace.NextTable(s, p, f, n, k);
        FrameBehind(ioRegion, k);
        MapIoPage(page, io);
        k := k + 1;
        page := page + 4096;
        io := (io + 4096) % WORD;
      }
      IoSpace.MapRunAround(s, p, f, n);
    }

    method MapIoPage(page: word, io: word)
      requires mmu.Ready() && page % 4096 == 0 && page < 1023 * 0x40_0000
      requires !Space.Mapped(mmu.TheSpace(), page / 4096)
      requires page / 4096 / 1024 !in mmu.tables ==> mmu.pmm.free != {}
      modifies mmu, mmu.mountTable, mmu.pmm, mmu.pmm.bitmap
      ensures mmu.Ready() && mmu.pmm.slack == old(mmu.pmm.slack)
      ensures mmu.TheSpace() == Space.MapPage(old(mmu.TheSpace()), page / 4096, io / 4096)
    {
      hide Mmu.Valid, Mmu.Counted, Mmu.AllWritable, Space.MapPage, Space.Min, AfterMap, Entry, IsEntry;
      mmu.MapPage(io, page, 3);
    }

    /** unmap_io; unlike vfree it does not turn NULL down, so NULL is no address a caller may pass. */
    method UnmapIo(obj: word, newHeader: int, ghost i: nat)
      requires Valid()
      requires obj % 4096 == 0 ==>
                 && i < |heap.blocks| && !heap.blocks[i].IsFree() && obj == Addr(heap.blocks[i].start)
                 && (forall q :: obj / 4096 <= q < obj / 4096 + heap.blocks[i].pages ==>
                     Space.Mapped(mmu.TheSpace(), q))
                 && newHeader !in heap.list.nodes && KERNEL_REGION < newHeader < WORD
      modifies mmu, mmu.mountTable, mmu.pmm, mmu.pmm.bitmap, heap, heap.heapInfo, heap.list
      ensures Valid() && mmu.pmm.slack == old(mmu.pmm.slack)
      ensures obj % 4096 != 0 ==> mmu.TheSpace() == old(mmu.TheSpace()) && heap.blocks == old(heap.blocks)
      ensures obj % 4096 == 0 ==>
                && mmu.TheSpace() == IoSpace.UnmapRun(old(mmu.TheSpace()), obj / 4096, old(heap.blocks)[i].pages)
                && heap.blocks == Release(old(heap.blocks), i, newHeader)
    {
      hide Tiled, Coalesced, DistinctHeaders, Tagged, Described, FreeHeaders, Release, FreeUnmapped;
      hide Mmu.Ready, IoSpace.UnmapRun, Space.Mapped;
      if obj != obj / 4096 * 4096 {
        return;
      }
      ghost var s, bs, n := mmu.TheSpace(), heap.blocks, heap.blocks[i].pages;
      UsedTag(bs, heap.heapInfo[..], i);
      var size := heap.heapInfo[(obj - KERNEL_REGION) / 4096];
      UnmapRegion(obj, size, n);
      ReleaseUnmapped(bs, i, newHeader, s, mmu.TheSpace());
      heap.VregionFree(obj, newHeader, i);
    }

    /** vheap.c:264-267: unmap every page; the frames are not the allocator's. */
    method UnmapRegion(obj: word, size: int, ghost n: nat)
      requires mmu.Ready() && obj % 4096 == 0 && size == 4096 * n && obj + size <= 1023 * 0x40_0000
      requires forall q :: obj / 4096 <= q < obj / 4096 + n ==> Space.Mapped(mmu.TheSpace(), q)
      modifies mmu, mmu.mountTable, mmu.pmm, mmu.pmm.bitmap
      ensures mmu.Ready() && mmu.pmm.slack == old(mmu.pmm.slack)
      ensures mmu.TheSpace() == IoSpace.UnmapRun(old(mmu.TheSpace()), obj / 4096, n)
      ensures forall q :: Space.Mapped(mmu.TheSpace(), q) <==>
                Space.Mapped(old(mmu.TheSpace()), q) && !(obj / 4096 <= q < obj / 4096 + n)
    {
      hide Mmu.Ready, Space.UnmapPage, Space.Mapped;
      ghost var s, p, k := mmu.TheSpace(), obj / 4096, 0;
      var page := obj;
      while page < obj + size
        invariant 0 <= k <= n && page == obj + 4096 * k
        invariant mmu.Ready() && mmu.pmm.slack == old(mmu.pmm.slack)
        invariant mmu.TheSpace() == IoSpace.UnmapRun(s, p, k)
        invariant forall q :: Space.Mapped(mmu.TheSpace(), q) <==> Space.Mapped(s, q) && !(p <= q < p + k)
        decreases n - k
      {
        UnmapIoPage(page);
        k := k + 1;
        page := page + 4096;
      }
    }

    method UnmapIoPage(page: word)
      requires mmu.Ready() && page % 4096 == 0 && page < 1023 * 0x40_0000
      requires Space.Mapped(mmu.TheSpace(), page / 4096)
      modifies mmu, mmu.mountTable, mmu.pmm, mmu.pmm.bitmap
      ensures mmu.Ready() && mmu.pmm.slack == old(mmu.pmm.slack)
      ensures mmu.TheSpace() == Space.UnmapPage(old(mmu.TheSpace()), page / 4096)
      ensures forall q :: Space.Mapped(mmu.TheSpace(), q) <==> q != page / 4096 && old(Space.Mapped(mmu.TheSpace(), q))
    {
      hide Mmu.Counted, Space.UnmapPage, Describes, FrameAllocator.Valid, AfterUnmap;
      ghost var u := mmu.TheSpace();
      forall q ensures Space.Mapped(Space.UnmapPage(u, page / 4096), q) <==> q != page / 4096 && Space.Mapped(u, q) {
        Space.UnmapPageExact(u, page / 4096, q);
      }
      mmu.UnmapPage(page);
    }
  }

  /**
   A region that is allocated and freed again leaves the frames, the frame count, the page tables, the address
   map and the free blocks as they were; only the address of the block's header may be another one. For a size
   that rounds to 0 there is no region to free: the address handed out lies in a block that stays free.
   */
  method AllocateThenFree(m: Memory, size: word, newHeader: int)
    requires m.Valid() && m.heap.list.order != [] && m.Affordable(Rounded(size) / 4096)
    requires newHeader !in m.heap.list.nodes && KERNEL_REGION < newHeader < WORD
    modifies m.mmu, m.mmu.mountTable, m.mmu.pmm, m.mmu.pmm.bitmap, m.heap, m.heap.heapInfo, m.heap.list
    ensures m.Sound() && m.mmu.TheSpace() == old(m.mmu.TheSpace()) && (Rounded(size) != 0 ==> m.Valid())
    ensures m.mmu.pmm.availableMem == old(m.mmu.pmm.availableMem)
    ensures FreeExtents(m.heap.blocks) == old(FreeExtents(m.heap.blocks))
  {
    hide Memory.Sound, VirtualHeap.Valid, Carve, Release, FreeExtents, Space.Back, Space.Unback, Space.Between;
    hide Space.Mapped, Rounded, Memory.Affordable, Space.Backed, Coalesced;
    ghost var s, bs, n := m.mmu.TheSpace(), m.heap.blocks, Rounded(size) / 4096;
    m.Facts();
    var region, i := m.Vmalloc(size, 0);
    if region != 0 && Rounded(size) != 0 {
      ghost var u, p := m.mmu.TheSpace(), region / 4096;
      CarvedBlock(bs, i, n);
      Space.BetweenBacked(s, u, p, p + n);
      Space.BetweenFrames(s, u, p, p + n);
      m.Vfree(region, newHeader, i);
      CarveReleaseExtents(bs, i, n, newHeader);
      Space.UnbackBetween(s, u, p, n, n);
      Space.NothingLeft(s, m.mmu.TheSpace(), p + n);
    }
    m.Facts();
  }

  /** The same for a device that is mapped and unmapped again. */
  method MapThenUnmapIo(m: Memory, ioRegion: word, size: word, newHeader: int)
    requires m.Valid() && m.heap.list.order != [] && m.TablesAffordable(Rounded(size) / 4096)
    requires newHeader !in m.heap.list.nodes && KERNEL_REGION < newHeader < WORD
    modifies m.mmu, m.mmu.mountTable, m.mmu.pmm, m.mmu.pmm.bitmap, m.heap, m.heap.heapInfo, m.heap.list
    ensures m.Sound() && m.mmu.TheSpace() == old(m.mmu.TheSpace()) && (Rounded(size) != 0 ==> m.Valid())
    ensures m.mmu.pmm.availableMem == old(m.mmu.pmm.availableMem)
    ensures FreeExtents(m.heap.blocks) == old(FreeExtents(m.heap.blocks))
  {
    hide Memory.Sound, VirtualHeap.Valid, Carve, Release, FreeExtents, IoSpace.MapRun, IoSpace.UnmapRun, IoSpace.Around;
    hide Space.Mapped, Rounded, Memory.TablesAffordable, Coalesced;
    ghost var s, bs, n := m.mmu.TheSpace(), m.heap.blocks, Rounded(size) / 4096;
    m.Facts();
    var region, i := m.MapIo(ioRegion, size);
    if region != 0 && Rounded(size) != 0 {
      ghost var u, p := m.mmu.TheSpace(), region / 4096;
      CarvedBlock(bs, i, n);
      IoPages(s, u, p, p + n);
      m.UnmapIo(region, newHeader, i);
      CarveReleaseExtents(bs, i, n, newHeader);
      IoSpace.UnmapRunAround(s, u, p, n, n);
      IoSpace.AllUnmapped(s, m.mmu.TheSpace(), p + n);
    }
    m.Facts();
  }

  lemma IoPages(s: Space.Space, u: Space.Space, lo: int, hi: int)
    requires IoSpace.Around(s, u, lo, hi)
    ensures forall q :: Space.Mapped(u, q) <==> Space.Mapped(s, q) || lo <= q < hi
  {
    hide Space.Consistent, Space.Mapped;
  }

  lemma CarvedBlock(bs: Blocks, i: nat, n: int)
    requires i < |bs|
    ensures i < |Carve(bs, i, n)| && Carve(bs, i, n)[i] == Block(bs[i].start, n, 0)
  {
    CarveAt(bs, i, n, i);
  }

  lemma UsedTag(bs: Blocks, tags: seq<int>, i: nat)
    requires Tagged(bs, tags) && i < |bs| && !bs[i].IsFree()
    ensures InTags(bs[i]) && tags[bs[i].start] == 4096 * bs[i].pages
  {
    assert TagOk(tags, bs[i]);
  }
}
