/**
 Inputs on which the source misses what it is meant to do: for every condition stated elsewhere, a case that
 it shuts out, reached by calls where the state matters. At the end, one format and all that is printed for it.
 */
module Witnesses {
  import opened Pmm
  import opened Seqs
  import opened Sets
  import opened Regions
  import opened HeaderList
  import opened VHeap
  import Space
  import Boot
  import TagPages
  import Vmalloc
  import Vmm
  import Kprintf
  import Vprintf
  import IsoNumber
  import Grid
  import SlabState
  import SlabSteps
  import SlabGrowth
  import SlabMoves
  import KHeap
  import KHeapAsWritten

  // ---- the frame allocator ----

  /** Pages are taken until alloc_page's test is about to fail. */
  method TakeAll(pmm: FrameAllocator)
    requires pmm.Valid() && pmm.slack == 4
    modifies pmm, pmm.bitmap
    ensures pmm.Valid() && pmm.free == {} && pmm.availableMem == 4
  {
    hide FrameAllocator.BitmapOk;
    while pmm.availableMem > 4
      invariant pmm.Valid() && pmm.slack == 4
      decreases |pmm.free|
    {
      pmm.GuardExact();
      var page := pmm.AllocPage(0);
    }
    pmm.GuardExact();
  }

  /** A map whose roundings make up a page: without a free frame alloc_page's test still lets calls through. */
  method GuardLetsThrough() returns (pmm: FrameAllocator)
    ensures pmm.Valid() && pmm.free == {} && pmm.availableMem == 4
  {
    var m := MemMap(639, 24, 4097, 64);
    assert FramesOf(24) == 6 && FramesOf(64) == 16;
    hide Promised, FrameAllocator.Valid;
    pmm := new FrameAllocator();
    pmm.InitPmm(m);
    TakeAll(pmm);
  }

  // ---- the header list ----

  lemma OnlyHeader(order: seq<int>, h: int)
    requires Elems(order) == {h} && Distinct(order)
    ensures order == [h]
  {
    assert h in Elems(order);
    forall i | 0 <= i < |order| ensures order[i] == h {
      assert order[i] in Elems(order);
    }
    DistinctFits(order, [h]);
  }

  lemma TwoHeaders(nodes: Headers, order: seq<int>, a: int, b: int)
    requires Elems(order) == {a, b} && a != b && Distinct(order) && AllIn(nodes, order) && Sorted(nodes, order)
    requires a in nodes && b in nodes && nodes[a].size < nodes[b].size
    ensures order == [a, b]
  {
    assert a in Elems(order) && b in Elems(order);
    var i :| 0 <= i < |order| && order[i] == a;
    var j :| 0 <= j < |order| && order[j] == b;
    forall x | x in order ensures x in [a, b] {
      assert x in Elems(order);
    }
    DistinctFits(order, [a, b]);
    assert i < j;
  }

  /** init_vheap, then a region at the start of the heap. */
  method OneRegion(header: int, size: word) returns (heap: VirtualHeap, first: int)
    requires KERNEL_REGION < header < WORD && size % 4096 == 0 && 0 < size < 4096 * (LAST - FIRST - 1)
    ensures fresh(heap) && fresh(heap.heapInfo) && fresh(heap.list) && heap.Valid()
    ensures first == Addr(FIRST) && heap.list.nodes.Keys == {header}
    ensures heap.blocks == [Block(FIRST, size / 4096, 0),
                            Block(FIRST + size / 4096, LAST - FIRST - size / 4096, header)]
  {
    hide Carve, Tagged, BlocksAre;
    heap := new VirtualHeap(header);
    StillListed(heap, 0);
    ghost var i;
    first, i := heap.VregionAlloc(size);
    CarveAlone(Block(FIRST, LAST - FIRST, header), size / 4096);
  }

  /** And one page more; the rest of the heap is the one free block. */
  method TwoRegions(header: int, size: word) returns (heap: VirtualHeap, first: int)
    requires KERNEL_REGION < header < WORD && size % 4096 == 0 && 0 < size < 4096 * (LAST - FIRST - 1)
    ensures fresh(heap) && fresh(heap.heapInfo) && fresh(heap.list) && heap.Valid() && heap.list.order == [header]
    ensures first == Addr(FIRST) && heap.list.nodes.Keys == {header}
    ensures heap.blocks == [Block(FIRST, size / 4096, 0), Block(FIRST + size / 4096, 1, 0),
                            Block(FIRST + size / 4096 + 1, LAST - FIRST - size / 4096 - 1, header)]
  {
    hide Carve, Tagged, BlocksAre;
    heap, first := OneRegion(header, size);
    StillListed(heap, 1);
    ghost var i;
    var second;
    second, i := heap.VregionAlloc(4096);
    CarveSecond(Block(FIRST, size / 4096, 0), Block(FIRST + size / 4096, LAST - FIRST - size / 4096, header), 1);
    LastIsListed(heap, header);
  }

  lemma LastIsListed(heap: VirtualHeap, header: int)
    requires heap.Sound() && |heap.blocks| == 3 && heap.blocks[2].header == header != 0
    requires !heap.blocks[0].IsFree() && !heap.blocks[1].IsFree()
    ensures heap.list.order == [header]
  {
    hide BlocksAre, Tagged;
    HeadersOf(heap);
    assert FreeHeaders(heap.blocks) == {header};
    OnlyHeader(heap.list.order, header);
  }

  lemma CarveAlone(b: Block, n: int)
    requires n < b.pages
    ensures Carve([b], 0, n) == [Block(b.start, n, 0), Block(b.start + n, b.pages - n, b.header)]
  {
  }

  lemma CarveSecond(a: Block, b: Block, n: int)
    requires n < b.pages
    ensures Carve([a, b], 1, n) == [a, Block(b.start, n, 0), Block(b.start + n, b.pages - n, b.header)]
  {
  }

  lemma HeadersOf(heap: VirtualHeap)
    requires heap.Sound()
    ensures Elems(heap.list.order) == FreeHeaders(heap.blocks) && Described(heap.blocks, heap.list.nodes)
    ensures Distinct(heap.list.order) && AllIn(heap.list.nodes, heap.list.order)
    ensures Sorted(heap.list.nodes, heap.list.order)
  {
  }

  /** The smaller of two regions is given back to a list that starts with a larger one: it is not in it afterwards. */
  method SmallerItemIsLost(header: int, newHeader: int) returns (heap: VirtualHeap)
    requires KERNEL_REGION < header < WORD && KERNEL_REGION < newHeader < WORD && header != newHeader
    ensures var list := heap.list;
            && newHeader in list.nodes && list.nodes[newHeader].size == 4096
            && Reads(list.nodes, list.headers, [header]) && !Reads(list.nodes, list.headers, [newHeader, header])
  {
    hide Tagged, BlocksAre;
    var first;
    heap, first := TwoRegions(header, 4096);
    HeadersOf(heap);
    assert HeaderOk(heap.list.nodes, heap.blocks[2]);
    var region, size := heap.MergeNeighbours(first, 4096, 0);
    heap.list.Write(newHeader, region, size);
    OnlyHeader(heap.list.order, header);
    assert InsertAt([header], 0, newHeader) == [newHeader, header];
    heap.list.InsertAsWritten(newHeader);
  }

  /**
   A large region is given back behind a small block; the next allocation takes the small block's header, the
   first, from the list, and with it the large one is gone.
   */
  method FirstTakesAll(header: int, newHeader: int) returns (heap: VirtualHeap)
    requires KERNEL_REGION < header < WORD && KERNEL_REGION < newHeader < WORD && header != newHeader
    ensures var list := heap.list;
            && newHeader in list.nodes && list.nodes[newHeader].size == 64000 * 4096
            && Reads(list.nodes, list.headers, []) && !Reads(list.nodes, list.headers, [newHeader])
  {
    hide Tagged, BlocksAre, VirtualHeap.Valid;
    var first;
    heap, first := TwoRegions(header, 64000 * 4096);
    heap.VregionFree(first, newHeader, 0);
    heap.Parts();
    HeadersOf(heap);
    assert heap.blocks ==
           [Block(FIRST, 64000, newHeader), Block(FIRST + 64000, 1, 0), Block(FIRST + 64001, 495, header)];
    assert HeaderOk(heap.list.nodes, heap.blocks[0]) && HeaderOk(heap.list.nodes, heap.blocks[2]);
    TwoHeaders(heap.list.nodes, heap.list.order, header, newHeader);
    assert RemoveAt([header, newHeader], 0) == [newHeader];
    heap.list.RemoveAsWritten(header, 0);
  }

  // ---- requests that round to no page ----

  lemma StillListed(heap: VirtualHeap, i: nat)
    requires heap.Sound() && i < |heap.blocks| && heap.blocks[i].IsFree()
    ensures heap.list.order != []
  {
    HeaderOfBlock(heap.blocks, i);
    assert heap.blocks[i].header in Elems(heap.list.order);
  }

  /** One page is allocated; then a request for almost 4 GiB succeeds and clears that page's size tag. */
  method SizeTagIsCleared(header: int) returns (heap: VirtualHeap, first: int, second: int)
    requires KERNEL_REGION < header < WORD
    ensures first == 0xF000_0000 && second == first + 4096 && !heap.Valid()
    ensures |heap.blocks| == 2 && heap.blocks[0] == Block(FIRST, 1, 0) && heap.blocks[1].IsFree()
    ensures heap.heapInfo.Length == TAGS && heap.heapInfo[FIRST] == 0
  {
    hide Tagged, BlocksAre;
    heap := new VirtualHeap(header);
    StillListed(heap, 0);
    ghost var i;
    first, i := heap.VregionAlloc(4096);
    CarveAt([Block(FIRST, LAST - FIRST, header)], 0, 1, 0);
    CarveAt([Block(FIRST, LAST - FIRST, header)], 0, 1, 1);
    StillListed(heap, 1);
    second, i := heap.VregionAlloc(0xFFFF_F001);
    assert heap.heapInfo[..][FIRST] == 0;
  }

  /** A request for nothing gets the address that the next request gets too, and clears an index entry of kheap. */
  method SameAddressTwice(header: int, slab: int) returns (heap: VirtualHeap, first: int, second: int, entry: int)
    requires KERNEL_REGION < header < WORD && slab != 0
    ensures first == second == 0xF000_0000 && heap.Valid() && entry == 0
  {
    heap := new VirtualHeap(header);
    heap.heapInfo[FIRST - 1] := slab;
    assert TagOk(heap.heapInfo[..], heap.blocks[0]);
    StillListed(heap, 0);
    ghost var i;
    first, i := heap.VregionAlloc(0);
    assert heap.heapInfo[..][FIRST - 1] == 0;
    entry := heap.heapInfo[FIRST - 1];
    second, i := heap.VregionAlloc(4096);
  }

  // ---- page tables ----

  /** The one page mapped through the table of the kernel heap is its first. */
  lemma OneEntry(s: Space.Space, kernelPages: nat, free: nat)
    requires kernelPages <= 1024
    requires Boot.Maps(s, kernelPages, {Boot.KHEAP_PAGE, Boot.INDEX_PAGE, Boot.FIRST_TAG, Boot.LAST_TAG},
                 {896, 899, 900, 1022}, free)
    ensures 900 in s.tables && |s.tables[900].entries| == 1 && Space.Mapped(s, 0xE1000) && !Space.Mapped(s, 0xE1001)
  {
    var entries := s.tables[900].entries;
    assert 900 in s.tables.Keys && Space.TableOk(s, 900);
    assert Space.Mapped(s, 0xE1000);
    forall j ensures j in entries.Keys <==> j in {0} {
      if j in entries {
        assert (900 * 1024 + j) / 1024 == 900 && (900 * 1024 + j) % 1024 == j;
        assert Space.Mapped(s, 900 * 1024 + j);
      }
    }
    SameInts(entries.Keys, {0});
  }

  /** After init_mm unmapping page 0xE1001000, which is not mapped, takes the table with the kernel heap's page. */
  method OtherPageIsLost(m: MemMap, ram: Vmm.Ram, ghost kernelPages: nat) returns (memory: Vmalloc.Memory?)
    requires Boot.Booted(ram, kernelPages) && WellFormed(m) && m.lowMemReserved == 24 && m.highMemReserved == 64
    requires |Promised(m)| >= 7
    ensures memory != null ==> !Space.Mapped(memory.mmu.TheSpace(), 0xE1000)
  {
    hide Promised, Vmalloc.Memory.Valid, Space.Mapped, Boot.Maps, Boot.LosesTwice;
    hide Vmm.Mmu.Valid, Vmm.Mmu.Ready, Vmm.Mmu.AllWritable, Vmm.AfterUnmap, Vmm.OnlyUnmapped;
    hide SlabState.Inv, SlabMoves.InUse, TagPages.BackAsWritten;
    var kheap;
    ghost var tagless;
    memory, kheap, tagless := Boot.InitMm(m, ram, kernelPages);
    if memory != null {
      ghost var s := memory.mmu.TheSpace();
      OneEntry(s, kernelPages, |Promised(m)| - 7);
      MmuOf(memory);
      CountOf(memory.mmu, 900);
      memory.mmu.UnmapPage(0xE100_1000);
      TableGone(s);
    }
  }

  lemma MmuOf(memory: Vmalloc.Memory)
    requires memory.Valid()
    ensures memory.mmu.Ready() && memory.mmu.Valid()
  {
  }

  lemma CountOf(mmu: Vmm.Mmu, d: int)
    requires mmu.Ready() && 0 <= d < 1023 && d in mmu.tables
    ensures mmu.mountTable.Length == 2048 && mmu.mountTable[d] == |mmu.tables[d].entries|
  {
    assert Vmm.CountMatches(mmu.mountTable[..][d], mmu.tables, d);
  }

  lemma TableGone(s: Space.Space)
    requires 900 in s.tables
    ensures !Space.Mapped(Vmm.AfterUnmap(s, 900, 1, 0), 0xE1000)
  {
  }

  // ---- the slab heap ----

  /** The first block of 8192 bytes, if there are frames for it, is one that slab_free turns down. */
  method FirstBigBlockIsRefused() returns (heap: KHeap.Kernel, a: int)
    ensures SlabState.Inv(heap.State())
    ensures a == 0 ==> heap.refusals > 0
    ensures a != 0 ==>
              && SlabMoves.InUse(heap.State(), a) && SlabState.SizeOf(heap.State(), heap.owner[a]) == 8192
              && a % 8192 != 0
  {
    hide SlabState.Inv, SlabMoves.Outcome;
    heap := new KHeap.Kernel();
    ghost var h := heap.State();
    assert KHeap.IsOf(h.nodes, SlabState.KHEAP_START + 32, 32, 0);
    ghost var o;
    a, o := heap.Kmalloc(8192, 0);
    SlabMoves.OutcomeMeans(h, heap.State(), a, o, 0);
    assert o == 8192 by {
      assert Grid.IsObjSize(8192);
    }
    if a != 0 {
      KHeapAsWritten.AcceptedExactly(heap.State(), a);
    }
  }

  /** The first block of 32 bytes is the second object of its slab: freeing it declares the whole slab free. */
  method FirstFreeBreaksHeap() returns (heap: KHeap.Kernel, a: int)
    ensures SlabState.Inv(heap.State()) && SlabMoves.InUse(heap.State(), a)
    ensures var h := heap.State(); var s := h.owner[a];
            && s in h.slabs && s in h.views && h.slabs[s].cache in h.nodes && h.slabs[s].cache in h.lists
            && 0 < SlabState.SizeOf(h, s) && !SlabState.Inv(KHeapAsWritten.FreeAsWritten(h, s, a))
  {
    hide SlabState.Inv, SlabMoves.Outcome;
    heap := new KHeap.Kernel();
    ghost var h, c := heap.State(), SlabState.KHEAP_START + 32;
    assert KHeap.IsOf(h.nodes, c, 32, 0);
    ghost var o;
    a, o := heap.Kmalloc(32, 0);
    SlabMoves.OutcomeMeans(h, heap.State(), a, o, 0);
    assert o == 32 by {
      assert Grid.IsObjSize(32);
    }
    SecondObject(h, heap.State(), c, a);
    KHeapAsWritten.FreeAsWrittenExact(heap.State(), a, 1);
  }

  lemma SecondObject(h: SlabState.Heap, u: SlabState.Heap, c: int, a: int)
    requires SlabState.Inv(h) && SlabState.Inv(u) && SlabMoves.InUse(u, a) && c == SlabState.KHEAP_START + 32
    requires h.slabs == map[SlabState.KHEAP_START := SlabState.Slab(0, 0, 126, c + 32, c)]
    requires h.nodes == map[c := SlabState.Cache(0, 0, 32, 4096, 0, SlabState.KHEAP_START, 0, 0)]
    requires u == KHeap.TookFirst(h, c) && a == KHeap.FirstFree(h, c)
    ensures var s := u.owner[a];
            && s in u.slabs && s in u.views && u.slabs[s].freeCount == 125 && SlabState.SizeOf(u, s) == 32
            && |u.views[s].grid| == 127 && u.views[s].grid[1] == a && a % 32 == 0
  {
    hide SlabState.Inv, SlabState.Core, SlabSteps.PopFree, SlabMoves.Move, Grid.SlabGrid, Grid.GridFrom;
    hide SlabMoves.InUse;
    InvIsCore(h);
    var s := SlabState.KHEAP_START;
    SlabGrowth.SlabPlace(h, s);
    SlabMoves.BlockIsSized(h, s);
    SlabMoves.OnList(h, s);
    SlabSteps.ChainHead(h, s);
    SlabMoves.PopFacts(h, s);
    PoppedOwner(h, s);
    SecondOfGrid(s);
  }

  lemma PoppedOwner(h: SlabState.Heap, s: int)
    requires s in h.slabs && s in h.views && h.views[s].chain != [] && h.slabs[s].freeObj in h.links
    ensures SlabSteps.PopFree(h, s).owner == h.owner[h.slabs[s].freeObj := s]
  {
  }

  lemma InvIsCore(h: SlabState.Heap)
    requires SlabState.Inv(h)
    ensures SlabState.Core(h)
  {
  }

  lemma SecondOfGrid(base: int)
    requires base % 4096 == 0
    ensures |Grid.SlabGrid(base, 32)| == 127 && Grid.SlabGrid(base, 32)[1] == base + 64
  {
    hide Grid.SlabGrid, Grid.GridFrom;
    KHeap.InitialGrid(base);
    assert Grid.SlabGrid(base, 32)[1] == Grid.GridFrom(base + 64, base + 4096, 32)[0];
  }

  // ---- the formatter ----

  const NONE := Kprintf.Flags(false, false, false, false, false, false, false, false)

  /** %2.*s with precision -1 prints "a" in a field of four. */
  method NegativePrecisionPads() returns (out: string)
    ensures out == "   a" && Kprintf.Text("a", 2, -1, NONE.(precision := true)) == " a"
  {
    var printed;
    out, printed := Kprintf.FormatString("a", 2, -1, NONE.(precision := true));
  }

  /** %hd of -1 prints 65535. */
  lemma ShortMinusOne()
    ensures Vprintf.ShortValue(0xFFFF_FFFF, Vprintf.LengthH) == -1
    ensures Vprintf.Narrow(0xFFFF_FFFF, Vprintf.LengthH) == 65535
    ensures Kprintf.ReadBack(Kprintf.Number(65535, 10, 0, 1, NONE.(signed := true))) == 65535
  {
    hide Kprintf.Number, Kprintf.ReadBack;
    Kprintf.NumberReadsBack(65535, 0, 1, NONE.(signed := true));
  }

  /** "%c" prints one character and counts two. */
  lemma CharCountsTwice()
    ensures var items := [Vprintf.Conversion("", Vprintf.Absent, Vprintf.Absent, Vprintf.LengthNone, 'c')];
            var args := [Vprintf.Word(65)];
            Vprintf.AllOk(items, args) && |Vprintf.Output(items, args)| == 1 && Vprintf.Count(items, args) == 2
  {
  }

  lemma OneDigit(d: nat, base: nat, digits: string)
    requires Kprintf.IsBase(base) && 0 < d < base && d < 10 && |digits| == base
    ensures Kprintf.Digits(d, base, false) == [Kprintf.DigitChar(d, false)]
    ensures IsoNumber.Numeral(d, digits) == [digits[d]]
  {
    Kprintf.LastDigit(d, base, false);
    Kprintf.LastDigit(0, base, false);
    assert IsoNumber.Numeral(0, digits) == "";
  }

  /** %+u of 5: a sign for an unsigned conversion. */
  lemma PlusUnsigned()
    ensures IsoNumber.Printed('u', 5, 0, 0, NONE.(plus := true)) == "+5"
    ensures IsoNumber.IsoText('u', 5, 0, 0, NONE.(plus := true)) == "5"
  {
    hide Kprintf.Digits, IsoNumber.Numeral;
    OneDigit(5, 10, "0123456789");
  }

  /** %+ d of 5: the space flag wins. */
  lemma SpaceOverPlus()
    ensures IsoNumber.Printed('d', 5, 0, 0, NONE.(plus := true, space := true)) == " 5"
    ensures IsoNumber.IsoText('d', 5, 0, 0, NONE.(plus := true, space := true)) == "+5"
  {
    hide Kprintf.Digits, IsoNumber.Numeral;
    OneDigit(5, 10, "0123456789");
  }

  /** %#.3o of 7: one zero too many. */
  lemma OctalPrefix()
    ensures IsoNumber.Printed('o', 7, 0, 3, NONE.(hash := true, precision := true)) == "0007"
    ensures IsoNumber.IsoText('o', 7, 0, 3, NONE.(hash := true, precision := true)) == "007"
  {
    hide Kprintf.Digits, IsoNumber.Numeral;
    OneDigit(7, 8, "01234567");
  }

  /** %#.0o of 0: nothing instead of a zero. */
  lemma OctalNothing()
    ensures IsoNumber.Printed('o', 0, 0, 0, NONE.(hash := true, precision := true)) == ""
    ensures IsoNumber.IsoText('o', 0, 0, 0, NONE.(hash := true, precision := true)) == "0"
  {
  }

  /** %.*d with precision -1 of 0: nothing instead of a zero. */
  lemma NegativePrecisionOfZero()
    ensures IsoNumber.Printed('d', 0, 0, -1, NONE.(precision := true)) == ""
    ensures IsoNumber.IsoText('d', 0, 0, -1, NONE.(precision := true)) == "0"
  {
  }

  /** %03.*d with precision -1 of 5: the zero flag is lost. */
  lemma ZeroFlagIsLost()
    ensures IsoNumber.Printed('d', 5, 3, -1, NONE.(precision := true, zeropad := true)) == "  5"
    ensures IsoNumber.IsoText('d', 5, 3, -1, NONE.(precision := true, zeropad := true)) == "005"
  {
    hide Kprintf.Digits, IsoNumber.Numeral;
    OneDigit(5, 10, "0123456789");
  }

  /** %*d with width -3 of 5: no field instead of a left-justified one. */
  lemma NegativeWidth()
    ensures IsoNumber.Printed('d', 5, -3, 0, NONE) == "5"
    ensures IsoNumber.IsoText('d', 5, -3, 0, NONE) == "5  "
  {
    hide Kprintf.Digits, IsoNumber.Numeral;
    OneDigit(5, 10, "0123456789");
  }

  /** The lengths j, z and t are taken for the conversion: the d of "%zd" is printed as it is. */
  lemma SizeLengthIsLost()
    ensures Vprintf.CutAt("%zd", 0, 2) && Vprintf.CutAt("%zd", 2, 3)
  {
    var format := "%zd";
    assert Vprintf.FlagsAt(format, 1, 1) && Vprintf.SizeAt(format, 1, 1) && Vprintf.PrecisionAt(format, 1, 1);
    assert Vprintf.LengthAt(format, 1, 1);
    assert Vprintf.DirectiveAt(format, 0, 2);
  }

  function Simple(conv: char): Vprintf.Item {
    Vprintf.Conversion("", Vprintf.Absent, Vprintf.Absent, Vprintf.LengthNone, conv)
  }

  const BYTE := Vprintf.Conversion("-#", Vprintf.Given("8"), Vprintf.Absent, Vprintf.LengthHH, 'x')
  const SIGNED := Vprintf.Conversion("+", Vprintf.Absent, Vprintf.Given("3"), Vprintf.LengthNone, 'd')
  const STRING := Vprintf.Conversion("", Vprintf.Star, Vprintf.Absent, Vprintf.LengthNone, 's')

  /** One format with every kind of part, and what vprintf prints for it. */
  method FormatSample() returns (out: string, printed: Kprintf.int32)
    ensures out == "0xab    |+005  ok%" && printed == 18
  {
    hide Prints, Vprintf.CString, Vprintf.IsText, Vprintf.CutAt, Vprintf.Output, Vprintf.Count;
    var format := "%-#8hhx|%+.3d%*s%%";
    ghost var items := [BYTE, Vprintf.Literal('|'), SIGNED, STRING, Simple('%')];
    var args := [Vprintf.Word(0x1AB), Vprintf.Word(5), Vprintf.Word(4), Vprintf.Text("ok")];
    ghost var cuts;
    SampleIs(items, args, format);
    NoNul(format);
    hide *;
    PrintsText(items, args, format, "0xab    |+005  ok%", 18);
    out, printed, cuts := Vprintf.Vprintf(format, args, items);
  }

  /** These items have this text, and with these arguments this output and count. */
  ghost predicate Prints(items: seq<Vprintf.Item>, args: seq<Vprintf.Arg>, text: string, out: string, count: nat) {
    && Vprintf.AllOk(items, args) && Vprintf.FormatText(items) == text
    && Vprintf.Output(items, args) == out && Vprintf.Count(items, args) == count
  }

  lemma OneMore(item: Vprintf.Item, text: string, out: string, count: nat, args: seq<Vprintf.Arg>,
      rest: seq<Vprintf.Item>, left: seq<Vprintf.Arg>, restText: string, restOut: string, restCount: nat)
    requires Vprintf.ItemOk(item) && Vprintf.ArgsOk(item, args) && Vprintf.ArgsLeft(item, args) == left
    requires Vprintf.ItemText(item) == text && Vprintf.ItemOutput(item, args) == out
    requires Vprintf.ItemCount(item, args) == count && Prints(rest, left, restText, restOut, restCount)
    ensures Prints([item] + rest, args, text + restText, out + restOut, count + restCount)
  {
    hide Vprintf.ItemOk, Vprintf.ArgsOk, Vprintf.ArgsLeft, Vprintf.ItemText, Vprintf.ItemOutput, Vprintf.ItemCount;
    assert ([item] + rest)[1..] == rest;
  }

  lemma ByteItem(args: seq<Vprintf.Arg>)
    requires args != [] && args[0] == Vprintf.Word(0x1AB)
    ensures Vprintf.ItemOk(BYTE) && Vprintf.ArgsOk(BYTE, args) && Vprintf.ItemOutput(BYTE, args) == "0xab    "
    ensures Vprintf.ArgsLeft(BYTE, args) == args[1..] && Vprintf.ItemCount(BYTE, args) == 8
  {
    ByteParts();
    hide Kprintf.Value, Kprintf.Number, Vprintf.FlagsOf, Vprintf.SizeOk;
    ByteDigits();
    assert Vprintf.ArgsOk(BYTE, args);
    assert Vprintf.AfterStar(Vprintf.Absent, args) == args && Vprintf.Narrow(0x1AB, Vprintf.LengthHH) == 0xAB;
    Vprintf.Takes(BYTE, args);
    assert Vprintf.SizeValue(BYTE.width, args, 0) == 8 && Vprintf.SizeValue(BYTE.precision, args, 1) == 1;
    assert Vprintf.Converted('x', Vprintf.LengthHH, Vprintf.FlagsOf(BYTE), 8, 1, args) == "0xab    ";
  }

  lemma ByteParts()
    ensures BYTE.width.Given? && Kprintf.Value(BYTE.width.digits, 10) == 8 && Vprintf.SizeOk(BYTE.width)
    ensures BYTE == Vprintf.Conversion("-#", Vprintf.Given("8"), Vprintf.Absent, Vprintf.LengthHH, 'x')
    ensures Vprintf.FlagsOf(BYTE) == NONE.(left := true, hash := true)
    ensures Vprintf.ItemOk(BYTE)
  {
    assert Kprintf.Value("8", 10) == 8;
  }

  lemma ByteDigits()
    ensures Kprintf.Number(0xAB, 16, 8, 1, NONE.(left := true, hash := true)) == "0xab    "
  {
    hide Kprintf.Digits;
    Kprintf.LastDigit(0xAB, 16, false);
    Kprintf.LastDigit(0xA, 16, false);
    Kprintf.LastDigit(0, 16, false);
    assert Kprintf.Digits(0xAB, 16, false) == "ab";
  }

  lemma ByteText()
    ensures Vprintf.ItemText(BYTE) == "%-#8hhx"
  {
  }

  lemma SignedItem(args: seq<Vprintf.Arg>)
    requires args != [] && args[0] == Vprintf.Word(5)
    ensures Vprintf.ItemOk(SIGNED) && Vprintf.ArgsOk(SIGNED, args) && Vprintf.ItemOutput(SIGNED, args) == "+005"
    ensures Vprintf.ArgsLeft(SIGNED, args) == args[1..] && Vprintf.ItemCount(SIGNED, args) == 4
    ensures Vprintf.ItemText(SIGNED) == "%+.3d"
  {
    assert Kprintf.Value("3", 10) == 3;
    hide Kprintf.Value, Kprintf.Digits;
    Kprintf.LastDigit(5, 10, false);
    Kprintf.LastDigit(0, 10, false);
    assert Kprintf.Digits(5, 10, false) == "5";
  }

  lemma StringItem(args: seq<Vprintf.Arg>)
    requires |args| >= 2 && args[0] == Vprintf.Word(4) && args[1] == Vprintf.Text("ok")
    ensures Vprintf.ItemOk(STRING) && Vprintf.ArgsOk(STRING, args) && Vprintf.ItemOutput(STRING, args) == "  ok"
    ensures Vprintf.ArgsLeft(STRING, args) == args[2..] && Vprintf.ItemCount(STRING, args) == 4
    ensures Vprintf.ItemText(STRING) == "%*s"
  {
  }

  lemma SampleIs(items: seq<Vprintf.Item>, args: seq<Vprintf.Arg>, format: string)
    requires items == [BYTE, Vprintf.Literal('|'), SIGNED, STRING, Simple('%')]
    requires args == [Vprintf.Word(0x1AB), Vprintf.Word(5), Vprintf.Word(4), Vprintf.Text("ok")]
    requires format == "%-#8hhx|%+.3d%*s%%"
    ensures Prints(items, args, format, "0xab    |+005  ok%", 18)
  {
    hide *;
    var bar, percent := Vprintf.Literal('|'), Simple('%');
    NoItems();
    ByteItem(args);
    ByteText();
    SignedItem(args[1..]);
    StringItem(args[2..]);
    BarItem(args[1..]);
    PercentItem([]);
    OneMore(percent, "%%", "%", 1, [], [], [], "", "", 0);
    assert [percent] + [] == [percent] && "%%" + "" == "%%" && "%" + "" == "%";
    OneMore(STRING, "%*s", "  ok", 4, args[2..], [percent], [], "%%", "%", 1);
    OneMore(SIGNED, "%+.3d", "+005", 4, args[1..], [STRING] + [percent], args[2..], "%*s" + "%%", "  ok" + "%", 5);
    SampleEnd(args[1..], bar, [SIGNED] + ([STRING] + [percent]));
    OneMore(BYTE, "%-#8hhx", "0xab    ", 8, args, [bar] + ([SIGNED] + ([STRING] + [percent])), args[1..],
        "|%+.3d%*s%%", "|+005  ok%", 10);
    assert [BYTE] + ([bar] + ([SIGNED] + ([STRING] + [percent]))) == items;
    assert "%-#8hhx" + "|%+.3d%*s%%" == format;
    assert "0xab    " + "|+005  ok%" == "0xab    |+005  ok%";
  }

  lemma SampleEnd(args: seq<Vprintf.Arg>, bar: Vprintf.Item, rest: seq<Vprintf.Item>)
    requires bar == Vprintf.Literal('|')
    requires Prints(rest, args, "%+.3d" + ("%*s" + "%%"), "+005" + ("  ok" + "%"), 9)
    ensures Prints([bar] + rest, args, "|%+.3d%*s%%", "|+005  ok%", 10)
  {
    BarItem(args);
    hide *;
    OneMore(bar, "|", "|", 1, args, rest, args, "%+.3d" + ("%*s" + "%%"), "+005" + ("  ok" + "%"), 9);
    assert "|" + ("%+.3d" + ("%*s" + "%%")) == "|%+.3d%*s%%" && "|" + ("+005" + ("  ok" + "%")) == "|+005  ok%";
  }

  lemma NoItems()
    ensures Prints([], [], "", "", 0)
  {
  }

  lemma BarItem(args: seq<Vprintf.Arg>)
    ensures var bar := Vprintf.Literal('|');
            && Vprintf.ItemOk(bar) && Vprintf.ArgsOk(bar, args) && Vprintf.ArgsLeft(bar, args) == args
            && Vprintf.ItemOutput(bar, args) == "|" && Vprintf.ItemCount(bar, args) == 1
            && Vprintf.ItemText(bar) == "|"
  {
  }

  lemma PercentItem(args: seq<Vprintf.Arg>)
    ensures var percent := Simple('%');
            && Vprintf.ItemOk(percent) && Vprintf.ArgsOk(percent, args) && Vprintf.ArgsLeft(percent, args) == args
            && Vprintf.ItemOutput(percent, args) == "%" && Vprintf.ItemCount(percent, args) == 1
            && Vprintf.ItemText(percent) == "%%"
  {
  }

  lemma NoNul(format: string)
    requires format == "%-#8hhx|%+.3d%*s%%"
    ensures Vprintf.CString(format)
  {
  }

  lemma PrintsText(items: seq<Vprintf.Item>, args: seq<Vprintf.Arg>, text: string, out: string, count: nat)
    requires Prints(items, args, text, out, count) && count <= Kprintf.INT32_MAX
    ensures Vprintf.IsText(text, items, args)
    ensures Vprintf.Output(items, args) == out && Vprintf.Count(items, args) == count
  {
  }
}
