/**
 kernel/modules/memory/vmm.c's init_mm on the page tables that kernel/modules/kstartup.asm leaves: from the boot
 loader's memory map to a memory manager that vmalloc and map_io can work with.
 */
module Boot {
  import opened Sets
  import opened Pmm
  import opened Vmm
  import Space
  import opened Regions
  import opened VHeap
  import opened Vmalloc
  import Grid
  import TagPages
  import KHeap
  import SlabState
  import SlabMoves
  import SlabRuns

  const CR3 := 1  // the directory lies in frame 1

  // ---- what kstartup.asm:54-92 leaves in memory ----

  /** The directory: tables for the first 4 MiB, the kernel and the stack, and its own slot. */
  function DirWord(j: nat): word {
    if j == 0 then 0x5003 else if j == 896 then 0x2003
    else if j == 1022 then 0x3003 else if j == 1023 then 0x1003 else 0
  }

  /** Word j of the kernel's table: the kernel lies in consecutive frames from 1 MiB on. */
  function KernelWord(kernelPages: nat, j: nat): word
    requires j < 1024
  {
    if j < kernelPages then 0x10_0003 + 4096 * j else 0
  }

  /** The table of the first 4 MiB, in frame 5, is cleared only in part: nothing is said about it. */
  ghost predicate Booted(ram: Ram, kernelPages: nat) {
    && IsRam(ram) && 0 < kernelPages <= 1024
    && (forall j :: 0 <= j < 1024 ==> ram[CR3][j] == DirWord(j))
    && (forall j :: 0 <= j < 1024 ==> ram[2][j] == KernelWord(kernelPages, j))
    && (forall j :: 0 <= j < 1024 ==> ram[3][j] == if j == 1022 then 0x4003 else 0)
  }

  /** The kernel's frames. */
  function KernelFrame(j: nat): nat {
    256 + j
  }

  function EntriesOf(row: seq<word>): map<int, int>
    requires |row| == 1024
  {
    map j | 0 <= j < 1024 && Present(row[j]) :: FrameOf(row[j])
  }

  /** The tables that stay when init_mm has dropped the one of the first 4 MiB. */
  function KernelTables(kernelPages: nat): map<int, Table> {
    map[896 := Space.Table(2, map j | 0 <= j < kernelPages :: KernelFrame(j)), 1022 := Space.Table(3, map[1022 := 4])]
  }

  function BootTables(ram: Ram, kernelPages: nat): map<int, Table>
    requires IsRam(ram)
  {
    KernelTables(kernelPages)[0 := Space.Table(5, EntriesOf(ram[5]))]
  }

  lemma BootDescribes(ram: Ram, kernelPages: nat)
    requires Booted(ram, kernelPages)
    ensures Describes(ram, CR3, BootTables(ram, kernelPages))
  {
    var tables := BootTables(ram, kernelPages);
    KernelEntries(ram, kernelPages);
    assert EntriesAt(ram[5], tables[0].entries);
    hide EntriesAt, EntriesOf, KernelWord;
    forall d | d in tables ensures TableAt(ram, CR3, d, tables[d]) {
    }
  }

  lemma KernelEntries(ram: Ram, kernelPages: nat)
    requires Booted(ram, kernelPages)
    ensures EntriesAt(ram[2], KernelTables(kernelPages)[896].entries)
    ensures EntriesAt(ram[3], KernelTables(kernelPages)[1022].entries)
  {
    hide KernelWord;
    forall j | 0 <= j < 1024
      ensures Present(ram[2][j]) <==> j < kernelPages
      ensures j < kernelPages ==> FrameOf(ram[2][j]) == 256 + j
    {
      KernelWordIs(kernelPages, j);
    }
  }

  lemma KernelWordIs(kernelPages: nat, j: nat)
    requires j < 1024
    ensures Present(KernelWord(kernelPages, j)) <==> j < kernelPages
    ensures j < kernelPages ==> FrameOf(KernelWord(kernelPages, j)) == KernelFrame(j)
    ensures j < kernelPages ==> Writable(KernelWord(kernelPages, j))
  {
    assert 0x10_0003 + 4096 * j == 4096 * (256 + j) + 3;
  }

  /** What stays of the boot tables can be written to. */
  lemma BootWritable(ram: Ram, kernelPages: nat)
    requires Booted(ram, kernelPages)
    ensures Writables(ram, CR3, KernelTables(kernelPages))
  {
    hide KernelWord;
    var tables := KernelTables(kernelPages);
    forall j | 0 <= j < kernelPages ensures Writable(ram[2][j]) {
      KernelWordIs(kernelPages, j);
    }
    assert TableWritable(ram, CR3, 896, tables[896]) && TableWritable(ram, CR3, 1022, tables[1022]);
  }

  /** The kernel's own frames stay out of the allocator exactly up to the 64 KiB that are reserved for it. */
  lemma KernelFramesKept(m: MemMap, kernelPages: nat)
    requires WellFormed(m) && m.highMemReserved == 64
    ensures (forall j :: 0 <= j < kernelPages ==> KernelFrame(j) !in Promised(m)) <==>
              kernelPages <= 16 || m.highMem / 4 == 16
  {
    hide Range;
    assert FramesOf(64) == 16;
    if kernelPages > 16 && m.highMem / 4 > 16 {
      assert KernelFrame(16) in Promised(m);
    }
  }

  // ---- init_mm ----

  const KHEAP_PAGE := 0xE1000   // the page of kheap's first slab
  const INDEX_PAGE := 0xE0F84   // the page of its entry in the index
  const FIRST_TAG := 0xE0FC0    // the page of the first tag of the virtual heap
  const LAST_TAG := 0xE0FFE     // and of its last

  /** The frames of the directory and the tables are reserved. */
  lemma LowFramesReserved(m: MemMap, f: int)
    requires WellFormed(m) && m.lowMemReserved == 24 && f in Promised(m)
    ensures 6 <= f < FRAMES
  {
    hide Range;
    assert FramesOf(24) == 6;
  }

  /** vmm.c:114-130: the frame allocator, the first 4 MiB unmapped, the use counts. */
  method StartMmu(m: MemMap, ram: Ram, ghost kernelPages: nat) returns (mmu: Mmu)
    requires Booted(ram, kernelPages) && WellFormed(m) && m.lowMemReserved == 24 && m.highMemReserved == 64
    ensures fresh(mmu) && fresh(mmu.mountTable) && fresh(mmu.pmm) && fresh(mmu.pmm.bitmap)
    ensures mmu.Ready() && mmu.pmm.slack == Roundings(m)
    ensures mmu.TheSpace() == Space.Space(Promised(m) + {5}, KernelTables(kernelPages))
  {
    hide FrameAllocator.BitmapOk, Promised, Describes, Roundings;
    var pmm := new FrameAllocator();
    pmm.InitPmm(m);
    forall f | f in Promised(m) ensures 6 <= f < FRAMES {
      LowFramesReserved(m, f);
    }
    BootDescribes(ram, kernelPages);
    mmu := new Mmu(pmm, ram, CR3, BootTables(ram, kernelPages));
    mmu.UnmapDir(0);
    NoBootTable(ram, kernelPages);
    BootWritable(ram, kernelPages);
    mmu.CountMounts();
  }

  lemma NoBootTable(ram: Ram, kernelPages: nat)
    requires Booted(ram, kernelPages)
    ensures BootTables(ram, kernelPages) - {0} == KernelTables(kernelPages)
    ensures 0 in BootTables(ram, kernelPages) && BootTables(ram, kernelPages)[0].frame == 5
    ensures forall d :: d in KernelTables(kernelPages) ==> KernelTables(kernelPages)[d].entries != map[]
  {
    assert 0 in KernelTables(kernelPages)[896].entries && 1022 in KernelTables(kernelPages)[1022].entries;
  }

  /** Mapped are the kernel, the stack and these pages; there are tables for their slots only. */
  ghost predicate Maps(s: Space.Space, kernelPages: nat, pages: set<int>, slots: set<int>, free: nat) {
    && Space.Consistent(s) && |s.free| == free && s.tables.Keys == slots
    && forall q :: Space.Mapped(s, q) <==> 0xE0000 <= q < 0xE0000 + kernelPages || q == 0xFFBFE || q in pages
  }

  lemma StartMaps(s: Space.Space, m: MemMap, kernelPages: nat)
    requires 0 < kernelPages <= 1024 && WellFormed(m) && m.lowMemReserved == 24
    requires s == Space.Space(Promised(m) + {5}, KernelTables(kernelPages))
    ensures Maps(s, kernelPages, {}, {896, 1022}, |Promised(m)| + 1)
  {
    hide Promised;
    forall f | f in Promised(m) ensures 6 <= f < FRAMES {
      LowFramesReserved(m, f);
    }
    assert 0 in KernelTables(kernelPages)[896].entries && 1022 in KernelTables(kernelPages)[1022].entries;
    forall d | d in s.tables ensures Space.TableOk(s, d) {
    }
    assert s.tables.Keys == {896, 1022};
  }

  /** One page backed by alloc_page and map_page. */
  lemma MapsMore(s: Space.Space, kernelPages: nat, pages: set<int>, slots: set<int>, free: nat, p: int)
    requires Maps(s, kernelPages, pages, slots, free) && !Space.Mapped(s, p)
    requires free >= if p / 1024 in slots then 1 else 2
    ensures Maps(Space.AllocMap(s, p), kernelPages, pages + {p}, slots + {p / 1024},
        if p / 1024 in slots then free - 1 else free - 2)
  {
    hide Space.Consistent, Space.Mapped, Space.AllocMap, Space.Takes;
    Space.AllocMapTakes(s, p);
    Space.AllocMapConsistent(s, p);
    TakesMaps(s, Space.AllocMap(s, p), p);
    AllocTables(s, p);
    assert p / 1024 in slots ==> slots + {p / 1024} == slots;
  }

  lemma TakesMaps(s: Space.Space, v: Space.Space, p: int)
    requires Space.Takes(s, v, p)
    ensures forall q :: Space.Mapped(v, q) <==> q == p || Space.Mapped(s, q)
    ensures |v.free| + |v.tables| + 1 == |s.free| + |s.tables|
  {
    hide Space.Mapped;
  }

  lemma AllocTables(s: Space.Space, p: int)
    requires |s.free| >= if p / 1024 in s.tables then 1 else 2
    ensures Space.AllocMap(s, p).tables.Keys == s.tables.Keys + {p / 1024}
    ensures |Space.AllocMap(s, p).tables| == |s.tables| + if p / 1024 in s.tables then 0 else 1
  {
    var f := Space.Min(s.free);
    var w, v := s.(free := s.free - {f}), Space.AllocMap(s, p);
    assert |w.free| == |s.free| - 1;
    Space.MapPageTables(w, p, f);
    hide Space.MapPage;
    assert v.tables.Keys == s.tables.Keys + {p / 1024};
    assert p / 1024 in s.tables ==> s.tables.Keys + {p / 1024} == s.tables.Keys;
    assert |v.tables| == |v.tables.Keys| && |s.tables| == |s.tables.Keys|;
  }

  /** kheap.c:453 and 465: the page of the first slab and the page of its index entry. */
  method InitKheapPages(mmu: Mmu, ghost kernelPages: nat, ghost free: nat)
    requires mmu.Ready() && Maps(mmu.TheSpace(), kernelPages, {}, {896, 1022}, free) && free >= 4
    requires kernelPages <= 1024
    modifies mmu, mmu.mountTable, mmu.pmm, mmu.pmm.bitmap
    ensures mmu.Ready() && mmu.pmm.slack == old(mmu.pmm.slack)
    ensures Maps(mmu.TheSpace(), kernelPages, {KHEAP_PAGE, INDEX_PAGE}, {896, 899, 900, 1022}, free - 4)
    ensures mmu.TheSpace() == Space.AllocMap(Space.AllocMap(old(mmu.TheSpace()), KHEAP_PAGE), INDEX_PAGE)
  {
    hide Mmu.Ready, Space.AllocMap, Space.Consistent, Space.Mapped;
    MapsMore(mmu.TheSpace(), kernelPages, {}, {896, 1022}, free, KHEAP_PAGE);
    mmu.BackPage(4096 * KHEAP_PAGE);
    MapsMore(mmu.TheSpace(), kernelPages, {} + {KHEAP_PAGE}, {896, 1022} + {900}, free - 2, INDEX_PAGE);
    mmu.BackPage(4096 * INDEX_PAGE);
    assert {} + {KHEAP_PAGE} + {INDEX_PAGE} == {KHEAP_PAGE, INDEX_PAGE};
    assert {896, 1022} + {900} + {899} == {896, 899, 900, 1022};
  }

  /** vheap.c:82-92: line 86 takes a frame, line 91 another one, which it maps. */
  method BackTag(mmu: Mmu, heapinfo: word)
    requires mmu.Ready() && heapinfo < 1023 * 0x40_0000
    requires !Space.Mapped(mmu.TheSpace(), heapinfo / 4096)
    requires |mmu.pmm.free| >= if heapinfo / 4096 / 1024 in mmu.tables then 2 else 3
    modifies mmu, mmu.mountTable, mmu.pmm, mmu.pmm.bitmap
    ensures mmu.Ready() && mmu.pmm.slack == old(mmu.pmm.slack)
    ensures mmu.TheSpace() == TagPages.BackAsWritten(old(mmu.TheSpace()), heapinfo / 4096)
  {
    hide Mmu.Counted, Describes, FrameAllocator.Valid, Space.AllocMap, Space.Min;
    if mmu.GetPhysAdr(heapinfo) == 0 {
      var physPage := mmu.AllocFrame();
      assert |mmu.pmm.free| == |old(mmu.pmm.free)| - 1;
      mmu.BackPage(heapinfo / 4096 * 4096);
    }
  }

  lemma MapsWritten(s: Space.Space, kernelPages: nat, pages: set<int>, slots: set<int>, free: nat, p: int)
    requires Maps(s, kernelPages, pages, slots, free) && !Space.Mapped(s, p) && p / 1024 in slots && free >= 2
    ensures Maps(TagPages.BackAsWritten(s, p), kernelPages, pages + {p}, slots, free - 2)
  {
    hide Space.Consistent, Space.Mapped, Space.AllocMap;
    var f := Space.Min(s.free);
    TagPages.FewerFree(s, f);
    MapsMore(s.(free := s.free - {f}), kernelPages, pages, slots, free - 1, p);
    assert slots + {p / 1024} == slots;
  }

  /** vheap.c:282-283: the pages of the virtual heap's first and last tag. */
  method InitTagPages(mmu: Mmu, ghost kernelPages: nat, ghost free: nat)
    requires mmu.Ready() && kernelPages <= 1024 && free >= 4
    requires Maps(mmu.TheSpace(), kernelPages, {KHEAP_PAGE, INDEX_PAGE}, {896, 899, 900, 1022}, free)
    modifies mmu, mmu.mountTable, mmu.pmm, mmu.pmm.bitmap
    ensures mmu.Ready() && mmu.pmm.slack == old(mmu.pmm.slack)
    ensures Maps(mmu.TheSpace(), kernelPages, {KHEAP_PAGE, INDEX_PAGE, FIRST_TAG, LAST_TAG}, {896, 899, 900, 1022},
        free - 4)
    ensures mmu.TheSpace() ==
            TagPages.BackAsWritten(TagPages.BackAsWritten(old(mmu.TheSpace()), FIRST_TAG), LAST_TAG)
  {
    hide Mmu.Ready, TagPages.BackAsWritten, Space.Consistent, Space.Mapped;
    MapsWritten(mmu.TheSpace(), kernelPages, {KHEAP_PAGE, INDEX_PAGE}, {896, 899, 900, 1022}, free, FIRST_TAG);
    BackTag(mmu, 0xE0FC_0000);
    MapsWritten(mmu.TheSpace(), kernelPages, {KHEAP_PAGE, INDEX_PAGE} + {FIRST_TAG}, {896, 899, 900, 1022}, free - 2,
        LAST_TAG);
    BackTag(mmu, 0xE0FF_EFBC);
    assert {KHEAP_PAGE, INDEX_PAGE} + {FIRST_TAG} + {LAST_TAG} == {KHEAP_PAGE, INDEX_PAGE, FIRST_TAG, LAST_TAG};
  }

  lemma HeaderPlace(u: SlabState.Heap, a: int)
    requires SlabState.Inv(u) && SlabMoves.InUse(u, a)
    ensures KERNEL_REGION < a < WORD
  {
    SlabRuns.BlockPlace(u, a);
  }

  lemma HeapUnmapped(s: Space.Space, kernelPages: nat, pages: set<int>, slots: set<int>, free: nat, header: int)
    requires Maps(s, kernelPages, pages, slots, free) && kernelPages <= 1024 && forall q :: q in pages ==> q < 0xF0000
    ensures FreeUnmapped([Block(FIRST, LAST - FIRST, header)], s)
  {
    hide Space.Consistent, Space.Mapped;
  }

  /** Each of the two tag pages costs a frame of RAM that is neither free nor in use afterwards. */
  ghost predicate LosesTwice(s: Space.Space) {
    var u := TagPages.BackAsWritten(s, FIRST_TAG);
    !TagPages.NoneLost(s, u) && !TagPages.NoneLost(u, TagPages.BackAsWritten(u, LAST_TAG))
  }

  lemma TagsLoseFrames(s: Space.Space, kernelPages: nat, free: nat)
    requires kernelPages <= 1024 && free >= 4
    requires Maps(s, kernelPages, {KHEAP_PAGE, INDEX_PAGE}, {896, 899, 900, 1022}, free) && TagPages.PagesTaken(s)
    ensures LosesTwice(s)
  {
    hide Space.Consistent, Space.Mapped, TagPages.BackAsWritten, TagPages.NoneLost, TagPages.PagesTaken;
    TagPages.WrittenLosesExactly(s, FIRST_TAG);
    MapsWritten(s, kernelPages, {KHEAP_PAGE, INDEX_PAGE}, {896, 899, 900, 1022}, free, FIRST_TAG);
    TagPages.StillTaken(s, FIRST_TAG);
    TagPages.WrittenLosesExactly(TagPages.BackAsWritten(s, FIRST_TAG), LAST_TAG);
  }

  /** Before the tags the frames of mapped pages are out of the allocator, if the kernel's own are. */
  lemma TaglessTaken(s: Space.Space, m: MemMap, kernelPages: nat)
    requires 0 < kernelPages <= 1024 && WellFormed(m) && m.lowMemReserved == 24 && m.highMemReserved == 64
    requires kernelPages <= 16 || m.highMem / 4 == 16
    requires s == Space.Space(Promised(m) + {5}, KernelTables(kernelPages)) && |Promised(m)| >= 7
    ensures TagPages.PagesTaken(Space.AllocMap(Space.AllocMap(s, KHEAP_PAGE), INDEX_PAGE))
  {
    KernelFramesKept(m, kernelPages);
    hide Promised;
    assert 4 !in Promised(m) by {
      if 4 in Promised(m) {
        LowFramesReserved(m, 4);
      }
    }
    assert TagPages.PagesTaken(s);
    StartMaps(s, m, kernelPages);
    hide Maps, Space.AllocMap, Space.Mapped, TagPages.PagesTaken, KernelTables;
    TwoMore(s, kernelPages, |Promised(m)| + 1);
  }

  lemma TwoMore(s: Space.Space, kernelPages: nat, free: nat)
    requires Maps(s, kernelPages, {}, {896, 1022}, free) && free >= 4 && kernelPages <= 1024 && TagPages.PagesTaken(s)
    ensures TagPages.PagesTaken(Space.AllocMap(Space.AllocMap(s, KHEAP_PAGE), INDEX_PAGE))
  {
    hide Space.AllocMap, Space.Mapped, Space.Consistent, TagPages.PagesTaken;
    MapsMore(s, kernelPages, {}, {896, 1022}, free, KHEAP_PAGE);
    TagPages.TakenMore(s, KHEAP_PAGE);
    TagPages.TakenMore(Space.AllocMap(s, KHEAP_PAGE), INDEX_PAGE);
  }

  /** kheap.c:449-466 and vheap.c:276; unless frames are refused kmalloc has a block for the header. */
  method FirstHeader() returns (kheap: KHeap.Kernel, header: int)
    ensures fresh(kheap) && SlabState.Inv(kheap.State()) && (header == 0 ==> kheap.refusals > 0)
    ensures header != 0 ==> SlabMoves.InUse(kheap.State(), header) && KERNEL_REGION < header < WORD
  {
    hide SlabState.Inv, SlabMoves.Outcome, SlabMoves.InUse;
    kheap := new KHeap.Kernel();
    ghost var h := kheap.State();
    assert KHeap.IsOf(h.nodes, SlabState.KHEAP_START + 32, 32, 0);
    ghost var o;
    header, o := kheap.Kmalloc(16, 0);
    SlabMoves.OutcomeMeans(h, kheap.State(), header, o, 0);
    assert o == 16 by {
      assert Grid.IsObjSize(16);
    }
    if header != 0 {
      HeaderPlace(kheap.State(), header);
    }
  }

  /** vheap.c:274-284. */
  method InitVheap(mmu: Mmu, header: int, ghost kernelPages: nat, ghost free: nat) returns (memory: Memory)
    requires mmu.Ready() && kernelPages <= 1024 && free >= 4 && KERNEL_REGION < header < WORD
    requires Maps(mmu.TheSpace(), kernelPages, {KHEAP_PAGE, INDEX_PAGE}, {896, 899, 900, 1022}, free)
    modifies mmu, mmu.mountTable, mmu.pmm, mmu.pmm.bitmap
    ensures fresh(memory) && memory.mmu == mmu && fresh(memory.heap) && fresh(memory.heap.heapInfo)
    ensures fresh(memory.heap.list) && memory.Valid() && mmu.pmm.slack == old(mmu.pmm.slack)
    ensures memory.heap.blocks == [Block(FIRST, LAST - FIRST, header)]
    ensures Maps(mmu.TheSpace(), kernelPages, {KHEAP_PAGE, INDEX_PAGE, FIRST_TAG, LAST_TAG}, {896, 899, 900, 1022},
        free - 4)
    ensures mmu.TheSpace() ==
            TagPages.BackAsWritten(TagPages.BackAsWritten(old(mmu.TheSpace()), FIRST_TAG), LAST_TAG)
  {
    hide Mmu.Ready, Maps, TagPages.BackAsWritten, VirtualHeap.Sound, FreeUnmapped;
    InitTagPages(mmu, kernelPages, free);
    var heap := new VirtualHeap(header);
    HeapUnmapped(mmu.TheSpace(), kernelPages, {KHEAP_PAGE, INDEX_PAGE, FIRST_TAG, LAST_TAG}, {896, 899, 900, 1022},
        free - 4, header);
    heap.Parts();
    memory := new Memory(mmu, heap);
  }

  /**
   init_mm. It leaves a memory that vmalloc, vfree, map_io and unmap_io may be called on, unless kmalloc has no
   frames for the first header; the source then writes to address 0. tagless is the address space before the
   virtual heap has its tags.
   */
  method InitMm(m: MemMap, ram: Ram, ghost kernelPages: nat)
    returns (memory: Memory?, kheap: KHeap.Kernel, ghost tagless: Space.Space)
    requires Booted(ram, kernelPages) && WellFormed(m) && m.lowMemReserved == 24 && m.highMemReserved == 64
    requires |Promised(m)| >= 7
    ensures SlabState.Inv(kheap.State()) && (memory == null ==> kheap.refusals > 0)
    ensures memory != null ==>
              && fresh(memory) && fresh(memory.mmu) && fresh(memory.mmu.mountTable) && fresh(memory.mmu.pmm)
              && fresh(memory.mmu.pmm.bitmap) && fresh(memory.heap) && fresh(memory.heap.heapInfo)
              && fresh(memory.heap.list) && memory.Valid() && memory.mmu.pmm.slack == Roundings(m)
              && |memory.heap.blocks| == 1 && memory.heap.blocks[0].IsFree()
              && SlabMoves.InUse(kheap.State(), memory.heap.blocks[0].header)
              && Maps(memory.mmu.TheSpace(), kernelPages, {KHEAP_PAGE, INDEX_PAGE, FIRST_TAG, LAST_TAG},
                      {896, 899, 900, 1022}, |Promised(m)| - 7)
              && memory.mmu.TheSpace() == TagPages.BackAsWritten(TagPages.BackAsWritten(tagless, FIRST_TAG), LAST_TAG)
    ensures kernelPages <= 16 || m.highMem / 4 == 16 ==> LosesTwice(tagless)
  {
    hide Mmu.Ready, FrameAllocator.Valid, Promised, Roundings, Maps, SlabState.Inv, SlabMoves.InUse;
    hide TagPages.BackAsWritten, TagPages.PagesTaken, Memory.Valid, KernelTables, LosesTwice, Space.AllocMap;
    var mmu := StartMmu(m, ram, kernelPages);
    StartMaps(mmu.TheSpace(), m, kernelPages);
    if kernelPages <= 16 || m.highMem / 4 == 16 {
      TaglessTaken(mmu.TheSpace(), m, kernelPages);
    }
    InitKheapPages(mmu, kernelPages, |Promised(m)| + 1);
    tagless := mmu.TheSpace();
    if kernelPages <= 16 || m.highMem / 4 == 16 {
      TagsLoseFrames(tagless, kernelPages, |Promised(m)| - 3);
    }
    var header;
    kheap, header := FirstHeader();
    memory := null;
    if header != 0 {
      memory := InitVheap(mmu, header, kernelPages, |Promised(m)| - 3);
    }
  }
}
