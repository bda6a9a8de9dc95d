/**
 kernel/modules/memory/kheap.c: kmalloc and kfree over slabs. The model's kmalloc, cache_create and cache_grow
 call one another as the source's do; that this ends is part of what is proved. kfree and init_kheap are
 modelled with the repairs marked below; what the lines do as written is stated in KHeapAsWritten.
 */
module KHeap {
  import opened Grid
  import Pmm
  import opened Seqs
  import opened Sets
  import opened SlabState
  import opened SlabSteps
  import opened SlabLists
  import opened SlabGrowth
  import opened SlabMoves

  const MM_DMA := 1
  const TYPE_NORMAL := 0
  const TYPE_DMA := 1
  const CACHE_T := 32  // sizeof(cache_t)

  /** The smallest size class that holds a request. */
  ghost predicate LeastClass(size: int, o: int) {
    IsObjSize(o) && size <= o && forall o' :: IsObjSize(o') && size <= o' ==> o <= o'
  }

  /** How deep the mutual recursion can still go: none below the 32-byte normal cache. */
  function Rank(o: int, kind: int): nat {
    if o == 32 && kind == TYPE_NORMAL then 0 else 1
  }

  /** Whether the flags ask for memory that DMA can reach. */
  function TypeOf(flags: int): int {
    if flags % 2 == MM_DMA then TYPE_DMA else TYPE_NORMAL
  }

  function RankOf(size: int, flags: int): nat {
    if 16 < size <= 32 && TypeOf(flags) == TYPE_NORMAL then 0 else 1
  }

  predicate IsOf(nodes: map<int, Cache>, c: int, o: int, kind: int) {
    c in nodes && nodes[c].objSize == o && nodes[c].kind == kind
  }

  /** A cache has a slab to take from. */
  predicate HasRoom(cache: Cache) {
    cache.partial != 0 || cache.free != 0
  }

  /** The cache of 32-byte objects has room: a header comes without growing the heap. */
  ghost predicate SmallReady(nodes: map<int, Cache>) {
    exists c :: IsOf(nodes, c, 32, TYPE_NORMAL) && HasRoom(nodes[c])
  }

  /** What a block for a header can cost: nothing, or a page for the cache it comes from. */
  ghost function HeaderPage(nodes: map<int, Cache>): nat {
    if SmallReady(nodes) then 0 else 4096
  }

  /** By how much one call of cache_grow can raise the end of the heap: a slab, and its header if it lies outside. */
  ghost function GrowthOf(nodes: map<int, Cache>, o: int): nat {
    SlabSize(o) + if SlabSize(o) == 4096 then 0 else HeaderPage(nodes)
  }

  /** The same for kmalloc, which needs a header more for a cache that is not there yet. */
  ghost function BudgetOf(nodes: map<int, Cache>, o: int, kind: int): nat {
    if HasCache(nodes, o, kind) then GrowthOf(nodes, o)
    else HeaderPage(nodes) + SlabSize(o) + if SlabSize(o) == 4096 then 0 else 4096
  }

  /** A cache that was there costs what growing it costs; for another one its header comes first. */
  lemma BudgetSteps(nodes: map<int, Cache>, later: map<int, Cache>, o: int, kind: int)
    ensures HasCache(nodes, o, kind) ==> BudgetOf(nodes, o, kind) == GrowthOf(nodes, o)
    ensures !HasCache(nodes, o, kind) ==> HeaderPage(nodes) + GrowthOf(later, o) <= BudgetOf(nodes, o, kind)
  {
  }

  /** A request for a header finds room or costs a page. */
  lemma SmallBudget(h: Heap)
    requires Inv(h)
    ensures BudgetOf(h.nodes, 32, TYPE_NORMAL) == 4096
    ensures SmallReady(h.nodes) <==> exists c :: IsOf(h.nodes, c, 32, TYPE_NORMAL) && HasRoom(h.nodes[c])
  {
    ListStarts(h);
  }

  /** The two reasons for NULL: too little address space left, or no frames. */
  predicate Refused(end: int, budget: nat, before: nat, after: nat) {
    end + budget > KHEAP_MAX || after > before
  }

  lemma MoreRefused(end: int, budget: nat, end': int, budget': nat, before: nat, middle: nat, after: nat)
    requires Refused(end', budget', middle, after) && end' + budget' <= end + budget && before <= middle
    ensures Refused(end, budget, before, after)
  {
  }

  lemma GrowthIs(nodes: map<int, Cache>, o: int)
    requires IsObjSize(o)
    ensures GrowthOf(nodes, o) == SlabSize(o) + if SlabSize(o) == 4096 then 0 else HeaderPage(nodes)
  {
  }

  /** The state after the first partial slab of a cache has given its first object. */
  function TookFirst(h: Heap, c: int): Heap {
    if c !in h.nodes then h
    else
      var s := h.nodes[c].partial;
      if && s in h.slabs && s in h.views && h.views[s].chain != [] && h.slabs[s].freeObj in h.links
         && h.slabs[s].cache in h.nodes && h.slabs[s].cache in h.lists then Take(h, s) else h
  }

  function FirstFree(h: Heap, c: int): int {
    if c in h.nodes && h.nodes[c].partial in h.slabs then h.slabs[h.nodes[c].partial].freeObj else 0
  }

  /** a is a block of a slab whose region starts at base. */
  predicate BlockOfSlabAt(h: Heap, a: int, base: int) {
    a in h.owner && h.owner[a] in h.views && h.views[h.owner[a]].base == base
  }

  /** a is a block of a slab whose cache has that type. */
  ghost predicate InCacheOf(h: Heap, a: int, kind: int) {
    && a in h.owner && h.owner[a] in h.slabs && h.slabs[h.owner[a]].cache in h.nodes
    && h.nodes[h.slabs[h.owner[a]].cache].kind == kind
  }

  lemma OutcomeKind(h: Heap, u: Heap, a: int, o: int, kind: int)
    requires Outcome(h, u, a, o, kind) && o > 0
    ensures a != 0 ==> InCacheOf(u, a, kind)
  {
  }

  lemma KeptEnd(h: Heap, u: Heap)
    requires Kept(h, u)
    ensures h.heapEnd <= u.heapEnd
  {
  }

  // ---- frames for DMA ----

  /** The frame of an indexed page was asked for with MM_DMA if and only if its slab's cache is of the type DMA. */
  ghost predicate DmaPage(h: Heap, dma: set<int>, p: int)
    requires p in h.info
  {
    && h.info[p] in h.slabs && h.slabs[h.info[p]].cache in h.nodes
    && (p in dma <==> h.nodes[h.slabs[h.info[p]].cache].kind == 1)
  }

  ghost predicate DmaOk(h: Heap, dma: set<int>) {
    forall p :: p in h.info ==> DmaPage(h, dma, p)
  }

  /** Nothing has changed for the pages below an address. */
  ghost predicate DmaKept(before: set<int>, dma: set<int>, end: int) {
    forall p :: p < end / 4096 ==> (p in before <==> p in dma)
  }

  /** The frames of a region have been asked for with or without MM_DMA. */
  ghost predicate Asked(dma: set<int>, region: int, size: int, isDma: bool) {
    forall p :: region / 4096 <= p < (region + size) / 4096 ==> (p in dma <==> isDma)
  }

  lemma DmaSame(h: Heap, u: Heap, dma: set<int>)
    requires DmaOk(h, dma) && SameSizes(h, u) && u.info == h.info
    ensures DmaOk(u, dma)
  {
    forall p | p in u.info ensures DmaPage(u, dma, p) {
      assert DmaPage(h, dma, p);
      var s := h.info[p];
      assert u.info[p] == s && s in h.slabs;
      assert KeepsCache(h.nodes, u.nodes, h.slabs[s].cache);
    }
  }

  lemma GrowsSizes(h: Heap, u: Heap)
    requires Grows(h, u)
    ensures SameSizes(h, u)
  {
  }

  lemma DmaTwice(a: set<int>, b: set<int>, c: set<int>, n: int, m: int)
    requires DmaKept(a, b, n) && DmaKept(b, c, m) && n <= m
    ensures DmaKept(a, c, n)
  {
  }

  lemma AskedStill(dma: set<int>, later: set<int>, region: int, size: int, isDma: bool)
    requires Asked(dma, region, size, isDma) && DmaKept(dma, later, region + size)
    ensures Asked(later, region, size, isDma)
  {
  }

  lemma DmaMarked(h: Heap, a: int, dma: set<int>)
    ensures DmaOk(Mark(h, a), dma) <==> DmaOk(h, dma)
  {
    if DmaOk(h, dma) {
      forall p | p in h.info ensures DmaPage(Mark(h, a), dma, p) {
        assert DmaPage(h, dma, p);
      }
    }
    if DmaOk(Mark(h, a), dma) {
      forall p | p in h.info ensures DmaPage(h, dma, p) {
        assert DmaPage(Mark(h, a), dma, p);
      }
    }
  }

  lemma TakeDma(g: Heap, v: Heap, c: int, s: int, dma: set<int>)
    requires Inv(g) && Ready(g, v, c, s) && DmaOk(g, dma)
    ensures v.slabs[s].freeObj in v.links && DmaOk(Take(v, s), dma)
  {
    TakeInv(v, s);
    TakeInfo(v, s);
    var u := Take(v, s);
    TookSizes(v, u, s, v.slabs[s].freeObj);
    hide Core, Inv, Take, DmaOk, OthersMatch, Took;
    LinksSizes(g, g, v);
    DmaSame(g, v, dma);
    DmaSame(v, u, dma);
  }

  lemma TookSizes(v: Heap, u: Heap, s: int, a: int)
    requires Took(v, u, s, a)
    ensures SameSizes(v, u)
  {
  }

  /** Frames for pages behind the end of the heap are nobody else's affair. */
  lemma DmaAbove(h: Heap, end: int, before: set<int>, dma: set<int>)
    requires Inv(h) && DmaOk(h, before) && DmaKept(before, dma, h.heapEnd)
    ensures DmaOk(h.(heapEnd := end), dma)
  {
    var u := h.(heapEnd := end);
    forall p | p in u.info ensures DmaPage(u, dma, p) {
      assert DmaPage(h, before, p);
    }
  }

  lemma DmaInserted(m: Heap, x: int, o: int, kind: int, k: nat, dma: set<int>)
    requires Inv(m) && MayPut(m.nodes, m.order, x, o, kind, k) && DmaOk(m, dma)
    ensures DmaOk(AddCache(m, x, o, kind, k), dma)
  {
    AddCacheInserted(m, x, o, kind, k);
    hide Inv, MayPut, AddCache, DmaOk;
    InsertedDma(m, AddCache(m, x, o, kind, k), x, o, kind, dma);
  }

  lemma InsertedDma(m: Heap, u: Heap, x: int, o: int, kind: int, dma: set<int>)
    requires Inserted(m, u, x, o, kind) && DmaOk(m, dma)
    ensures DmaOk(u, dma)
  {
    InsertedGrows(m, u, x, o, kind);
    hide Grows, DmaOk;
    GrowsSizes(m, u);
    DmaSame(m, u, dma);
  }

  /** The pages of a new slab have the frames its cache asks for. */
  lemma DmaAdded(m: Heap, c: int, s: int, region: int, links: map<int, int>, info: map<int, int>, dma: set<int>)
    requires MayAdd(m, c, s, region, links, info) && DmaOk(m, dma)
    requires m.nodes[c].slabSize == SlabSize(m.nodes[c].objSize)
    requires Asked(dma, region, m.nodes[c].slabSize, m.nodes[c].kind == 1)
    ensures DmaOk(AddSlab(m, c, s, region, links, info), dma)
  {
    hide SlabGrid, SlabSize, NewLinks, Unclaimed;
    var u := AddSlab(m, c, s, region, links, info);
    forall p | p in u.info ensures DmaPage(u, dma, p) {
      if !(region / 4096 <= p < (region + m.nodes[c].slabSize) / 4096) {
        assert p in m.info && DmaPage(m, dma, p);
      }
    }
  }

  /** There is one cache per size and type. */
  lemma OnlyOfItsKind(h: Heap, c: int, o: int, kind: int)
    requires Inv(h) && IsOf(h.nodes, c, o, kind)
    ensures forall d :: IsOf(h.nodes, d, o, kind) ==> d == c
    ensures HasCache(h.nodes, o, kind)
  {
    assert c in h.order;
    var i :| 0 <= i < |h.order| && h.order[i] == c;
    forall d | IsOf(h.nodes, d, o, kind) ensures d == c {
      assert d in h.order;
      var j :| 0 <= j < |h.order| && h.order[j] == d;
      assert i != j ==> !SameKind(h.nodes, h.order[if i < j then i else j], h.order[if i < j then j else i]);
    }
  }

  /** The slab stays where it is, and is the owner of the block. */
  lemma TakeKeepsBase(g: Heap, v: Heap, c: int, s: int)
    requires Inv(g) && Ready(g, v, c, s) && c in g.nodes
    ensures v.slabs[s].freeObj in v.links && s in g.views
    ensures BlockOfSlabAt(Take(v, s), v.slabs[s].freeObj, g.views[s].base)
  {
    TakeInv(v, s);
    PopOthers(v, s);
    var u := PopFree(v, s);
    hide Core, Inv, OthersMatch, OnlyLinks, Grows, PopFree;
    PopFacts(v, s);
    BasePopped(v, s);
    SameBase(g, v, s);
    if u.slabs[s].freeCount == 0 {
      MoveKeeps(u, s, Full);
      SameBase(u, Move(u, s, Full), s);
    }
  }

  lemma SameBase(g: Heap, v: Heap, s: int)
    requires OnlyLinks(g, v) && s in v.views
    ensures s in g.views && v.views[s].base == g.views[s].base
  {
  }

  lemma BasePopped(v: Heap, s: int)
    requires s in v.slabs && s in v.views && v.views[s].chain != [] && v.slabs[s].freeObj in v.links
    ensures PopFree(v, s).views[s].base == v.views[s].base
  {
  }

  lemma CacheFacts(h: Heap, c: int)
    requires Inv(h) && c in h.nodes
    ensures c in h.lists && IsObjSize(h.nodes[c].objSize) && h.nodes[c].slabSize == SlabSize(h.nodes[c].objSize)
    ensures h.nodes[c].kind == 0 || h.nodes[c].kind == 1
    ensures 0 < h.nodes[c].objSize && 0 < h.nodes[c].slabSize <= 32768 && h.nodes[c].slabSize % 4096 == 0
    ensures h.nodes[c].objSize == 32 ==> h.nodes[c].slabSize == 4096
    ensures h.nodes[c].free == 0 <==> h.lists[c].free == []
    ensures h.nodes[c].partial == 0 <==> h.lists[c].partial == []
  {
    assert CacheOk(h, c);
    HeadPlace(h, c, Free);
    HeadPlace(h, c, Partial);
  }

  lemma FreshPage(h: Heap, base: int)
    requires Inv(h) && Unclaimed(h, base, 4096)
    ensures base !in h.slabs && base !in h.nodes && base != 0
  {
    PageIsFresh(h, base);
  }

  lemma NewGrid(base: int, o: int)
    requires IsObjSize(o) && base % 4096 == 0 && 0 < base
    ensures 0 < FirstObj(base, o) < base + SlabSize(o) && SlabSize(o) % 4096 == 0 && 0 < SlabSize(o)
    ensures SlabGrid(base, o) == GridFrom(FirstObj(base, o), base + SlabSize(o), o)
    ensures |SlabGrid(base, o)| == Capacity(base, o) && First(SlabGrid(base, o)) == FirstObj(base, o)
  {
    SlabGridCount(base, o);
  }

  lemma MayAddNow(h: Heap, c: int, s: int, base: int, links: map<int, int>, info: map<int, int>)
    requires c in h.nodes && c in h.lists && IsObjSize(h.nodes[c].objSize) && s !in h.slabs && s !in h.nodes && s != 0
    requires h.lists[c].free == [] && Unclaimed(h, base, SlabSize(h.nodes[c].objSize))
    requires Threads(h.links, links, SlabGrid(base, h.nodes[c].objSize))
    requires NewInfo(h.info, info, base, SlabSize(h.nodes[c].objSize), s)
    requires if SlabSize(h.nodes[c].objSize) == 4096 then s == base else s in h.internal
    ensures MayAdd(h, c, s, base, links, info)
  {
  }

  lemma GrowKept(h: Heap, m: Heap, c: int, s: int, region: int, links: map<int, int>, info: map<int, int>)
    requires Kept(h, m) && region == h.heapEnd && MayAdd(m, c, s, region, links, info)
    ensures Kept(h, AddSlab(m, c, s, region, links, info))
  {
    hide Inv, SlabGrid, SlabSize, IsObjSize, NewLinks, Grows, SameUse, AddSlab;
    AddSlabInv(m, c, s, region, links, info);
    AddSlabGrows(m, c, s, region, links, info);
    GrowsTwice(h, m, AddSlab(m, c, s, region, links, info));
    SameUseTwice(h, m, AddSlab(m, c, s, region, links, info));
    AddSlabInfo(h, m, c, s, region, links, info);
  }

  lemma SameUseTwice(h: Heap, m: Heap, u: Heap)
    requires SameUse(h, m) && SameUse(m, u)
    ensures SameUse(h, u)
  {
    hide InUse;
  }

  lemma AddSlabInfo(h: Heap, m: Heap, c: int, s: int, region: int, links: map<int, int>, info: map<int, int>)
    requires InfoKept(h.info, m.info, h.heapEnd / 4096) && region == h.heapEnd && MayAdd(m, c, s, region, links, info)
    ensures InfoKept(h.info, AddSlab(m, c, s, region, links, info).info, h.heapEnd / 4096)
  {
    hide SlabGrid, SlabSize, NewLinks;
  }

  lemma AddSlabResult(m: Heap, c: int, s: int, region: int, links: map<int, int>, info: map<int, int>)
    requires MayAdd(m, c, s, region, links, info)
    ensures var u := AddSlab(m, c, s, region, links, info);
            && s in u.slabs && u.slabs[s].next == 0 && c in u.nodes && u.nodes[c] == m.nodes[c].(free := s)
            && s in u.views && u.views[s].base == region
  {
    hide SlabGrid, SlabSize, NewLinks, NewInfo, Unclaimed;
  }

  lemma AddSlabOnly32(h: Heap, m: Heap, c: int, s: int, region: int, links: map<int, int>, info: map<int, int>)
    requires MayAdd(m, c, s, region, links, info) && m == h.(heapEnd := m.heapEnd) && h.nodes[c].objSize == 32
    ensures Only32(h, AddSlab(m, c, s, region, links, info))
  {
    hide SlabGrid, SlabSize, NewLinks, NewInfo, Unclaimed;
  }

  /** A block got for the header of a slab whose pages were reserved before. */
  lemma HeaderApart(r: Heap, k: Heap, c: int, a: int, region: int, size: int)
    requires Inv(r) && Outcome(r, k, a, 32, 0) && a != 0 && Only32(r, k) && Unclaimed(r, region, size)
    requires c in r.nodes && r.nodes[c].objSize != 32
    ensures var m := Mark(k, a);
            && Kept(r, m)
            && a !in m.slabs && a !in m.nodes && Unclaimed(m, region, size)
            && c in m.nodes && c in m.lists && m.nodes[c] == r.nodes[c] && m.lists[c] == r.lists[c]
  {
    MarkInv(r, k, k.owner[a], a);
    CacheFacts(r, c);
    CacheFacts(k, c);
    hide Inv, Took, SameUse;
    Reserved(r, k, region, size);
  }

  lemma RaiseOnly32(h: Heap, end: int)
    ensures Only32(h, h.(heapEnd := end))
  {
  }

  lemma SameLists32(r: Heap, k: Heap, c: int)
    requires Inv(r) && Kept(r, k) && Only32(r, k) && c in r.nodes && r.nodes[c].objSize != 32
    ensures c in r.lists && c in k.nodes && c in k.lists && k.nodes[c] == r.nodes[c] && k.lists[c] == r.lists[c]
  {
    CacheFacts(r, c);
  }

  lemma Reserved(r: Heap, k: Heap, region: int, size: int)
    requires Unclaimed(r, region, size) && InfoKept(r.info, k.info, r.heapEnd / 4096) && r.heapEnd <= k.heapEnd
    ensures Unclaimed(k, region, size)
  {
  }

  lemma SlabLinks(h: Heap, s: int)
    requires Core(h) && s in h.slabs
    ensures h.slabs[s].prev == 0 || (h.slabs[s].prev in h.slabs && h.slabs[s].prev != s)
    ensures h.slabs[s].next == 0 || (h.slabs[s].next in h.slabs && h.slabs[s].next != s)
    ensures s in h.views && s != 0
  {
    OnList(h, s);
    var c, p := h.slabs[s].cache, h.views[s].place;
    ListLinks(h, c, p);
    var list := ListOf(h.lists[c], p);
    var k :| 0 <= k < |list| && list[k] == s;
    hide Core;
    NeighboursInList(h.slabs, list, k);
    assert LinksAt(h.slabs, list, k);
    if k + 1 < |list| {
      assert list[k + 1] != s;
    }
  }

  /** The head of the list a loose slab joins is another slab. */
  lemma LooseSlab(h: Heap, s: int, to: Place)
    requires Core(h) && s in h.slabs && s in h.views && to != h.views[s].place
    ensures h.slabs[s].cache in h.nodes && h.slabs[s].cache in h.lists
    ensures var u, c := Unhook(h, s), h.slabs[s].cache;
            && s in u.slabs && u.slabs[s].cache == c && c in u.nodes && HeadOf(u.nodes[c], to) != s
            && (HeadOf(u.nodes[c], to) != 0 ==> HeadOf(u.nodes[c], to) in u.slabs)
  {
    MoveKeeps(h, s, to);
    UnhookFloating(h, s);
    UnhookOnlyLinks(h, s);
    var u, c := Unhook(h, s), h.slabs[s].cache;
    FloatingHead(u, s, c, to);
  }

  lemma FloatingHead(u: Heap, s: int, c: int, to: Place)
    requires Floating(u, s) && c in u.nodes && u.slabs[s].cache == c && s in u.views && u.views[s].place != to
    ensures HeadOf(u.nodes[c], to) != s && (HeadOf(u.nodes[c], to) != 0 ==> HeadOf(u.nodes[c], to) in u.slabs)
  {
    ListLinks(u, c, to);
    var list := ListOf(u.lists[c], to);
    assert s != 0 by {
      assert SlabOk(u, s);
    }
    hide Floating;
    if list != [] {
      assert list[0] in list;
    }
  }

  /** What kfree reads for a block in use. */
  lemma FreeFacts(h: Heap, a: int)
    requires Inv(h) && InUse(h, a)
    ensures a / 4096 in h.info && h.info[a / 4096] == h.owner[a]
    ensures var s := h.owner[a];
            && s in h.slabs && s in h.views && h.slabs[s].cache in h.nodes && h.slabs[s].cache in h.lists
            && |h.views[s].grid| == Capacity(s, h.nodes[h.slabs[s].cache].objSize)
            && h.slabs[s].freeCount < |h.views[s].grid| && 1 < |h.views[s].grid|
                && 0 < h.nodes[h.slabs[s].cache].objSize
            && h.nodes[h.slabs[s].cache].slabSize == SlabSize(h.nodes[h.slabs[s].cache].objSize)
            && (h.slabs[s].freeCount == 0 <==> h.views[s].place == Full)
            && (h.slabs[s].freeCount != 0 <==> h.views[s].place == Partial)
            && SizeOf(h, s) == h.nodes[h.slabs[s].cache].objSize
  {
    ObjectPlace(h, a);
    var s := h.owner[a];
    OnList(h, s);
    BlockIsSized(h, s);
    SlabPlace(h, s);
    PushFits(h, s, a);
    CacheFacts(h, h.slabs[s].cache);
    assert Matches(h, s);
    SlabGridCount(h.views[s].base, SizeOf(h, s));
  }

  lemma GiveSteps(h: Heap, s: int, a: int)
    requires Inv(h) && InUse(h, a) && h.owner[a] == s
    ensures s in h.slabs && s in h.views
    ensures var u := PushFree(h, s, a);
            && Core(u) && s in u.slabs && s in u.views && u.slabs[s].cache == h.slabs[s].cache
            && u.nodes == h.nodes && u.lists == h.lists && u.views[s].place == h.views[s].place
            && u.slabs[s].freeCount == h.slabs[s].freeCount + 1
            && (u.views[s].place == Full && u.slabs[s].cache in u.nodes && u.slabs[s].cache in u.lists ==>
                  s in Move(u, s, Partial).slabs && Move(u, s, Partial).slabs[s].freeCount == u.slabs[s].freeCount)
  {
    ObjectPlace(h, a);
    PushShrinks(h, s, a);
    var u := PushFree(h, s, a);
    if u.views[s].place == Full {
      MoveKeeps(u, s, Partial);
    }
  }

  /** The heap of init_kheap with its one page at base: a slab whose first object is the header of its cache. */
  ghost predicate IsInitial(h: Heap, base: int, count: int) {
    && base % 4096 == 0 && KHEAP_START <= base && h.heapEnd == base + 4096 <= KHEAP_MAX && h.caches == base + 32
    && h.slabs == map[base := Slab(0, 0, count, base + 64, base + 32)]
    && h.nodes == map[base + 32 := Cache(0, 0, 32, 4096, 0, base, 0, TYPE_NORMAL)]
    && h.info == map[base / 4096 := base]
    && h.views == map[base := View(base, SlabGrid(base, 32), GridFrom(base + 64, base + 4096, 32), Partial)]
    && h.lists == map[base + 32 := Lists([], [base], [])] && h.order == [base + 32]
    && h.owner == map[base + 32 := base] && h.internal == {base + 32}
    && Threaded(h.links, GridFrom(base + 64, base + 4096, 32))
  }

  lemma InitialInv(h: Heap, base: int)
    requires IsInitial(h, base, 126)
    ensures Inv(h) && forall a :: !InUse(h, a)
  {
    hide SlabGrid, GridFrom, Threaded;
    InitialOrder(h.nodes, base + 32, h.caches, h.order);
    InitialSlab(h, base);
    InitialCache(h, base);
    hide SlabOk, CacheOk, OwnerOk, OrderIs, InList, Matches;
    assert Body(h);
  }

  lemma InitialSlab(h: Heap, base: int)
    requires IsInitial(h, base, 126)
    ensures base in h.slabs && SlabOk(h, base) && InList(h, base) && Matches(h, base)
    ensures base + 32 in h.owner && OwnerOk(h, base + 32)
  {
    InitialChain(h, base);
    hide SlabGrid, GridFrom, Threaded, Partitioned, ChainOk;
  }

  lemma InitialCache(h: Heap, base: int)
    requires IsInitial(h, base, 126)
    ensures base + 32 in h.nodes && CacheOk(h, base + 32)
  {
    hide SlabGrid, GridFrom, Threaded;
    var c := base + 32;
    assert SlabAt(h, c, Partial, [base], 0);
    assert ListOk(h, c, Full) && ListOk(h, c, Partial) && ListOk(h, c, Free);
  }

  lemma InitialOrder(nodes: map<int, Cache>, c: int, caches: int, order: seq<int>)
    requires nodes.Keys == {c} && nodes[c].next == 0 && nodes[c].prev == 0 && nodes[c].objSize == 32
        && nodes[c].kind == 0
    requires caches == c && order == [c]
    ensures OrderIs(nodes, caches, order)
  {
    assert c in nodes;
    assert CacheAt(nodes, order, 0);
  }

  lemma InitialChain(h: Heap, base: int)
    requires IsInitial(h, base, 126)
    ensures ChainOk(h, base) && Partitioned(h, base) && |SlabGrid(base, 32)| == 127
    ensures base + 32 in SlabGrid(base, 32)
  {
    hide SlabGrid, GridFrom, Threaded;
    var grid, chain := SlabGrid(base, 32), GridFrom(base + 64, base + 4096, 32);
    InitialGrid(base);
    assert grid[0] == base + 32;
    forall i | 0 <= i < |chain| ensures chain[i] == grid[i + 1] && chain[i] != grid[0] {
    }
    assert Distinct(chain);
  }

  lemma InitialGrid(base: int)
    requires base % 4096 == 0
    ensures SlabGrid(base, 32) == [base + 32] + GridFrom(base + 64, base + 4096, 32) && |SlabGrid(base, 32)| == 127
    ensures First(GridFrom(base + 64, base + 4096, 32)) == base + 64 && Distinct(SlabGrid(base, 32))
  {
    SlabGridCount(base, 32);
    GridDistinct(base, 32);
    hide GridFrom;
    GridStep(base + 32, base + 4096, 32);
    GridStep(base + 64, base + 4096, 32);
  }

  lemma NothingFreed(h: Heap)
    ensures SameSizes(h, h)
  {
    assert forall c :: c in h.nodes ==> KeepsCache(h.nodes, h.nodes, c);
  }

  lemma ListStarts(h: Heap)
    requires Inv(h)
    ensures h.order != [] && h.caches == h.order[0] && h.caches in h.nodes && HasCache(h.nodes, 32, 0)
  {
    var c :| c in h.nodes && h.nodes[c].objSize == 32 && h.nodes[c].kind == 0;
    assert c in h.order && CacheAt(h.nodes, h.order, 0);
  }

  lemma NextCache(h: Heap, i: nat)
    requires Inv(h) && i < |h.order|
    ensures h.order[i] in h.nodes && (h.nodes[h.order[i]].next == 0 <==> i + 1 == |h.order|)
    ensures i + 1 < |h.order| ==> h.nodes[h.order[i]].next == h.order[i + 1] && h.order[i + 1] in h.nodes
    ensures h.nodes[h.order[i]].prev == if i > 0 then h.order[i - 1] else 0
  {
    NoNull(h);
    assert CacheAt(h.nodes, h.order, i);
    assert i + 1 < |h.order| ==> CacheAt(h.nodes, h.order, i + 1);
  }

  lemma NoSuchCache(h: Heap, i: nat, o: int, kind: int)
    requires Inv(h) && i + 1 == |h.order| && !IsOf(h.nodes, h.order[i], o, kind)
    requires forall j :: 0 <= j < i ==> !IsOf(h.nodes, h.order[j], o, kind)
    ensures !HasCache(h.nodes, o, kind)
  {
    forall c | c in h.nodes ensures !IsOf(h.nodes, c, o, kind) {
      assert c in h.order;
    }
    forall c ensures !(c in h.nodes && h.nodes[c].objSize == o && h.nodes[c].kind == kind) {
      assert !IsOf(h.nodes, c, o, kind);
    }
  }

  lemma NoneOfKind(nodes: map<int, Cache>, o: int, kind: int)
    requires !HasCache(nodes, o, kind)
    ensures forall c :: !IsOf(nodes, c, o, kind)
  {
  }

  lemma KeptInv(h: Heap, u: Heap)
    requires Kept(h, u)
    ensures Inv(u)
  {
  }

  lemma PutFacts(h: Heap, x: int, o: int, kind: int, k: nat)
    requires Inv(h) && MayPut(h.nodes, h.order, x, o, kind, k)
    ensures x != At(h.order, k) && x != Before(h.order, k) && |InsertAt(h.order, k, x)| == |h.order| + 1
    ensures k > 0 ==> Before(h.order, k) == h.order[k - 1] && h.order[k - 1] in h.nodes && h.order[k - 1] != 0
    ensures k < |h.order| ==> At(h.order, k) == h.order[k] && h.order[k] in h.nodes && h.order[k] != 0
  {
    NoNull(h);
    assert OrderIs(h.nodes, h.caches, h.order);
    hide Inv, OrderIs, HasCache, IsObjSize;
    Neighbours(h.nodes, h.caches, h.order, x, o, kind, k);
    if k > 0 {
      InOrder(h.nodes, h.caches, h.order, k - 1);
    }
    if k < |h.order| {
      InOrder(h.nodes, h.caches, h.order, k);
    }
  }

  /** After the writes the front of the list is the new header or the old front. */
  lemma FrontFacts(h: Heap, x: int, o: int, kind: int, k: nat)
    requires Inv(h) && MayPut(h.nodes, h.order, x, o, kind, k)
    ensures var u := AddCache(h, x, o, kind, k);
            && OrderIs(u.nodes, First(u.order), u.order) && 0 !in u.nodes && u.caches == First(u.order)
            && 1 < |u.order| && h.caches == if k == 0 then u.order[1] else u.order[0]
  {
    NoNull(h);
    AddCacheInserted(h, x, o, kind, k);
    ListStarts(h);
    Neighbours(h.nodes, h.caches, h.order, x, o, kind, k);
    hide Inv, OrderIs, HasCache, IsObjSize, LinkCache, SlabSize;
  }

  lemma PreviousCache(nodes: map<int, Cache>, order: seq<int>, i: nat)
    requires OrderIs(nodes, First(order), order) && 0 !in nodes && i < |order|
    ensures order[i] in nodes && nodes[order[i]].prev == if i > 0 then order[i - 1] else 0
    ensures nodes[order[i]].prev == 0 <==> i == 0
  {
    InOrder(nodes, First(order), order, i);
    if i > 0 {
      InOrder(nodes, First(order), order, i - 1);
    }
  }

  lemma HeaderClass(size: int, o: int)
    requires 16 < size <= 32 && LeastClass(size, o)
    ensures o == 32 && TypeOf(0) == TYPE_NORMAL
  {
    assert IsObjSize(32);
  }

  lemma NoBlockMeans(h: Heap, u: Heap, o: int, kind: int)
    requires Outcome(h, u, 0, o, kind)
    ensures Kept(h, u)
  {
  }

  /** The 32-byte normal cache is always there, so no other request for a cache is for it. */
  lemma NeverThe32(nodes: map<int, Cache>, o: int, kind: int, h: Heap)
    requires Inv(h) && h.nodes == nodes && !HasCache(nodes, o, kind)
    ensures Rank(o, kind) == 1
  {
    assert HasCache(nodes, 32, 0);
  }

  /** A block got for the header of a cache. */
  lemma CacheBlock(h: Heap, k: Heap, a: int, o: int, kind: int)
    requires Inv(h) && Outcome(h, k, a, 32, 0) && a != 0 && Only32(h, k) && !HasCache(h.nodes, o, kind)
    ensures var m := Mark(k, a);
            && Kept(h, m) && a !in m.slabs && a !in m.nodes && a in m.internal
            && m.caches == h.caches && m.order == h.order && !HasCache(m.nodes, o, kind)
  {
    MarkInv(h, k, k.owner[a], a);
    hide Inv, Took, SameUse;
    forall c | c in k.nodes ensures !(k.nodes[c].objSize == o && k.nodes[c].kind == kind) {
      assert c in h.nodes && KeepsCache(h.nodes, k.nodes, c);
    }
  }

  lemma AddCacheKept(h: Heap, m: Heap, x: int, o: int, kind: int, k: nat)
    requires Kept(h, m) && MayPut(m.nodes, m.order, x, o, kind, k) && x in m.internal && x !in m.slabs
    requires kind == 0 || kind == 1
    ensures var u := AddCache(m, x, o, kind, k);
            && Kept(h, u) && x in u.nodes && u.nodes[x].objSize == o && u.nodes[x].kind == kind
  {
    AddCacheInv(m, x, o, kind, k);
    AddCacheInserted(m, x, o, kind, k);
    var u := AddCache(m, x, o, kind, k);
    hide Inv, Core, MayPut, AddCache, SlabSize, OrderIs;
    InsertedGrows(m, u, x, o, kind);
    assert Kept(m, u);
    KeptTwice(h, m, u);
  }

  lemma NothingHappened(h: Heap)
    requires Inv(h)
    ensures Kept(h, h) && Only32(h, h)
  {
    assert forall c :: c in h.nodes ==> KeepsCache(h.nodes, h.nodes, c);
  }

  lemma KeptCache(h: Heap, u: Heap, c: int)
    requires Kept(h, u) && c in h.nodes
    ensures c in u.nodes && u.nodes[c].objSize == h.nodes[c].objSize && u.nodes[c].kind == h.nodes[c].kind && Core(u)
  {
    assert KeepsCache(h.nodes, u.nodes, c);
  }

  lemma FreeOnly32(g: Heap, c: int)
    requires Inv(g) && c in g.nodes && g.nodes[c].partial == 0 && g.nodes[c].free != 0
    ensures Core(g)
    ensures var s := g.nodes[c].free;
            && s in g.slabs && s in g.views && g.slabs[s].cache == c && c in g.lists
            && (g.nodes[c].objSize == 32 ==> Only32(g, Move(g, s, Partial)))
  {
    HeadSlab(g, c, Free);
    if g.nodes[c].objSize == 32 {
      MoveOnly32(g, g.nodes[c].free, Partial);
    }
  }

  lemma TakeOnly32(g: Heap, v: Heap, c: int, s: int)
    requires Ready(g, v, c, s) && c in g.nodes && g.nodes[c].objSize == 32
    ensures v.slabs[s].freeObj in v.links && Only32(v, Take(v, s))
  {
    ChainHead(v, s);
    PopOthers(v, s);
    PopFacts(v, s);
    var u := PopFree(v, s);
    hide Core, OnlyLinks, Move, PopFree;
    assert Only32(v, u) by {
      PopOnly32(v, s);
    }
    if u.slabs[s].freeCount == 0 {
      MoveOnly32(u, s, Full);
      Only32Twice(v, u, Move(u, s, Full));
    }
  }

  lemma PopOnly32(v: Heap, s: int)
    requires s in v.slabs && s in v.views && v.views[s].chain != [] && v.slabs[s].freeObj in v.links
    ensures Only32(v, PopFree(v, s))
  {
  }

  lemma NoBlock(h: Heap, u: Heap, o: int, kind: int)
    requires Kept(h, u)
    ensures Outcome(h, u, 0, o, kind)
  {
  }

  lemma FreeHeads(cache: Cache, next: int)
    ensures HeadOf(cache, Free) == cache.free && HeadOf(cache, Partial) == cache.partial
    ensures SetHead(SetHead(cache, Free, next), Partial, cache.free) == cache.(free := next, partial := cache.free)
  {
  }

  /** cache_alloc's writes to the first free slab and the one behind it. */
  lemma FreeToPartialWrites(slabs: map<int, Slab>, s: int)
    requires s in slabs && slabs[s].prev == 0 && slabs[s].next != s && (slabs[s].next != 0 ==> slabs[s].next in slabs)
    ensures var n := slabs[s].next;
            var slabs' := if n != 0 then slabs[n := slabs[n].(prev := 0)] else slabs;
            slabs'[s := slabs'[s].(next := 0)][s := slabs'[s].(next := 0).(prev := 0)] == Relinked(slabs, s, 0)
  {
  }

  /** slab_init's loop has threaded n objects of the grid and stands at i. */
  ghost predicate Cursor(grid: seq<int>, end: int, o: nat, n: nat, i: int)
    requires 0 < o
  {
    n <= |grid| && grid[n..] == GridFrom(i, end, o)
  }

  lemma Advance(grid: seq<int>, end: int, o: nat, n: nat, i: int)
    requires 0 < o && Cursor(grid, end, o, n, i) && i < end
    ensures n < |grid| && grid[n] == i && i in grid && Cursor(grid, end, o, n + 1, i + o)
  {
    assert grid[n..][0] == i;
    assert grid[n..][1..] == grid[n + 1..];
  }

  lemma AtEnd(grid: seq<int>, end: int, o: nat, n: nat, i: int)
    requires 0 < o && Cursor(grid, end, o, n, i) && i >= end
    ensures n == |grid|
  {
  }

  lemma NothingChained(links: map<int, int>, first: int, end: int, o: nat)
    requires 0 < o && first < end
    ensures var grid := GridFrom(first, end, o);
            grid != [] && Cursor(grid, end, o, 0, first) && Chained(links, grid, 0, first)
            && SameOutside(links, links, grid)
  {
  }

  lemma Outside(before: map<int, int>, links: map<int, int>, grid: seq<int>, i: int, x: int)
    requires SameOutside(before, links, grid) && i in grid
    ensures SameOutside(before, links[i := x], grid)
  {
  }

  ghost predicate Chained(links: map<int, int>, grid: seq<int>, n: nat, i: int)
    requires n <= |grid|
  {
    forall m :: 0 <= m < n ==> ChainedAt(links, grid, n, i, m)
  }

  ghost predicate ChainedAt(links: map<int, int>, grid: seq<int>, n: nat, i: int, m: nat)
    requires m < n <= |grid|
  {
    grid[m] in links && links[grid[m]] == if m + 1 < n then grid[m + 1] else i
  }

  ghost predicate Ascends(grid: seq<int>) {
    && (forall j, k :: 0 <= j < k < |grid| ==> grid[j] < grid[k])
    && forall j :: 0 <= j < |grid| ==> 0 < grid[j]
  }

  lemma GridAscends(first: int, end: int, o: int)
    requires 0 < o && 0 < first < end
    ensures Ascends(GridFrom(first, end, o)) && GridFrom(first, end, o) != []
  {
    var grid := GridFrom(first, end, o);
    forall j, k | 0 <= j < k < |grid| ensures grid[j] < grid[k] {
      GridSpacing(first, end, o, j, k);
    }
    forall j | 0 <= j < |grid| ensures 0 < grid[j] {
      GridBounds(first, end, o, j);
    }
  }

  lemma Extend(links: map<int, int>, grid: seq<int>, n: nat, i: int, o: int)
    requires n < |grid| && Ascends(grid) && grid[n] == i && Chained(links, grid, n, i)
    ensures Chained(links[i := i + o], grid, n + 1, i + o)
  {
    var u, n', i' := links[i := i + o], n + 1, i + o;
    forall m | 0 <= m < n' ensures ChainedAt(u, grid, n', i', m) {
      assert m < n ==> ChainedAt(links, grid, n, i, m);
    }
  }

  lemma Finish(links: map<int, int>, grid: seq<int>, i: int)
    requires grid != [] && Ascends(grid) && Chained(links, grid, |grid|, i)
    ensures Threaded(links[grid[|grid| - 1] := 0], grid)
  {
    var u := links[grid[|grid| - 1] := 0];
    forall m | 0 <= m < |grid| ensures LinkOk(u, grid, m) {
      assert ChainedAt(links, grid, |grid|, i, m);
    }
  }

  // ---- the code ----

  class Kernel {
    var slabs: map<int, Slab>
    var nodes: map<int, Cache>
    var links: map<int, int>
    var caches: int
    var heapEnd: int
    var info: map<int, int>  // the heapinfo entries, by page
    ghost var views: map<int, View>
    ghost var lists: map<int, Lists>
    ghost var order: seq<int>
    ghost var owner: map<int, int>
    ghost var internal: set<int>
    ghost var refusals: nat  // how often the frame allocator had nothing to give
    ghost var dmaPages: set<int>  // the pages whose frames have been asked for with MM_DMA

    ghost function State(): Heap
      reads this
    {
      Heap(slabs, nodes, links, caches, heapEnd, info, views, lists, order, owner, internal)
    }

    /** Every slab's pages have frames of the kind its cache asks for. */
    ghost predicate DmaReady()
      reads this
    {
      DmaOk(State(), dmaPages)
    }

    /** The same, and nothing has changed for the pages below an earlier end of the heap. */
    ghost predicate DmaSince(before: set<int>, end: int)
      reads this
    {
      DmaReady() && DmaKept(before, dmaPages, end)
    }

    /**
     init_kheap. Line 458 counts 127 free objects, but the cache header takes one of them; the count is
     repaired here to the 126 that slab_init threads.
     */
    constructor ()
      ensures Inv(State()) && heapEnd == KHEAP_START + 4096 && refusals == 0
      ensures DmaReady() && HeadersFit(State())
      ensures forall a :: !InUse(State(), a)
      ensures slabs == map[KHEAP_START := Slab(0, 0, 126, KHEAP_START + 64, KHEAP_START + 32)]
      ensures nodes == map[KHEAP_START + 32 := Cache(0, 0, 32, 4096, 0, KHEAP_START, 0, TYPE_NORMAL)]
    {
      hide SlabGrid, GridFrom, Inv, InUse, Threaded;
      var base := KHEAP_START;
      slabs := map[base := Slab(0, 0, 126, base + 64, base + 32)];
      nodes := map[base + 32 := Cache(0, 0, 32, 4096, 0, base, 0, TYPE_NORMAL)];
      links := map[];
      caches := base + 32;
      heapEnd := base + 4096;
      info := map[base / 4096 := base];
      views := map[base := View(base, SlabGrid(base, 32),
                                       GridFrom(base + 64, base + 4096, 32), Partial)];
      lists := map[base + 32 := Lists([], [base], [])];
      order := [base + 32];
      owner := map[base + 32 := base];
      internal := {base + 32};
      refusals, dmaPages := 0, {};
      new;
      SlabInit(base + 64, base + 4096, 32);
      InitialInv(State(), base);
    }

    /** alloc_page or alloc_pages for new pages of the heap; the answer is the frame allocator's affair. */
    method FramesGranted(region: int, size: int, flags: int) returns (ok: bool)
      requires 0 <= size
      modifies `refusals, `dmaPages
      ensures refusals == old(refusals) + if ok then 0 else 1
      ensures ok ==> Asked(dmaPages, region, size, flags % 2 == 1)
      ensures forall p :: !(ok && region / 4096 <= p < (region + size) / 4096) ==>
                (p in dmaPages <==> p in old(dmaPages))
    {
      ok := *;
      if !ok {
        refusals := refusals + 1;
        return;
      }
      ghost var pages := Range(region / 4096, (region + size) / 4096 - region / 4096);
      dmaPages := if flags % 2 == 1 then dmaPages + pages else dmaPages - pages;
    }

    method IncreaseHeap(size: int) returns (region: int)
      requires Inv(State()) && 0 < size && size % 4096 == 0
      modifies `heapEnd
      ensures Inv(State()) && Kept(old(State()), State())
      ensures region == 0 <==> old(heapEnd) + size > KHEAP_MAX
      ensures region == 0 ==> heapEnd == old(heapEnd)
      ensures region != 0 ==> region == old(heapEnd) && heapEnd == region + size && Unclaimed(State(), region, size)
      ensures region % 4096 == 0
    {
      hide Grows, SameUse;
      assert KHEAP_START <= heapEnd;
      RaiseInv(State(), if heapEnd + size > KHEAP_MAX then heapEnd else heapEnd + size);
      if heapEnd + size > KHEAP_MAX {
        return 0;
      }
      heapEnd := heapEnd + size;
      region := heapEnd - size;
    }

    /** slab_init: each object's first word names the next object, the last one's is NULL. */
    method SlabInit(first: int, end: int, o: int)
      requires 0 < o && 0 < first < end
      modifies `links
      ensures Threads(old(links), links, GridFrom(first, end, o))
    {
      hide GridFrom, Threaded, Ascends, Chained, SameOutside, Cursor;
      ghost var grid, n := GridFrom(first, end, o), 0;
      GridAscends(first, end, o);
      NothingChained(links, first, end, o);
      var i := first;
      while i < end
        invariant Cursor(grid, end, o, n, i) && n <= |grid|
        invariant if n == 0 then i == first else grid[n - 1] == i - o
        invariant Chained(links, grid, n, i) && SameOutside(old(links), links, grid)
        decreases end - i
      {
        Advance(grid, end, o, n, i);
        Extend(links, grid, n, i, o);
        Outside(old(links), links, grid, i, i + o);
        links := links[i := i + o];
        i := i + o;
        n := n + 1;
      }
      AtEnd(grid, end, o, n, i);
      i := i - o;
      assert grid[n - 1] == i && grid[n - 1] in grid;
      Finish(links, grid, i + o);
      Outside(old(links), links, grid, i, 0);
      links := links[i := 0];
    }

    /** cache_grow: a new slab, the cache's only free one, or NULL when the heap cannot grow. */
    method CacheGrow(c: int) returns (slab: int)
      requires Inv(State()) && DmaReady() && c in nodes && nodes[c].free == 0
      modifies this
      ensures Kept(old(State()), State()) && DmaSince(old(dmaPages), old(heapEnd))
      ensures slab == 0 ==> nodes[c].free == 0
      ensures c in nodes && nodes[c].partial == old(nodes[c].partial)
      ensures slab != 0 ==> nodes[c].free == slab && slab in slabs && slabs[slab].next == 0
      ensures old(nodes[c].objSize) == 32 ==> Only32(old(State()), State())
      ensures slab != 0 ==> slab in views && views[slab].base == old(heapEnd)
      ensures slab == 0 ==> Refused(old(heapEnd), GrowthOf(old(nodes), old(nodes[c].objSize)), old(refusals), refusals)
      ensures heapEnd <= old(heapEnd) + GrowthOf(old(nodes), old(nodes[c].objSize)) && refusals >= old(refusals)
      decreases Rank(nodes[c].objSize, nodes[c].kind), 3
    {
      hide Inv, Unclaimed, MayAdd, AddSlab, Kept, SlabSize, Only32, Capacity, FirstObj, Outcome, IsObjSize;
      hide DmaOk, DmaKept, Asked, GrowthOf, Refused;
      ghost var h := State();
      CacheFacts(h, c);
      NothingHappened(h);
      RaiseOnly32(h, heapEnd);
      var o := nodes[c].objSize;
      var region;
      slab, region := PrepareSlab(c);
      RaiseOnly32(h, heapEnd);
      if slab == 0 {
        return 0;
      }
      ghost var m := State();
      var freeCount, first := FreeObjects(region, nodes[c].slabSize, o);
      NewSlab(c, slab, region, freeCount, first);
      if o == 32 {
        AddSlabOnly32(h, m, c, slab, region, links, info);
      }
      GrowKept(h, m, c, slab, region, links, info);
      DmaAdded(m, c, slab, region, links, info, dmaPages);
      AddSlabResult(m, c, slab, region, links, info);
    }

    /** kheap.c:166-213: pages, frames for them, and the place of the header; 0 if one of them cannot be had. */
    method PrepareSlab(c: int) returns (slab: int, region: int)
      requires Inv(State()) && DmaReady() && c in nodes && c in lists
      modifies this
      ensures Kept(old(State()), State()) && refusals >= old(refusals) && DmaSince(old(dmaPages), old(heapEnd))
      ensures slab != 0 ==> Asked(dmaPages, region, nodes[c].slabSize, nodes[c].kind == 1)
      ensures heapEnd <= old(heapEnd) + GrowthOf(old(nodes), old(nodes[c].objSize))
      ensures c in nodes && c in lists && nodes[c] == old(nodes)[c] && lists[c] == old(lists)[c]
      ensures nodes[c].objSize == 32 ==> State() == old(State()).(heapEnd := heapEnd)
      ensures slab == 0 ==> Refused(old(heapEnd), GrowthOf(old(nodes), old(nodes[c].objSize)), old(refusals), refusals)
      ensures slab != 0 ==>
                && region == old(heapEnd) && region % 4096 == 0 && Unclaimed(State(), region, nodes[c].slabSize)
                && slab !in slabs && slab !in nodes
                && if nodes[c].slabSize == 4096 then slab == region else slab in internal
      decreases Rank(nodes[c].objSize, nodes[c].kind), 2
    {
      hide Inv, Unclaimed, Kept, SlabSize, IsObjSize, DmaOk, DmaKept, Asked, GrowthOf, HeaderPage, Refused;
      ghost var h, growth := State(), GrowthOf(nodes, nodes[c].objSize);
      var size := nodes[c].slabSize;
      CacheFacts(h, c);
      GrowthIs(nodes, nodes[c].objSize);
      region := ReservePages(size, nodes[c].kind);
      if region == 0 {
        MoreRefused(h.heapEnd, growth, h.heapEnd, size, old(refusals), old(refusals), refusals);
        return 0, 0;
      }
      ghost var r, dma, some := State(), dmaPages, refusals;
      slab := PlaceHeader(c, region, nodes[c].slabSize);
      if slab == 0 {
        MoreRefused(h.heapEnd, growth, r.heapEnd, HeaderPage(r.nodes), old(refusals), some, refusals);
      }
      KeptTwice(h, r, State());
      DmaTwice(old(dmaPages), dma, dmaPages, h.heapEnd, r.heapEnd);
      AskedStill(dma, dmaPages, region, nodes[c].slabSize, nodes[c].kind == 1);
    }

    /** kheap.c:187, 209-213: the header lies at the start of a slab's only page, else in a block of its own. */
    method PlaceHeader(c: int, region: int, size: int) returns (slab: int)
      requires Inv(State()) && DmaReady() && c in nodes && c in lists && Unclaimed(State(), region, size)
      requires nodes[c].objSize == 32 ==> size == 4096
      modifies this
      ensures Kept(old(State()), State()) && refusals >= old(refusals) && DmaSince(old(dmaPages), old(heapEnd))
      ensures heapEnd <= old(heapEnd) + if size == 4096 then 0 else HeaderPage(old(nodes))
      ensures c in nodes && c in lists && nodes[c] == old(nodes)[c] && lists[c] == old(lists)[c]
      ensures size == 4096 ==> State() == old(State())
      ensures slab == 0 ==> size != 4096 && Refused(old(heapEnd), HeaderPage(old(nodes)), old(refusals), refusals)
      ensures slab != 0 ==>
                && Unclaimed(State(), region, size) && slab !in slabs && slab !in nodes
                && if size == 4096 then slab == region else slab in internal
      decreases Rank(nodes[c].objSize, nodes[c].kind), 1
    {
      hide Inv, Unclaimed, Kept, DmaOk, HeaderPage;
      NothingHappened(State());
      if size == 4096 {
        FreshPage(State(), region);
        return region;
      }
      slab := HeaderFor(c, region, size);
    }

    /**
     kheap.c:166-185, 195-199: pages and frames for them, of the kind that DMA can reach for a cache of that type;
     without frames the pages stay reserved.
     */
    method ReservePages(size: int, kind: int) returns (region: int)
      requires Inv(State()) && DmaReady() && 0 < size && size % 4096 == 0 && (kind == 0 || kind == 1)
      modifies `heapEnd, `refusals, `dmaPages
      ensures Kept(old(State()), State()) && Inv(State()) && old(refusals) <= refusals
      ensures DmaSince(old(dmaPages), old(heapEnd))
      ensures old(heapEnd) <= heapEnd <= old(heapEnd) + size && region % 4096 == 0
      ensures region == 0 ==> Refused(old(heapEnd), size, old(refusals), refusals)
      ensures region != 0 ==> region == old(heapEnd) && Unclaimed(State(), region, size) && heapEnd == region + size
      ensures region != 0 ==> Asked(dmaPages, region, size, kind == 1)
    {
      hide Inv, Kept, Unclaimed, DmaOk, Asked;
      region := IncreaseHeap(size);
      DmaAbove(old(State()), heapEnd, dmaPages, dmaPages);
      if region == 0 {
        return 0;
      }
      var allocFlags := 0;
      if kind % 2 == TYPE_DMA {
        allocFlags := MM_DMA;
      }
      ghost var r := State();
      var ok := FramesGranted(region, size, allocFlags);
      DmaAbove(old(State()), heapEnd, old(dmaPages), dmaPages);
      if !ok {
        return 0;
      }
    }

    /** kheap.c:189-190, 214-215: where the objects of a new slab start and how many there are. */
    static method FreeObjects(region: int, size: int, o: int) returns (freeCount: int, first: int)
      requires IsObjSize(o) && size == SlabSize(o) && region % 4096 == 0
      ensures freeCount == |SlabGrid(region, o)| && first == First(SlabGrid(region, o))
      ensures freeCount == Capacity(region, o) && first == FirstObj(region, o)
    {
      SlabGridCount(region, o);
      if size == 4096 {
        first := region + o * Pmm.DivUp(SLAB_T, o);
        freeCount := (size - first % 4096) / o;
      } else {
        first := region;
        freeCount := size / o;
      }
    }

    /** kmalloc for a header: a block of the 32-byte cache. */
    method HeaderBlock(size: int) returns (a: int)
      requires Inv(State()) && DmaReady() && 16 < size <= 32
      modifies this
      ensures Outcome(old(State()), State(), a, 32, 0) && Only32(old(State()), State())
      ensures DmaSince(old(dmaPages), old(heapEnd))
      ensures SmallReady(old(nodes)) ==> a != 0 && heapEnd == old(heapEnd) && refusals == old(refusals)
      ensures a == 0 ==> Refused(old(heapEnd), HeaderPage(old(nodes)), old(refusals), refusals)
      ensures heapEnd <= old(heapEnd) + HeaderPage(old(nodes)) && refusals >= old(refusals)
      decreases 0, 6
    {
      hide Inv, Outcome, Only32, BudgetOf, LeastClass, DmaOk, DmaKept;
      SmallBudget(State());
      ghost var o;
      a, o := Kmalloc(size, 0);
      HeaderClass(size, o);
    }

    /** kheap.c:209-213: the header of a slab of several pages is a block of the 32-byte cache. */
    method HeaderFor(c: int, region: int, size: int) returns (slab: int)
      requires Inv(State()) && DmaReady() && c in nodes && c in lists && nodes[c].objSize != 32
      requires Unclaimed(State(), region, size)
      modifies this
      ensures DmaSince(old(dmaPages), old(heapEnd))
      ensures Kept(old(State()), State()) && refusals >= old(refusals)
      ensures heapEnd <= old(heapEnd) + HeaderPage(old(nodes))
      ensures c in nodes && c in lists && nodes[c] == old(nodes)[c] && lists[c] == old(lists)[c]
      ensures slab == 0 ==> Refused(old(heapEnd), HeaderPage(old(nodes)), old(refusals), refusals)
      ensures slab != 0 ==>
                slab !in slabs && slab !in nodes && slab in internal && Unclaimed(State(), region, size)
      decreases Rank(nodes[c].objSize, nodes[c].kind), 0
    {
      hide Inv, Unclaimed, Kept, Outcome, SmallReady, HeaderPage, DmaOk, DmaKept;
      ghost var m := State();
      slab := HeaderBlock(SLAB_T);
      DmaMarked(State(), slab, dmaPages);
      if slab == 0 {
        NoBlockMeans(m, State(), 32, 0);
        SameLists32(m, State(), c);
        return 0;
      }
      HeaderApart(m, State(), c, slab, region, size);
      internal := internal + {slab};
    }

    /** kheap.c:191, 215-238: the header, the threaded objects, the cache's free list and the index entries. */
    method NewSlab(c: int, slab: int, region: int, freeCount: int, first: int)
      requires c in nodes && c in lists && lists[c].free == []
      requires slab !in slabs && slab !in nodes && slab != 0 && Unclaimed(State(), region, nodes[c].slabSize)
      requires if nodes[c].slabSize == 4096 then slab == region else slab in internal
      requires IsObjSize(nodes[c].objSize) && nodes[c].slabSize == SlabSize(nodes[c].objSize)
      requires freeCount == Capacity(region, nodes[c].objSize) && first == FirstObj(region, nodes[c].objSize)
      modifies `slabs, `links, `nodes, `info, `views, `lists
      ensures MayAdd(old(State()), c, slab, region, links, info)
      ensures State() == AddSlab(old(State()), c, slab, region, links, info)
    {
      ghost var h := State();
      NewGrid(region, nodes[c].objSize);
      hide SlabGrid, FirstObj, Capacity, SlabSize, Unclaimed, Threads, NewInfo, IsObjSize, GridFrom;
      PlaceSlab(c, slab, region, freeCount, first);
      WriteInfo(slab, region, nodes[c].slabSize);
      MayAddNow(h, c, slab, region, links, info);
      hide MayAdd;
      ghost var u := AddSlab(h, c, slab, region, links, info);
      views, lists := u.views, u.lists;
    }

    /** kheap.c:191 or 215, 218 and 220: header, threaded objects, and the slab as the cache's only free one. */
    method PlaceSlab(c: int, slab: int, region: int, freeCount: int, first: int)
      requires c in nodes && slab !in slabs && IsObjSize(nodes[c].objSize) && region % 4096 == 0 && 0 < region
      requires nodes[c].slabSize == SlabSize(nodes[c].objSize) && first == FirstObj(region, nodes[c].objSize)
      modifies `slabs, `links, `nodes
      ensures slabs == old(slabs)[slab := Slab(0, 0, freeCount, first, c)]
      ensures nodes == old(nodes)[c := old(nodes)[c].(free := slab)]
      ensures Threads(old(links), links, GridFrom(first, region + nodes[c].slabSize, nodes[c].objSize))
    {
      NewGrid(region, nodes[c].objSize);
      hide SlabGrid, FirstObj, SlabSize, Threads, IsObjSize, GridFrom;
      slabs := slabs[slab := Slab(0, 0, freeCount, first, c)];
      SlabInit(first, region + nodes[c].slabSize, nodes[c].objSize);
      nodes := nodes[c := nodes[c].(free := slab)];
    }

    method WriteInfo(slab: int, region: int, size: int)
      requires region % 4096 == 0 && size % 4096 == 0 && 0 < size
      modifies `info
      ensures NewInfo(old(info), info, region, size, slab)
    {
      var p, i := region / 4096, size;
      while i > 0
        invariant i % 4096 == 0 && 0 <= i && p == (region + size - i) / 4096
        invariant forall q :: if region / 4096 <= q < p then q in info && info[q] == slab
                              else (q in info <==> q in old(info)) && (q in old(info) ==> info[q] == old(info)[q])
      {
        info := info[p := slab];
        p := p + 1;
        i := i - 4096;
      }
    }

    /** cache_alloc: a partial slab, else a free one, else a new one gives the block. */
    method CacheAlloc(c: int) returns (a: int)
      requires Inv(State()) && DmaReady() && c in nodes
      modifies this
      ensures Outcome(old(State()), State(), a, old(nodes[c].objSize), old(nodes[c].kind))
      ensures DmaSince(old(dmaPages), old(heapEnd))
      ensures old(nodes[c].objSize) == 32 ==> Only32(old(State()), State())
      ensures old(nodes[c].partial) != 0 ==>
                && a != 0 && State() == TookFirst(old(State()), c) && a == FirstFree(old(State()), c)
                && heapEnd == old(heapEnd) && refusals == old(refusals)
      ensures HasRoom(old(nodes[c])) ==> a != 0 && heapEnd == old(heapEnd) && refusals == old(refusals)
      ensures a != 0 && !HasRoom(old(nodes[c])) ==>
                BlockOfSlabAt(State(), a, old(heapEnd))
      ensures a == 0 ==> Refused(old(heapEnd), GrowthOf(old(nodes), old(nodes[c].objSize)), old(refusals), refusals)
      ensures heapEnd <= old(heapEnd) + GrowthOf(old(nodes), old(nodes[c].objSize)) && refusals >= old(refusals)
      decreases Rank(nodes[c].objSize, nodes[c].kind), 4
    {
      hide Inv, Core, Grows, SameUse, InfoKept, Ready, Move, Outcome, Only32, Take, DmaOk;
      ghost var h := State();
      NothingHappened(h);
      ghost var g, o, kind := h, nodes[c].objSize, nodes[c].kind;
      var s;
      if nodes[c].partial == 0 {
        if nodes[c].free == 0 {
          s := CacheGrow(c);
          if s == 0 {
            NoBlock(h, State(), o, kind);
            return 0;
          }
          g := State();
          KeptCache(h, g, c);
          ReadyFree(g, c);
          FreeOnly32(g, c);
          GrownToPartial(c, s);
        } else {
          ReadyFree(g, c);
          FreeOnly32(g, c);
          s := FreeToPartial(c);
        }
      } else {
        ReadyPartial(g, c);
        s := nodes[c].partial;
      }
      ghost var v := State();
      TakeOutcome(g, v, c, s);
      a := TakeFrom(c, s, g);
      KeptThenOutcome(h, g, State(), a, o, kind);
      if o == 32 {
        TakeOnly32(g, v, c, s);
        Only32Twice(h, g, v);
        Only32Twice(h, v, State());
      }
      TakeKeepsBase(g, v, c, s);
      TakeDma(g, v, c, s, dmaPages);
    }

    /** kheap.c:300-317. */
    method TakeFrom(c: int, s: int, ghost g: Heap) returns (a: int)
      requires Inv(g) && Ready(g, State(), c, s)
      modifies `slabs, `nodes, `views, `lists, `owner
      ensures s in old(slabs) && s in old(views) && old(views[s].chain) != [] && old(slabs[s].freeObj) in old(links)
      ensures old(slabs[s].cache) in old(nodes) && old(slabs[s].cache) in old(lists)
      ensures a == old(slabs[s].freeObj) && State() == Take(old(State()), s)
    {
      hide Inv, Core, OnlyLinks, OthersMatch, Move;
      ghost var v := State();
      ChainHead(v, s);
      PopOthers(v, s);
      a := SlabAlloc(s);
      if slabs[s].freeCount == 0 {
        PartialToFull(c, s);
      }
    }

    /** kheap.c:272-273. */
    method GrownToPartial(c: int, s: int)
      requires Core(State()) && c in nodes && nodes[c].partial == 0 && nodes[c].free == s && s in slabs && s != 0
      requires slabs[s].next == 0
      modifies `nodes, `views, `lists
      ensures s in old(slabs) && s in old(views)
      ensures c in old(lists) && old(slabs[s].cache) == c && State() == Move(old(State()), s, Partial)
    {
      hide Core, Move;
      HeadSlab(State(), c, Free);
      MoveWrites(State(), s, Partial);
      ghost var u := Move(State(), s, Partial);
      nodes := nodes[c := nodes[c].(partial := s)];
      nodes := nodes[c := nodes[c].(free := 0)];
      views, lists := u.views, u.lists;
      assert slabs == u.slabs && nodes == u.nodes;
    }

    /** cache_create: a cache of a size and type that has none yet, put in its place in the list. */
    method CacheCreate(o: int, kind: int) returns (x: int)
      requires Inv(State()) && DmaReady() && IsObjSize(o) && (kind == 0 || kind == 1) && !HasCache(nodes, o, kind)
      modifies this
      ensures Kept(old(State()), State()) && DmaSince(old(dmaPages), old(heapEnd))
      ensures x != 0 ==> x in nodes && nodes[x].objSize == o && nodes[x].kind == kind
      ensures x != 0 ==> nodes[x].partial == 0 && nodes[x].free == 0
      ensures SmallReady(old(nodes)) ==> x != 0 && heapEnd == old(heapEnd) && refusals == old(refusals)
      ensures x == 0 ==> Refused(old(heapEnd), HeaderPage(old(nodes)), old(refusals), refusals)
      ensures heapEnd <= old(heapEnd) + HeaderPage(old(nodes)) && refusals >= old(refusals)
      decreases Rank(o, kind), 3
    {
      hide Inv, Core, Kept, Outcome, Only32, OrderIs, SlabSize, IsObjSize, HasCache, Rank, SmallReady, HeaderPage;
      hide DmaOk, DmaKept;
      ghost var h := State();
      var slabSize := SizeFromTable(o);
      var cache := caches;
      NeverThe32(nodes, o, kind, h);
      x := HeaderBlock(CACHE_T);
      if x == 0 {
        NoBlockMeans(h, State(), 32, 0);
        return 0;
      }
      CacheBlock(h, State(), x, o, kind);
      DmaMarked(State(), x, dmaPages);
      internal := internal + {x};
      ghost var m := State();
      KeptInv(h, m);
      ghost var k := InsertCache(x, cache, o, kind, slabSize);
      AddCacheKept(h, m, x, o, kind, k);
      DmaInserted(m, x, o, kind, k, dmaPages);
    }

    /** kheap.c:119-155: the list is searched for the first cache with objects at least as large. */
    method InsertCache(x: int, first: int, o: int, kind: int, slabSize: int) returns (ghost k: nat)
      requires Inv(State()) && first == caches && x !in nodes && x != 0 && IsObjSize(o) && slabSize == SlabSize(o)
      requires !HasCache(nodes, o, kind)
      modifies `nodes, `caches, `order, `lists
      ensures MayPut(old(nodes), old(order), x, o, kind, k)
      ensures State() == AddCache(old(State()), x, o, kind, k)
    {
      hide Inv, SlabSize, IsObjSize, HasCache, AddCache, OrderIs;
      ghost var h := State();
      ListStarts(h);
      var cache := first;
      k := 0;
      while o > nodes[cache].objSize
        invariant State() == h && k < |order| && cache == order[k] && cache in nodes
        invariant forall j :: 0 <= j < k ==> order[j] in nodes && nodes[order[j]].objSize < o
        decreases |order| - k
      {
        NextCache(h, k);
        if nodes[cache].next != 0 {
          cache := nodes[cache].next;
          k := k + 1;
        } else {
          k := k + 1;
          FrontFacts(h, x, o, kind, k);
          Append(x, cache, o, kind, slabSize, k);
          return;
        }
      }
      FrontFacts(h, x, o, kind, k);
      LinkIn(x, cache, o, kind, slabSize, k);
      FindFront(k);
    }

    /** kheap.c:127-131. */
    method Append(x: int, cache: int, o: int, kind: int, slabSize: int, ghost k: nat)
      requires Inv(State()) && MayPut(nodes, order, x, o, kind, k) && slabSize == SlabSize(o)
      requires k == |order| && 0 < k && cache == order[k - 1]
      modifies `nodes, `order, `lists
      ensures State() == AddCache(old(State()), x, o, kind, k).(caches := caches)
    {
      hide Inv, SlabSize, IsObjSize, HasCache;
      PutFacts(State(), x, o, kind, k);
      ghost var u := AddCache(State(), x, o, kind, k);
      nodes := nodes[x := Cache(0, cache, o, slabSize, 0, 0, 0, kind)];
      nodes := nodes[cache := nodes[cache].(next := x)];
      order, lists := u.order, u.lists;
    }

    /** kheap.c:135-144. */
    method LinkIn(x: int, cache: int, o: int, kind: int, slabSize: int, ghost k: nat)
      requires Inv(State()) && MayPut(nodes, order, x, o, kind, k) && slabSize == SlabSize(o)
      requires k < |order| && cache == order[k]
      modifies `nodes, `order, `lists
      ensures State() == AddCache(old(State()), x, o, kind, k).(caches := caches)
    {
      hide Inv, SlabSize, IsObjSize, HasCache, MayPut;
      NextCache(State(), k);
      PutFacts(State(), x, o, kind, k);
      ghost var u := AddCache(State(), x, o, kind, k);
      nodes := nodes[x := Cache(cache, nodes[cache].prev, o, slabSize, 0, 0, 0, kind)];
      if nodes[x].prev != 0 {
        nodes := nodes[nodes[x].prev := nodes[nodes[x].prev].(next := x)];
      }
      nodes := nodes[cache := nodes[cache].(prev := x)];
      order, lists := u.order, u.lists;
      assert nodes == u.nodes;
    }

    /** kheap.c:146-149: caches moves to the header that has none before it. */
    method FindFront(ghost k: nat)
      requires OrderIs(nodes, First(order), order) && 0 !in nodes
      requires 1 < |order| && caches == if k == 0 then order[1] else order[0]
      modifies `caches
      ensures caches == First(order)
    {
      ghost var i := if k == 0 then 1 else 0;
      PreviousCache(nodes, order, i);
      while nodes[caches].prev != 0
        invariant 0 <= i < |order| && caches == order[i] && caches in nodes
        decreases i
      {
        PreviousCache(nodes, order, i);
        caches := nodes[caches].prev;
        i := i - 1;
        PreviousCache(nodes, order, i);
      }
      PreviousCache(nodes, order, i);
    }

    /** kheap.c:102-107, 128: the table entry of a size class, found by halving the object size. */
    method SizeFromTable(o: int) returns (slabSize: int)
      requires IsObjSize(o)
      ensures slabSize == SlabSize(o)
    {
      var sizeOrder, size := 0, o;
      while size > 1
        invariant 0 < size && sizeOrder + Order(size) == Order(o)
      {
        size := size / 2;
        sizeOrder := sizeOrder + 1;
      }
      SlabSizesTable(o);
      slabSize := SLAB_SIZES[sizeOrder - 3];
    }

    /** kheap.c:329-333: the least size class. */
    method SizeClass(size: int) returns (objSize: int)
      requires 0 <= size <= 16384
      ensures LeastClass(size, objSize) && (objSize == 32 <==> 16 < size <= 32)
      ensures size <= objSize && (objSize == 8 || objSize < 2 * size)
    {
      objSize := 8;
      while objSize < size
        invariant IsObjSize(objSize) && (objSize == 8 || objSize < 2 * size)
        decreases size - objSize
      {
        objSize := objSize * 2;
      }
    }

    /** kheap.c:340-353: the walk through the caches, 0 if it ends without finding one. */
    method FindCache(objSize: int, cacheType: int) returns (cache: int)
      requires Inv(State())
      ensures if cache == 0 then !HasCache(nodes, objSize, cacheType) else IsOf(nodes, cache, objSize, cacheType)
    {
      ghost var h := State();
      NoNull(h);
      ListStarts(h);
      hide Inv, HasCache;
      cache := caches;
      ghost var i := 0;
      while objSize != nodes[cache].objSize || cacheType != nodes[cache].kind
        invariant i < |order| && cache == order[i] && cache in nodes
        invariant forall j :: 0 <= j < i ==> !IsOf(nodes, order[j], objSize, cacheType)
        decreases |order| - i
      {
        NextCache(h, i);
        if nodes[cache].next == 0 {
          NoSuchCache(h, i, objSize, cacheType);
          return 0;
        }
        cache := nodes[cache].next;
        i := i + 1;
      }
    }

    /** kheap.c:340-361: the cache of that size and type, made if there is none yet. */
    method CacheFor(o: int, kind: int) returns (cache: int)
      requires Inv(State()) && DmaReady() && IsObjSize(o) && (kind == 0 || kind == 1)
      modifies this
      ensures Kept(old(State()), State()) && DmaSince(old(dmaPages), old(heapEnd))
      ensures cache != 0 ==> IsOf(nodes, cache, o, kind)
      ensures if HasCache(old(nodes), o, kind)
              then cache != 0 && State() == old(State()) && refusals == old(refusals)
                && forall c :: IsOf(nodes, c, o, kind) ==> c == cache
              else forall c :: !IsOf(old(nodes), c, o, kind)
      ensures !HasCache(old(nodes), o, kind) && cache != 0 ==> nodes[cache].partial == 0 && nodes[cache].free == 0
      ensures !HasCache(old(nodes), o, kind) && SmallReady(old(nodes)) ==>
                cache != 0 && heapEnd == old(heapEnd) && refusals == old(refusals)
      ensures cache == 0 ==> Refused(old(heapEnd), HeaderPage(old(nodes)), old(refusals), refusals)
      ensures heapEnd <= old(heapEnd) + HeaderPage(old(nodes)) && refusals >= old(refusals)
      decreases Rank(o, kind), 4
    {
      hide Inv, Core, HasCache, SmallReady, SlabSize, IsObjSize, Kept, DmaOk;
      ghost var h := State();
      NothingHappened(h);
      cache := FindCache(o, kind);
      if cache == 0 {
        NeverThe32(nodes, o, kind, h);
        NoneOfKind(nodes, o, kind);
        cache := CacheCreate(o, kind);
      } else {
        OnlyOfItsKind(h, cache, o, kind);
      }
    }

    /** kmalloc: the least size class that holds the request decides the cache. */
    method Kmalloc(size: int, flags: int) returns (a: int, ghost o: int)
      requires Inv(State()) && DmaReady() && 0 <= size <= 16384
      modifies this
      ensures a != 0 ==> InCacheOf(State(), a, if flags % 2 == 1 then 1 else 0)
      ensures DmaSince(old(dmaPages), old(heapEnd))
      ensures size <= o && (o == 8 || o < 2 * size)
      ensures LeastClass(size, o) && Outcome(old(State()), State(), a, o, TypeOf(flags))
      ensures o == 32 && TypeOf(flags) == TYPE_NORMAL ==> Only32(old(State()), State())
      ensures forall c :: IsOf(old(nodes), c, o, TypeOf(flags)) && old(nodes)[c].partial != 0 ==>
                State() == TookFirst(old(State()), c) && a == FirstFree(old(State()), c)
      ensures forall c :: IsOf(old(nodes), c, o, TypeOf(flags)) && HasRoom(old(nodes)[c]) ==>
                a != 0 && heapEnd == old(heapEnd) && refusals == old(refusals)
      ensures a != 0 && !HasCache(old(nodes), o, TypeOf(flags)) && SmallReady(old(nodes)) ==>
                BlockOfSlabAt(State(), a, old(heapEnd))
      ensures a == 0 ==> Refused(old(heapEnd), BudgetOf(old(nodes), o, TypeOf(flags)), old(refusals), refusals)
      ensures heapEnd <= old(heapEnd) + BudgetOf(old(nodes), o, TypeOf(flags)) && refusals >= old(refusals)
      decreases RankOf(size, flags), 5
    {
      hide Inv, Core, Grows, SameUse, InfoKept, Outcome, Only32, SlabSize, Kept, LeastClass;
      hide TookFirst, FirstFree, BlockOfSlabAt, HasCache, SmallReady, BudgetOf, GrowthOf, HeaderPage, InCacheOf;
      hide DmaOk, DmaKept;
      ghost var h, kind := State(), TypeOf(flags);
      NothingHappened(h);
      ListStarts(h);
      var cacheType := TYPE_NORMAL;
      var objSize := SizeClass(size);
      o := objSize;
      if flags % 2 == MM_DMA {
        cacheType := TYPE_DMA;
      }
      var cache := CacheFor(objSize, cacheType);
      BudgetSteps(h.nodes, nodes, o, kind);
      hide IsObjSize;
      if cache == 0 {
        NoBlock(h, State(), o, kind);
        return 0, o;
      }
      ghost var g, dma := State(), dmaPages;
      KeptInv(h, g);
      KeptEnd(h, g);
      a := CacheAlloc(cache);
      KeptThenOutcome(h, g, State(), a, o, kind);
      DmaTwice(old(dmaPages), dma, dmaPages, h.heapEnd, g.heapEnd);
      OutcomeKind(h, State(), a, o, kind);
    }

    /** slab_free: an address that is not a multiple of the object size is left alone. */
    method SlabFree(s: int, obj: int)
      requires Inv(State()) && InUse(State(), obj) && s == owner[obj] && s in slabs && s in views
      requires slabs[s].cache in nodes && 0 < nodes[slabs[s].cache].objSize
      modifies `links, `slabs, `views, `owner
      ensures State() == if obj % old(nodes[slabs[s].cache].objSize) == 0
                         then PushFree(old(State()), s, obj) else old(State())
    {
      hide Inv;
      if obj % nodes[slabs[s].cache].objSize != 0 {
        return;
      }
      ghost var u := PushFree(State(), s, obj);
      links := links[obj := slabs[s].freeObj];
      slabs := slabs[s := slabs[s].(freeObj := obj)];
      slabs := slabs[s := slabs[s].(freeCount := slabs[s].freeCount + 1)];
      views, owner := u.views, u.owner;
      assert slabs == u.slabs;
    }

    /** kheap.c:419-431: a slab leaves its list, wherever in it. */
    method Unlink(c: int, s: int, from: Place)
      requires Core(State()) && s in slabs && s in views && views[s].place == from && slabs[s].cache == c
      requires c in nodes && c in lists
      modifies `slabs, `nodes, `lists
      ensures State() == Unhook(old(State()), s)
    {
      hide Core, Without;
      SlabLinks(State(), s);
      ghost var u := Unhook(State(), s);
      if slabs[s].prev != 0 {
        slabs := slabs[slabs[s].prev := slabs[slabs[s].prev].(next := slabs[s].next)];
      } else {
        nodes := nodes[c := SetHead(nodes[c], from, slabs[s].next)];
      }
      if slabs[s].next != 0 {
        slabs := slabs[slabs[s].next := slabs[slabs[s].next].(prev := slabs[s].prev)];
      }
      lists := u.lists;
    }

    /** kheap.c:433-445: it goes to the front of another. */
    method LinkFront(c: int, s: int, to: Place)
      requires s in slabs && s in views && slabs[s].cache == c && c in nodes && c in lists
      requires HeadOf(nodes[c], to) != s && (HeadOf(nodes[c], to) != 0 ==> HeadOf(nodes[c], to) in slabs)
      modifies `slabs, `nodes, `views, `lists
      ensures State() == Hook(old(State()), s, to)
    {
      ghost var u := Hook(State(), s, to);
      if HeadOf(nodes[c], to) != 0 {
        slabs := slabs[HeadOf(nodes[c], to) := slabs[HeadOf(nodes[c], to)].(prev := s)];
        slabs := slabs[s := slabs[s].(next := HeadOf(nodes[c], to))];
        nodes := nodes[c := SetHead(nodes[c], to, s)];
        slabs := slabs[s := slabs[s].(prev := 0)];
      } else {
        nodes := nodes[c := SetHead(nodes[c], to, s)];
        slabs := slabs[s := slabs[s].(next := 0)];
        slabs := slabs[s := slabs[s].(prev := 0)];
      }
      views, lists := u.views, u.lists;
      assert slabs == u.slabs && nodes == u.nodes;
    }

    method Relist(c: int, s: int, from: Place, to: Place)
      requires Core(State()) && s in slabs && s in views && views[s].place == from && from != to && slabs[s].cache == c
      requires c in nodes && c in lists
      modifies `slabs, `nodes, `views, `lists
      ensures State() == Move(old(State()), s, to)
    {
      hide Core, Unhook, Hook;
      MoveKeeps(State(), s, to);
      LooseSlab(State(), s, to);
      Unlink(c, s, from);
      LinkFront(c, s, to);
    }

    /**
     kfree of a block in use. Two lines are repaired: a slab that was full moves back to the partial list, and
     the count that means "all free" is the one cache_grow started the slab with.
     */
    method Kfree(obj: int)
      requires Inv(State()) && InUse(State(), obj)
      modifies `links, `slabs, `nodes, `views, `lists, `owner
      ensures Inv(State()) && SameSizes(old(State()), State())
      ensures owner == if obj % SizeOf(old(State()), old(owner[obj])) == 0 then old(owner) - {obj} else old(owner)
    {
      hide Inv, Core, Move, PushFree, SameSizes;
      ghost var h, s := State(), owner[obj];
      FreeFacts(h, obj);
      GiveInv(h, s, obj);
      GiveSteps(h, s, obj);
      NothingFreed(h);
      var slab := info[obj / 4096];
      var was := slabs[slab].freeCount;
      SlabFree(slab, obj);
      var cache := slabs[slab].cache;
      var first := slab + nodes[cache].objSize * Pmm.DivUp(SLAB_T, nodes[cache].objSize);
      var size, o := nodes[cache].slabSize, nodes[cache].objSize;
      var capacity := if size == 4096 then (size - first % 4096) / o else size / o;
      if was == 0 && slabs[slab].freeCount != 0 {
        Relist(cache, slab, Full, Partial);
      }
      if slabs[slab].freeCount == capacity {
        Relist(cache, slab, Partial, Free);
      }
    }

    /** slab_alloc. */
    method SlabAlloc(s: int) returns (a: int)
      requires Core(State()) && s in slabs && s in views && views[s].chain != []
      modifies `slabs, `views, `owner
      ensures old(slabs[s].freeObj) in old(links) && State() == PopFree(old(State()), s) && a == old(slabs[s].freeObj)
    {
      ChainHead(State(), s);
      hide Core;
      ghost var u := PopFree(State(), s);
      a := slabs[s].freeObj;
      var next := links[a];
      slabs := slabs[s := slabs[s].(freeObj := next)];
      slabs := slabs[s := slabs[s].(freeCount := slabs[s].freeCount - 1)];
      views, owner := u.views, u.owner;
      assert slabs == u.slabs;
    }

    /** kheap.c:277-292: the first free slab becomes the only one of the partial list. */
    method FreeToPartial(c: int) returns (s: int)
      requires Core(State()) && c in nodes && nodes[c].partial == 0 && nodes[c].free != 0
      modifies `slabs, `nodes, `views, `lists
      ensures s == old(nodes[c].free) && s in old(slabs) && s in old(views)
      ensures c in old(lists) && old(slabs[s].cache) == c && State() == Move(old(State()), s, Partial)
    {
      hide Core, Move, Relinked, SetHead;
      HeadSlab(State(), c, Free);
      FreeHeads(nodes[c], slabs[nodes[c].free].next);
      MoveWrites(State(), nodes[c].free, Partial);
      s := nodes[c].free;
      ghost var u := Move(State(), s, Partial);
      FreeToPartialWrites(slabs, s);
      if slabs[s].next != 0 {
        nodes := nodes[c := nodes[c].(free := slabs[s].next)];
        slabs := slabs[slabs[s].next := slabs[slabs[s].next].(prev := 0)];
      } else {
        nodes := nodes[c := nodes[c].(free := 0)];
      }
      slabs := slabs[s := slabs[s].(next := 0)];
      slabs := slabs[s := slabs[s].(prev := 0)];
      nodes := nodes[c := nodes[c].(partial := s)];
      views, lists := u.views, u.lists;
      hide HeadOf;
      assert slabs == u.slabs;
      assert nodes == u.nodes;
    }

    /** kheap.c:304-316: the first partial slab, which has run out, goes to the front of the full list. */
    method PartialToFull(c: int, s: int)
      requires Core(State()) && c in nodes && nodes[c].partial == s && s != 0
      modifies `slabs, `nodes, `views, `lists
      ensures s in old(slabs) && s in old(views)
      ensures c in old(lists) && old(slabs[s].cache) == c && State() == Move(old(State()), s, Full)
    {
      hide Core, Move;
      HeadSlab(State(), c, Partial);
      HeadPlace(State(), c, Full);
      MoveWrites(State(), s, Full);
      ghost var u := Move(State(), s, Full);
      nodes := nodes[c := nodes[c].(partial := slabs[s].next)];
      if slabs[s].next != 0 {
        slabs := slabs[slabs[s].next := slabs[slabs[s].next].(prev := 0)];
      }
      if nodes[c].full != 0 {
        slabs := slabs[nodes[c].full := slabs[nodes[c].full].(prev := s)];
      }
      slabs := slabs[s := slabs[s].(next := nodes[c].full)];
      nodes := nodes[c := nodes[c].(full := s)];
      views, lists := u.views, u.lists;
      assert slabs == u.slabs && nodes == u.nodes;
    }
  }
}
