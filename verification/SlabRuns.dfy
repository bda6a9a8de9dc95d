/** Whole runs of kmalloc and kfree. */
module SlabRuns {
  import opened Seqs
  import opened Grid
  import opened SlabState
  import opened SlabMoves
  import opened KHeap

  datatype Request = Allocate(size: nat, flags: nat) | Release(i: nat)

  /** A block a caller holds, how many bytes of it were asked for, and whether with MM_DMA. */
  datatype Held = Held(a: int, size: nat, dma: bool)

  /** Every held block is in use, has room for what was asked, and lies in a slab of the kind that was asked for. */
  ghost predicate Holds(h: Heap, held: seq<Held>) {
    && (forall i :: 0 <= i < |held| ==> HeldOk(h, held[i]))
    && forall i, j :: 0 <= i < j < |held| ==> held[i].a != held[j].a
  }

  ghost predicate HeldOk(h: Heap, x: Held) {
    InUse(h, x.a) && x.size <= SizeOf(h, h.owner[x.a]) && InCacheOf(h, x.a, if x.dma then 1 else 0)
  }

  ghost predicate Apart(x: Held, y: Held) {
    x.a + x.size <= y.a || y.a + y.size <= x.a
  }

  /** Held blocks lie in the heap's pages and never overlap. */
  lemma HeldApart(h: Heap, held: seq<Held>, i: nat, j: nat)
    requires Inv(h) && Holds(h, held) && i < j < |held|
    ensures Apart(held[i], held[j]) && KHEAP_START <= held[i].a && held[i].a + held[i].size <= h.heapEnd
  {
    assert HeldOk(h, held[i]) && HeldOk(h, held[j]);
    var a, b := held[i].a, held[j].a;
    BlockPlace(h, a);
    if a < b {
      BlocksDisjoint(h, a, b);
    } else {
      BlocksDisjoint(h, b, a);
    }
  }

  /** A block held with MM_DMA and one held without never share a slab, nor a page. */
  lemma KindsApart(h: Heap, held: seq<Held>, i: nat, j: nat)
    requires Inv(h) && Holds(h, held) && i < |held| && j < |held| && held[i].dma != held[j].dma
    ensures h.owner[held[i].a] != h.owner[held[j].a] && held[i].a / 4096 != held[j].a / 4096
  {
    assert HeldOk(h, held[i]) && HeldOk(h, held[j]);
    FreeFacts(h, held[i].a);
    FreeFacts(h, held[j].a);
  }

  /** The frames under a held block are those that alloc_page and alloc_pages gave for MM_DMA, or none of them is. */
  ghost predicate FramesMatch(dma: set<int>, x: Held) {
    forall b :: x.a <= b < x.a + x.size ==> (b / 4096 in dma <==> x.dma)
  }

  lemma HeldFrames(h: Heap, dma: set<int>, held: seq<Held>, i: nat)
    requires Inv(h) && Holds(h, held) && DmaOk(h, dma) && i < |held|
    ensures FramesMatch(dma, held[i])
  {
    var x := held[i];
    assert HeldOk(h, x);
    var s := h.owner[x.a];
    assert OwnerOk(h, x.a);
    IndexFindsSlab(h, s, x.a);
    forall b | x.a <= b < x.a + x.size ensures b / 4096 in dma <==> x.dma {
      PagesOf(h, s, b);
      assert DmaPage(h, dma, b / 4096);
    }
  }

  /** A held block shares no byte with the header of a slab or of a cache. */
  ghost predicate OffHeaders(h: Heap, x: Held) {
    && (forall s :: s in h.slabs ==> x.a + x.size <= s || s + 20 <= x.a)
    && (forall c :: c in h.nodes ==> x.a + x.size <= c || c + 32 <= x.a)
  }

  lemma HeldOffHeaders(h: Heap, held: seq<Held>, i: nat)
    requires Inv(h) && HeadersFit(h) && Holds(h, held) && i < |held|
    ensures OffHeaders(h, held[i])
  {
    hide Inv, HeldOk, HeadersFit;
    assert HeldOk(h, held[i]);
    BlockOffHeaders(h, held[i]);
  }

  lemma BlockOffHeaders(h: Heap, x: Held)
    requires Inv(h) && HeadersFit(h) && HeldOk(h, x)
    ensures OffHeaders(h, x)
  {
    hide Inv, HeldOk, HeadersFit;
    forall c | c in h.nodes ensures x.a + x.size <= c || c + 32 <= x.a {
      InvCache(h, c);
      OffBlock(h, x, c);
    }
    forall s | s in h.slabs ensures x.a + x.size <= s || s + 20 <= x.a {
      if s in h.internal {
        OffBlock(h, x, s);
      } else {
        OffPage(h, x, s);
      }
    }
  }

  lemma InvCache(h: Heap, c: int)
    requires Inv(h) && c in h.nodes
    ensures c in h.internal
  {
    assert CacheOk(h, c);
  }

  lemma InvBody(h: Heap)
    requires Inv(h)
    ensures Body(h) && forall a :: a in h.internal ==> a in h.owner
  {
  }

  lemma OffBlock(h: Heap, x: Held, a: int)
    requires Inv(h) && HeadersFit(h) && HeldOk(h, x) && a in h.internal
    ensures x.a + x.size <= a || a + 32 <= x.a
  {
    hide Inv, Body, InCacheOf, SizeOf;
    InvBody(h);
    assert HeaderFits(h, a);
    if x.a < a {
      BlocksDisjoint(h, x.a, a);
    } else {
      BlocksDisjoint(h, a, x.a);
    }
  }

  /** The header of a slab of one page lies at its start, in front of the objects. */
  lemma OffPage(h: Heap, x: Held, s: int)
    requires Inv(h) && HeldOk(h, x) && s in h.slabs && s !in h.internal
    ensures x.a + x.size <= s || s + 20 <= x.a
  {
    assert SlabOk(h, s) && OwnerOk(h, x.a);
    var t := h.owner[x.a];
    IndexFindsSlab(h, t, x.a);
    BlockIsSized(h, t);
    SlabGridCount(h.views[t].base, SizeOf(h, t));
    if t != s {
      PagesOf(h, s, s);
      PagesOf(h, t, s);
      assert SlabOk(h, t);
      PagesOf(h, s, x.a);
    }
  }

  lemma BlockPlace(h: Heap, a: int)
    requires Inv(h) && a in h.owner
    ensures KHEAP_START <= a && a + SizeOf(h, h.owner[a]) <= h.heapEnd
  {
    assert OwnerOk(h, a);
    IndexFindsSlab(h, h.owner[a], a);
  }

  lemma AllocationHolds(h: Heap, u: Heap, held: seq<Held>, a: int, size: nat, dma: bool, o: int,
      kind: int)
    requires Inv(h) && Holds(h, held) && Outcome(h, u, a, o, kind) && size <= o
    requires a != 0 ==> InCacheOf(u, a, if dma then 1 else 0)
    ensures Inv(u) && Holds(u, if a == 0 then held else held + [Held(a, size, dma)])
    ensures HeadersFit(h) ==> HeadersFit(u)
  {
    hide Inv, HeadersFit, InCacheOf, Grows, Outcome, SizeOf;
    OutcomeGrows(h, u, a, o, kind);
    if HeadersFit(h) {
      HeadersStill(h, u);
    }
    forall i | 0 <= i < |held| ensures HeldOk(u, held[i]) && held[i].a in h.owner {
      assert HeldOk(h, held[i]);
      StillHeld(h, u, held[i]);
    }
  }

  lemma OutcomeGrows(h: Heap, u: Heap, a: int, o: int, kind: int)
    requires Outcome(h, u, a, o, kind)
    ensures Grows(h, u) && Inv(u) && forall b :: InUse(h, b) ==> InUse(u, b)
    ensures a != 0 ==> a !in h.owner && InUse(u, a) && SizeOf(u, u.owner[a]) == o
  {
    hide Inv, Grows;
    assert a != 0 ==> (InUse(u, a) <==> InUse(h, a) || a == a);
  }

  lemma StillHeld(h: Heap, u: Heap, x: Held)
    requires Inv(h) && HeldOk(h, x) && Grows(h, u)
    requires forall b :: InUse(h, b) ==> InUse(u, b)
    ensures HeldOk(u, x)
  {
    SizeKept(h, u, x.a);
    assert KeepsCache(h.nodes, u.nodes, h.slabs[h.owner[x.a]].cache);
  }

  lemma ReleaseHolds(h: Heap, u: Heap, held: seq<Held>, i: nat)
    requires Inv(h) && Holds(h, held) && i < |held| && SameSizes(h, u)
    requires u.owner == h.owner - {held[i].a} && u.internal == h.internal
    ensures Holds(u, RemoveAt(held, i))
  {
    hide Inv, SameSizes, SizeOf;
    var rest := RemoveAt(held, i);
    forall j | 0 <= j < |rest| ensures HeldOk(u, rest[j]) {
      var k := if j < i then j else j + 1;
      assert rest[j] == held[k] && HeldOk(h, held[k]) && held[k].a != held[i].a;
      ReleasedOther(h, u, held[k].a);
    }
  }

  lemma ReleasedOther(h: Heap, u: Heap, a: int)
    requires Inv(h) && SameSizes(h, u) && a in h.owner && a in u.owner && u.owner[a] == h.owner[a]
    ensures SizeOf(u, u.owner[a]) == SizeOf(h, h.owner[a])
    ensures forall kind :: InCacheOf(h, a, kind) ==> InCacheOf(u, a, kind)
  {
    assert OwnerOk(h, a);
    assert SlabOk(h, h.owner[a]);
    assert KeepsCache(h.nodes, u.nodes, h.slabs[h.owner[a]].cache);
  }

  /**
   Any sequence of allocations and releases. The blocks held at the end, and so after every prefix, are in use,
   at least as large as asked for, pairwise apart and off every header; their frames are the ones for DMA exactly
   if they were asked for with MM_DMA. A release that kfree turns down keeps its block.
   */
  method Run(heap: Kernel, requests: seq<Request>) returns (held: seq<Held>)
    requires Inv(heap.State()) && HeadersFit(heap.State()) && heap.DmaReady()
    requires forall r :: r in requests && r.Allocate? ==> r.size <= 16384
    modifies heap
    ensures Inv(heap.State()) && HeadersFit(heap.State()) && heap.DmaReady() && Holds(heap.State(), held)
    ensures forall i, j :: 0 <= i < j < |held| ==> Apart(held[i], held[j])
    ensures forall i :: 0 <= i < |held| ==>
              0xE100_0000 <= held[i].a && held[i].a + held[i].size <= 0xF000_0000 && OffHeaders(heap.State(), held[i])
    ensures forall i :: 0 <= i < |held| ==> FramesMatch(heap.dmaPages, held[i])
  {
    hide Inv, Outcome, Holds, SameSizes, HeadersFit, DmaOk, DmaKept, OffHeaders, FramesMatch, InCacheOf;
    held := [];
    NothingHeld(heap.State());
    for n := 0 to |requests|
      invariant Inv(heap.State()) && HeadersFit(heap.State()) && heap.DmaReady() && Holds(heap.State(), held)
    {
      ghost var h := heap.State();
      match requests[n] {
        case Allocate(size, flags) =>
          assert requests[n] in requests;
          var a;
          ghost var o;
          a, o := heap.Kmalloc(size, flags);
          AllocationHolds(h, heap.State(), held, a, size, flags % 2 == 1, o, TypeOf(flags));
          if a != 0 {
            held := held + [Held(a, size, flags % 2 == 1)];
          }
        case Release(i) =>
          if i < |held| {
            HeldInUse(h, held, i);
            var o := heap.nodes[heap.slabs[heap.info[held[i].a / 4096]].cache].objSize;
            heap.Kfree(held[i].a);
            ReleaseKeeps(h, heap.State(), held[i].a, heap.dmaPages);
            if held[i].a % o == 0 {
              ReleaseHolds(h, heap.State(), held, i);
              held := RemoveAt(held, i);
            } else {
              RefusalHolds(h, heap.State(), held);
            }
          }
      }
    }
    forall i, j | 0 <= i < j < |held| ensures Apart(held[i], held[j]) {
      HeldApart(heap.State(), held, i, j);
    }
    forall i | 0 <= i < |held|
      ensures 0xE100_0000 <= held[i].a && held[i].a + held[i].size <= 0xF000_0000
      ensures OffHeaders(heap.State(), held[i]) && FramesMatch(heap.dmaPages, held[i])
    {
      HeldPlace(heap.State(), held, i);
      HeldOffHeaders(heap.State(), held, i);
      HeldFrames(heap.State(), heap.dmaPages, held, i);
    }
  }

  lemma HeldPlace(h: Heap, held: seq<Held>, i: nat)
    requires Inv(h) && Holds(h, held) && i < |held|
    ensures KHEAP_START <= held[i].a && held[i].a + held[i].size <= KHEAP_MAX
  {
    assert HeldOk(h, held[i]);
    BlockPlace(h, held[i].a);
  }

  lemma HeadersKept(h: Heap, u: Heap)
    requires Inv(h) && HeadersFit(h) && SameSizes(h, u) && u.internal == h.internal
    requires forall a :: a in h.internal ==> a in h.owner && a in u.owner && u.owner[a] == h.owner[a]
    ensures HeadersFit(u)
  {
    hide Inv, SameSizes, SizeOf, InCacheOf;
    forall a | a in u.internal ensures HeaderFits(u, a) {
      assert HeaderFits(h, a);
      ReleasedOther(h, u, a);
    }
  }

  /** kfree changes neither what holds headers nor whose frames are for DMA. */
  lemma ReleaseKeeps(h: Heap, u: Heap, x: int, dma: set<int>)
    requires Inv(h) && SameSizes(h, u) && u.internal == h.internal && u.info == h.info
    requires x !in h.internal && (u.owner == h.owner || u.owner == h.owner - {x})
    ensures HeadersFit(h) ==> HeadersFit(u)
    ensures DmaOk(h, dma) ==> DmaOk(u, dma)
  {
    hide Inv, SameSizes, HeadersFit, HeaderFits, DmaOk;
    InvBody(h);
    if HeadersFit(h) {
      HeadersKept(h, u);
    }
    if DmaOk(h, dma) {
      DmaSame(h, u, dma);
    }
  }

  lemma NothingHeld(h: Heap)
    ensures Holds(h, [])
  {
  }

  lemma HeldInUse(h: Heap, held: seq<Held>, i: nat)
    requires Inv(h) && Holds(h, held) && i < |held|
    ensures InUse(h, held[i].a)
    ensures held[i].a / 4096 in h.info && h.info[held[i].a / 4096] == h.owner[held[i].a]
    ensures h.owner[held[i].a] in h.slabs && h.slabs[h.owner[held[i].a]].cache in h.nodes
    ensures SizeOf(h, h.owner[held[i].a]) == h.nodes[h.slabs[h.owner[held[i].a]].cache].objSize > 0
  {
    assert HeldOk(h, held[i]);
    FreeFacts(h, held[i].a);
  }

  lemma RefusalHolds(h: Heap, u: Heap, held: seq<Held>)
    requires Inv(h) && Holds(h, held) && SameSizes(h, u) && u.owner == h.owner && u.internal == h.internal
    ensures Holds(u, held)
  {
    forall i | 0 <= i < |held| ensures HeldOk(u, held[i]) {
      assert HeldOk(h, held[i]);
      ReleasedOther(h, u, held[i].a);
    }
  }
}
