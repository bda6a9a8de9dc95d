/**
 The lines of kernel/modules/memory/kheap.c that KHeap repairs, as they stand, and exactly when they do what is
 meant.
 */
module KHeapAsWritten {
  import opened Grid
  import Pmm
  import opened Seqs
  import opened SlabState
  import opened SlabSteps
  import opened SlabLists
  import opened SlabGrowth
  import opened SlabMoves
  import opened KHeap

  // ---- kheap.c:378, the alignment test ----

  lemma {:induction false} GridAt(first: int, end: int, o: nat, k: nat)
    requires o > 0 && k < |GridFrom(first, end, o)|
    ensures GridFrom(first, end, o)[k] == first + k * o
    decreases k
  {
    if k > 0 {
      GridAt(first + o, end, o, k - 1);
      assert k * o == (k - 1) * o + o;
    }
  }

  /**
   slab_free accepts a block in use exactly when the slab's region starts at a multiple of the object size; up
   to the page size that is always so, beyond it a page-aligned region need not be.
   */
  lemma AcceptedExactly(h: Heap, a: int)
    requires Inv(h) && InUse(h, a)
    ensures h.owner[a] in h.slabs && h.owner[a] in h.views && 0 < SizeOf(h, h.owner[a])
    ensures a % SizeOf(h, h.owner[a]) == 0 <==> h.views[h.owner[a]].base % SizeOf(h, h.owner[a]) == 0
    ensures SizeOf(h, h.owner[a]) <= 4096 ==> a % SizeOf(h, h.owner[a]) == 0
  {
    ObjectPlace(h, a);
    BlockIsSized(h, h.owner[a]);
    assert OwnerOk(h, a);
    var s, o := h.owner[a], SizeOf(h, h.owner[a]);
    var base := h.views[s].base;
    var k :| 0 <= k < |h.views[s].grid| && h.views[s].grid[k] == a;
    GridAt(FirstObj(base, o), base + SlabSize(o), o, k);
    hide Inv;
    AlignedGrid(base, o, k);
  }

  lemma AlignedGrid(base: int, o: int, k: nat)
    requires IsObjSize(o) && base % 4096 == 0
    ensures (FirstObj(base, o) + k * o) % o == 0 <==> base % o == 0
    ensures o <= 4096 ==> base % o == 0
  {
    WholePages(base, o);
    if SlabSize(o) == 4096 {
      var d := Pmm.DivUp(SLAB_T, o);
      assert (d + k) * o == o * d + k * o;
      SkipsWhole(base, o, d + k);
    } else {
      SkipsWhole(base, o, k);
    }
  }

  lemma WholePages(base: int, o: int)
    requires IsObjSize(o) && base % 4096 == 0
    ensures o <= 4096 ==> base % o == 0
    ensures Pmm.DivUp(SLAB_T, o) >= 0
  {
    if o <= 4096 {
      assert o == 8 ==> base % 8 == 0;
      assert o == 16 ==> base % 16 == 0;
      assert o == 32 ==> base % 32 == 0;
      assert o == 64 ==> base % 64 == 0;
      assert o == 128 ==> base % 128 == 0;
      assert o == 256 ==> base % 256 == 0;
      assert o == 512 ==> base % 512 == 0;
      assert o == 1024 ==> base % 1024 == 0;
      assert o == 2048 ==> base % 2048 == 0;
    }
  }

  lemma SkipsWhole(x: int, o: int, n: nat)
    requires 0 < o
    ensures (x + n * o) % o == x % o
  {
    var q, r := x / o, x % o;
    assert x + n * o == o * (q + n) + r;
    Pmm.Bits.RemainderUnique(x + n * o, o, q + n, r);
  }

  // ---- kheap.c:405-447, when a slab counts as all free ----

  /** The count that lines 407-415 compare with: slab_free has just made free_obj the object given back. */
  function TotalAsWritten(slabSize: int, o: nat, a: int): int
    requires o > 0
  {
    if slabSize == 4096 then (slabSize - a % 4096) / o else slabSize / o
  }

  /** For the object at position k of a one-page slab it is k less than the number of objects. */
  lemma TotalIs(base: int, o: int, k: nat)
    requires IsObjSize(o) && base % 4096 == 0 && k < |SlabGrid(base, o)|
    ensures TotalAsWritten(SlabSize(o), o, SlabGrid(base, o)[k]) ==
              |SlabGrid(base, o)| - if SlabSize(o) == 4096 then k else 0
  {
    var end, a := base + SlabSize(o), SlabGrid(base, o)[k];
    SlabGridCount(base, o);
    RoomIsWhole(base, o);
    GridAt(FirstObj(base, o), end, o, k);
    GridBounds(FirstObj(base, o), end, o, k);
    var cap := Capacity(base, o);
    hide SlabGrid, FirstObj, GridFrom, Capacity, IsObjSize;
    if SlabSize(o) == 4096 {
      RoomBehind(base, a, o, cap, k);
    }
  }

  lemma RoomBehind(base: int, a: int, o: int, cap: int, k: nat)
    requires base % 4096 == 0 && base <= a < base + 4096 && 0 < o && base + 4096 - (a - k * o) == cap * o
    ensures (4096 - a % 4096) / o == cap - k
  {
    var n := cap - k;
    assert (n + k) * o == n * o + k * o;
    assert a % 4096 == a - base;
    Pmm.Bits.RemainderUnique(base + 4096 - a, o, n, 0);
  }

  /** Lines 419-445 as they stand: a slab without a predecessor is taken for the head of the partial list. */
  function ToFreeAsWritten(u: Heap, s: int): Heap
    requires s in u.slabs && s in u.views && u.slabs[s].cache in u.nodes && u.slabs[s].cache in u.lists
  {
    var c := u.slabs[s].cache;
    var nodes := if u.slabs[s].prev == 0 then u.nodes[c := SetHead(u.nodes[c], Partial, u.slabs[s].next)] else u.nodes;
    var v := u.(nodes := nodes, slabs := UnhookSlabs(u.slabs, s),
                lists := u.lists[c := SetList(u.lists[c], Partial, Without(u.lists[c].partial, s))]);
    if s in v.slabs && v.slabs[s].cache == c then Hook(v, s, Free) else v
  }

  /** kfree as it stands, for a block of slab s. Where slab_free turns the block down, kfree goes on nevertheless. */
  function FreeAsWritten(h: Heap, s: int, a: int): Heap
    requires s in h.slabs && s in h.views && h.slabs[s].cache in h.nodes && h.slabs[s].cache in h.lists
    requires 0 < SizeOf(h, s)
  {
    var o := SizeOf(h, s);
    var u := if a % o == 0 then PushFree(h, s, a) else h;
    if u.slabs[s].freeCount == TotalAsWritten(SlabSize(o), o, u.slabs[s].freeObj) then ToFreeAsWritten(u, s) else u
  }

  /** What slab_free turns down is left alone by the rest of kfree, too. */
  lemma RefusedUnchanged(h: Heap, a: int)
    requires Inv(h) && InUse(h, a)
    ensures h.owner[a] in h.slabs && h.owner[a] in h.views && 0 < SizeOf(h, h.owner[a])
    ensures var s := h.owner[a];
            && h.slabs[s].cache in h.nodes && h.slabs[s].cache in h.lists
            && (a % SizeOf(h, s) != 0 ==> FreeAsWritten(h, s, a) == h)
  {
    AcceptedExactly(h, a);
    FreeFacts(h, a);
    var s := h.owner[a];
    BlockIsSized(h, s);
    if a % SizeOf(h, s) != 0 {
      assert SizeOf(h, s) > 4096 && SlabSize(SizeOf(h, s)) == 32768;
      assert |h.views[s].grid| == 32768 / SizeOf(h, s);
    }
  }

  lemma ToFreePlace(u: Heap, s: int)
    requires s in u.slabs && s in u.views && u.slabs[s].cache in u.nodes && u.slabs[s].cache in u.lists
    requires u.slabs[s].next != s && u.slabs[s].prev != s
    ensures var w := ToFreeAsWritten(u, s);
            && s in w.slabs && s in w.views && w.slabs[s].freeCount == u.slabs[s].freeCount
            && w.views[s].place == Free && w.views[s].grid == u.views[s].grid
  {
    hide Without;
  }

  lemma ToFreeIsMove(u: Heap, s: int)
    requires s in u.slabs && s in u.views && u.slabs[s].cache in u.nodes && u.slabs[s].cache in u.lists
    requires u.views[s].place == Partial && u.slabs[s].next != s && u.slabs[s].prev != s
    ensures ToFreeAsWritten(u, s) == Move(u, s, Free)
  {
    hide Without, Hook;
  }

  lemma NotMatching(u: Heap, s: int)
    requires s in u.slabs && s in u.views && !Matches(u, s)
    ensures !Inv(u)
  {
  }

  /**
   kfree as it stands keeps every slab on the list its free count asks for if and only if slab_free turns the
   block down, or the slab was not full and, in a one-page slab, the block is its first object or the new count
   differs from both the real capacity and the smaller number the code compares it with.
   */
  lemma FreeAsWrittenExact(h: Heap, a: int, k: nat)
    requires Inv(h) && InUse(h, a)
    requires h.owner[a] in h.views && k < |h.views[h.owner[a]].grid| && h.views[h.owner[a]].grid[k] == a
    ensures var s := h.owner[a];
            && s in h.slabs && h.slabs[s].cache in h.nodes && h.slabs[s].cache in h.lists && 0 < SizeOf(h, s)
            && (Inv(FreeAsWritten(h, s, a)) <==>
                  a % SizeOf(h, s) != 0
                  || (h.slabs[s].freeCount > 0
                      && (SlabSize(SizeOf(h, s)) != 4096 || k == 0
                          || (h.slabs[s].freeCount + 1 != |h.views[s].grid| - k
                              && h.slabs[s].freeCount + 1 != |h.views[s].grid|))))
  {
    var s := h.owner[a];
    RefusedUnchanged(h, a);
    FreeFacts(h, a);
    if a % SizeOf(h, s) == 0 {
      AcceptedExact(h, s, a, k);
    }
  }

  lemma AcceptedExact(h: Heap, s: int, a: int, k: nat)
    requires Inv(h) && InUse(h, a) && h.owner[a] == s && s in h.views && s in h.slabs && 0 < SizeOf(h, s)
    requires k < |h.views[s].grid| && h.views[s].grid[k] == a && a % SizeOf(h, s) == 0
    requires h.slabs[s].cache in h.nodes && h.slabs[s].cache in h.lists
    ensures Inv(FreeAsWritten(h, s, a)) <==>
              && h.slabs[s].freeCount > 0
              && (SlabSize(SizeOf(h, s)) != 4096 || k == 0
                  || (h.slabs[s].freeCount + 1 != |h.views[s].grid| - k
                      && h.slabs[s].freeCount + 1 != |h.views[s].grid|))
  {
    FreeFacts(h, a);
    BlockIsSized(h, s);
    TotalIs(h.views[s].base, SizeOf(h, s), k);
    GiveInv(h, s, a);
    GiveSteps(h, s, a);
    PushedLinks(h, s, a);
    var u, w := PushFree(h, s, a), FreeAsWritten(h, s, a);
    hide Inv, Core, PushFree, ToFreeAsWritten, TotalAsWritten, Move, SlabGrid, Capacity, SlabSize, SizeOf;
    ToFreePlace(u, s);
    if h.slabs[s].freeCount > 0 {
      ToFreeIsMove(u, s);
    }
    if !Matches(w, s) {
      NotMatching(w, s);
    }
  }

  lemma PushedLinks(h: Heap, s: int, a: int)
    requires Inv(h) && InUse(h, a) && h.owner[a] == s && s in h.slabs && s in h.views
    ensures var u := PushFree(h, s, a);
            && s in u.slabs && s in u.views && u.slabs[s].next != s && u.slabs[s].prev != s
            && u.views[s].grid == h.views[s].grid && u.slabs[s].freeObj == a
  {
    SlabLinks(h, s);
  }

  // ---- kheap.c:458, the first free count ----

  /** Of all counts init_kheap could start with only 126 agrees with the chain; line 458 computes 127. */
  lemma InitialCountExact(h: Heap, base: int, count: int)
    requires IsInitial(h, base, count)
    ensures Inv(h) <==> count == 126
    ensures (4096 - 32) / 32 == 127
  {
    hide SlabGrid, GridFrom, Threaded;
    InitialGrid(base);
    if count == 126 {
      InitialInv(h, base);
    } else {
      assert !ChainOk(h, base);
      assert base in h.slabs && !SlabOk(h, base);
    }
  }

  // ---- kheap.c:224-230, no frame for the index ----

  /**
   When the page of index entries has to be backed and there is no frame for it, cache_grow returns NULL, but
   the new slab is on the free list already, and the index does not know its pages.
   */
  lemma UnindexedSlab(h: Heap, c: int, s: int, base: int, links: map<int, int>, info: map<int, int>)
    requires Inv(h) && MayAdd(h, c, s, base, links, info)
    ensures !Inv(AddSlab(h, c, s, base, links, info).(info := h.info))
  {
    var u, o := AddSlab(h, c, s, base, links, info).(info := h.info), h.nodes[c].objSize;
    assert base / 4096 !in h.info;
    assert u.views[s].base == base && u.nodes[c].objSize == o;
    hide SlabGrid, NewLinks, NewInfo;
    assert !RegionOk(u, s, o);
    assert s in u.slabs && !SlabOk(u, s);
  }
}
