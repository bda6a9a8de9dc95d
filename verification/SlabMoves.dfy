/** What whole calls of cache_alloc, cache_grow and kfree do to the state, and what a caller can rely on. */
module SlabMoves {
  import opened Grid
  import opened Seqs
  import opened Sets
  import opened SlabState
  import opened SlabSteps
  import opened SlabLists
  import opened SlabGrowth

  /** A block that kmalloc's callers hold. */
  predicate InUse(h: Heap, a: int) {
    a in h.owner && a !in h.internal
  }

  ghost predicate SameUse(h: Heap, u: Heap) {
    forall a :: InUse(u, a) <==> InUse(h, a)
  }

  /** A block that holds a slab's or a cache's header is one of the 32-byte blocks. */
  ghost predicate HeaderFits(h: Heap, a: int) {
    a in h.owner && SizeOf(h, h.owner[a]) == 32
  }

  ghost predicate HeadersFit(h: Heap) {
    forall a :: a in h.internal ==> HeaderFits(h, a)
  }

  /** Slabs, caches and blocks only get more: nothing about an old one that a block's size depends on changes. */
  ghost predicate Grows(h: Heap, u: Heap) {
    && h.heapEnd <= u.heapEnd && h.internal <= u.internal
    && (forall a :: a in u.internal && a !in h.internal ==> HeaderFits(u, a))
    && (forall s :: s in h.slabs ==> s in u.slabs && u.slabs[s].cache == h.slabs[s].cache)
    && (forall c :: c in h.nodes ==> KeepsCache(h.nodes, u.nodes, c))
    && (forall a :: a in h.owner ==> a in u.owner && u.owner[a] == h.owner[a])
  }

  ghost predicate KeepsCache(a: map<int, Cache>, b: map<int, Cache>, c: int)
    requires c in a
  {
    c in b && b[c].objSize == a[c].objSize && b[c].kind == a[c].kind && b[c].slabSize == a[c].slabSize
  }

  /** The index entries of pages below a bound are unchanged. */
  ghost predicate InfoKept(a: map<int, int>, b: map<int, int>, bound: int) {
    forall p :: p < bound ==> (p in a <==> p in b) && (p in a ==> b[p] == a[p])
  }

  /** A block keeps its size. */
  lemma SizeKept(h: Heap, u: Heap, a: int)
    requires Core(h) && Grows(h, u) && a in h.owner
    ensures a in u.owner && SizeOf(u, u.owner[a]) == SizeOf(h, h.owner[a])
  {
    ObjectPlace(h, a);
    BlockIsSized(h, h.owner[a]);
    assert KeepsCache(h.nodes, u.nodes, h.slabs[h.owner[a]].cache);
  }

  lemma BlockIsSized(h: Heap, s: int)
    requires Core(h) && s in h.slabs
    ensures h.slabs[s].cache in h.nodes && IsObjSize(SizeOf(h, s))
    ensures s in h.views && h.views[s].base % 4096 == 0 && h.views[s].grid == SlabGrid(h.views[s].base, SizeOf(h, s))
    ensures |h.views[s].grid| >= 2 && |h.views[s].chain| <= |h.views[s].grid|
    ensures h.slabs[s].freeCount == |h.views[s].chain|
  {
    assert SlabOk(h, s);
    SlabGridCount(h.views[s].base, SizeOf(h, s));
    DistinctFits(h.views[s].chain, h.views[s].grid);
  }

  // ---- moving a slab between two lists ----

  ghost predicate OthersMatch(h: Heap, s: int) {
    h.slabs.Keys == h.views.Keys && forall t :: t in h.slabs && t != s ==> Matches(h, t)
  }

  function Move(h: Heap, s: int, p: Place): Heap
    requires s in h.slabs && s in h.views && h.slabs[s].cache in h.nodes && h.slabs[s].cache in h.lists
  {
    var u := Unhook(h, s);
    if s in u.slabs && s in u.views && u.slabs[s].cache in u.nodes && u.slabs[s].cache in u.lists
    then Hook(u, s, p) else u
  }

  lemma MoveKeeps(h: Heap, s: int, p: Place)
    requires Core(h) && s in h.slabs && s in h.views && p != h.views[s].place
    ensures h.slabs[s].cache in h.nodes && h.slabs[s].cache in h.lists
    ensures Core(Move(h, s, p)) && OnlyLinks(h, Move(h, s, p))
    ensures s in Move(h, s, p).views && Move(h, s, p).views[s].place == p
    ensures s in Unhook(h, s).slabs && s in Unhook(h, s).views
    ensures Unhook(h, s).slabs[s].cache in Unhook(h, s).nodes && Unhook(h, s).slabs[s].cache in Unhook(h, s).lists
    ensures Move(h, s, p) == Hook(Unhook(h, s), s, p)
  {
    UnhookFloating(h, s);
    UnhookOnlyLinks(h, s);
    var v := Unhook(h, s);
    assert v.views == h.views && h.views.Keys == h.slabs.Keys;
    hide Core, Body, Unhook, Hook, InList;
    HookCore(v, s, p);
    HookOnlyLinks(v, s, p);
    LinksTwice(h, v, Hook(v, s, p));
  }

  lemma MoveCore(h: Heap, s: int, p: Place)
    requires Core(h) && s in h.slabs && s in h.views && p != h.views[s].place && OthersMatch(h, s)
    ensures h.slabs[s].cache in h.nodes && h.slabs[s].cache in h.lists
    ensures Core(Move(h, s, p)) && OnlyLinks(h, Move(h, s, p)) && OthersMatch(Move(h, s, p), s)
    ensures s in Move(h, s, p).views && Move(h, s, p).views[s].place == p
  {
    MoveKeeps(h, s, p);
    hide Core, Move, Unhook, Hook, OnlyLinks, OthersMatch;
    MovePlaces(h, s, p);
    OthersStillMatch(h, Move(h, s, p), s);
  }

  lemma OthersStillMatch(h: Heap, u: Heap, s: int)
    requires OthersMatch(h, s) && OnlyLinks(h, u)
    requires forall t :: t in h.views && t != s ==> t in u.views && u.views[t].place == h.views[t].place
    ensures OthersMatch(u, s)
  {
    forall t | t in u.slabs && t != s ensures t in u.views && Matches(u, t) {
      assert Matches(h, t);
    }
  }

  lemma LinksTwice(h: Heap, v: Heap, u: Heap)
    requires OnlyLinks(h, v) && OnlyLinks(v, u) && h.slabs.Keys == h.views.Keys
    ensures OnlyLinks(h, u)
  {
  }

  lemma MovePlaces(h: Heap, s: int, p: Place)
    requires Core(h) && s in h.slabs && s in h.views && h.slabs[s].cache in h.nodes && h.slabs[s].cache in h.lists
    ensures forall t :: t in h.views && t != s ==>
              t in Move(h, s, p).views && Move(h, s, p).views[t].place == h.views[t].place
  {
    hide UnhookSlabs, HookSlabs, Without, Core;
  }

  lemma LinksGrow(h: Heap, u: Heap)
    requires OnlyLinks(h, u)
    ensures Grows(h, u) && SameUse(h, u)
  {
    assert forall c :: c in h.nodes ==> KeepsCache(h.nodes, u.nodes, c);
  }

  lemma HeaderStill(h: Heap, u: Heap, a: int)
    requires Grows(h, u) && HeaderFits(h, a)
    ensures HeaderFits(u, a)
  {
    assert KeepsCache(h.nodes, u.nodes, h.slabs[h.owner[a]].cache);
  }

  lemma HeadersStill(h: Heap, u: Heap)
    requires Grows(h, u) && HeadersFit(h)
    ensures HeadersFit(u)
  {
    hide Grows;
    forall a | a in u.internal ensures HeaderFits(u, a) {
      if a in h.internal {
        HeaderStill(h, u, a);
      } else {
        NewHeader(h, u, a);
      }
    }
  }

  lemma NewHeader(h: Heap, u: Heap, a: int)
    requires Grows(h, u) && a in u.internal && a !in h.internal
    ensures HeaderFits(u, a)
  {
  }

  lemma GrowsTwice(h: Heap, v: Heap, u: Heap)
    requires Grows(h, v) && Grows(v, u)
    ensures Grows(h, u)
  {
    forall a | a in u.internal && a !in h.internal ensures HeaderFits(u, a) {
      if a in v.internal {
        HeaderStill(v, u, a);
      }
    }
    forall c | c in h.nodes ensures KeepsCache(h.nodes, u.nodes, c) {
      assert KeepsCache(h.nodes, v.nodes, c) && KeepsCache(v.nodes, u.nodes, c);
    }
  }

  /** The pointer writes that move the first slab of one list to the front of another. */
  function Relinked(slabs: map<int, Slab>, s: int, head: int): map<int, Slab>
    requires s in slabs
  {
    var n := slabs[s].next;
    var slabs1 := if n != 0 && n in slabs then slabs[n := slabs[n].(prev := 0)] else slabs;
    var slabs2 := if head != 0 && head in slabs1 then slabs1[head := slabs1[head].(prev := s)] else slabs1;
    slabs2[s := slabs2[s].(next := head, prev := 0)]
  }

  lemma MoveWrites(h: Heap, s: int, p: Place)
    requires Core(h) && s in h.slabs && s in h.views && p != h.views[s].place && h.slabs[s].cache in h.nodes
    requires HeadOf(h.nodes[h.slabs[s].cache], h.views[s].place) == s && s != 0
    ensures h.slabs[s].cache in h.lists
    ensures var c, u := h.slabs[s].cache, Move(h, s, p);
            u == h.(slabs := Relinked(h.slabs, s, HeadOf(h.nodes[c], p)),
                    nodes := h.nodes[c := SetHead(SetHead(h.nodes[c], h.views[s].place, h.slabs[s].next), p, s)],
                    views := u.views, lists := u.lists)
  {
    hide Core;
    HeadSlab(h, h.slabs[s].cache, h.views[s].place);
    MoveKeeps(h, s, p);
    hide OnlyLinks, Without;
    var v := Unhook(h, s);
    assert v.nodes[h.slabs[s].cache] == SetHead(h.nodes[h.slabs[s].cache], h.views[s].place, h.slabs[s].next);
  }

  /** The head of a list that is not empty. */
  lemma HeadSlab(h: Heap, c: int, p: Place)
    requires Core(h) && c in h.nodes && HeadOf(h.nodes[c], p) != 0
    ensures var s := HeadOf(h.nodes[c], p);
            && s in h.slabs && s in h.views && c in h.lists && h.slabs[s].cache == c && h.views[s].place == p
            && h.slabs[s].prev == 0 && h.slabs[s].next != s
            && (h.slabs[s].next != 0 ==> h.slabs[s].next in h.slabs)
            && s in ListOf(h.lists[c], p)
  {
    ListLinks(h, c, p);
    var list := ListOf(h.lists[c], p);
    hide Core;
    assert LinksAt(h.slabs, list, 0);
    NeighboursInList(h.slabs, list, 0);
  }

  lemma HeadPlace(h: Heap, c: int, p: Place)
    requires Core(h) && c in h.nodes
    ensures c in h.lists
    ensures HeadOf(h.nodes[c], p) != 0 ==>
              && HeadOf(h.nodes[c], p) in h.slabs && HeadOf(h.nodes[c], p) in h.views
              && h.views[HeadOf(h.nodes[c], p)].place == p
    ensures HeadOf(h.nodes[c], p) == 0 <==> ListOf(h.lists[c], p) == []
  {
    ListLinks(h, c, p);
    var list := ListOf(h.lists[c], p);
    hide Core;
    if list != [] {
      assert LinksAt(h.slabs, list, 0);
    }
  }

  // ---- cache_alloc ----

  /** cache_alloc, once it has chosen a slab of its partial list: a slab that runs out moves to the full list. */
  function Take(h: Heap, s: int): Heap
    requires s in h.slabs && s in h.views && h.views[s].chain != [] && h.slabs[s].freeObj in h.links
    requires h.slabs[s].cache in h.nodes && h.slabs[s].cache in h.lists
  {
    var u := PopFree(h, s);
    if u.slabs[s].freeCount == 0 then Move(u, s, Full) else u
  }

  /** From h to u block a of slab s was handed out, and nothing else changed hands. */
  ghost predicate Took(h: Heap, u: Heap, s: int, a: int) {
    && Grows(h, u) && a !in h.owner && a in u.owner && u.owner[a] == s && a !in u.internal
    && forall x :: InUse(u, x) <==> InUse(h, x) || x == a
  }

  lemma InternalIsOwned(h: Heap)
    requires Core(h)
    ensures forall x :: x in h.internal ==> x in h.owner
  {
  }

  lemma PopGrows(h: Heap, s: int)
    requires Core(h) && s in h.slabs && s in h.views && h.views[s].chain != [] && h.slabs[s].freeObj in h.links
    requires h.slabs[s].freeObj !in h.owner
    ensures Grows(h, PopFree(h, s))
  {
    hide Core;
    forall c | c in h.nodes ensures KeepsCache(h.nodes, PopFree(h, s).nodes, c) {
    }
  }

  lemma PopTook(h: Heap, s: int)
    requires Core(h) && s in h.slabs && s in h.views && h.views[s].chain != [] && h.slabs[s].freeObj in h.links
    ensures Took(h, PopFree(h, s), s, h.slabs[s].freeObj)
  {
    hide Core, Grows;
    ChainHead(h, s);
    InternalIsOwned(h);
    PopGrows(h, s);
  }

  lemma PopOthers(h: Heap, s: int)
    requires Core(h) && s in h.slabs && s in h.views && h.views[s].chain != [] && h.slabs[s].freeObj in h.links
    requires OthersMatch(h, s)
    ensures Core(PopFree(h, s)) && OthersMatch(PopFree(h, s), s)
  {
    PopCore(h, s);
    var u := PopFree(h, s);
    hide Core;
    forall t | t in u.slabs && t != s ensures Matches(u, t) {
      assert Matches(h, t);
    }
  }

  lemma TookLinks(h: Heap, u: Heap, w: Heap, s: int, a: int)
    requires Took(h, u, s, a) && OnlyLinks(u, w)
    ensures Took(h, w, s, a)
  {
    LinksGrow(u, w);
    GrowsTwice(h, u, w);
    hide Grows;
  }

  lemma TakeLast(h: Heap, u: Heap, s: int, a: int)
    requires Core(u) && OthersMatch(u, s) && s in u.slabs && s in u.views && u.views[s].place == Partial
    requires u.slabs[s].freeCount == 0 && |u.views[s].grid| >= 2 && Took(h, u, s, a)
    requires u.slabs[s].cache in u.nodes && u.slabs[s].cache in u.lists
    ensures Inv(Move(u, s, Full)) && Took(h, Move(u, s, Full), s, a)
  {
    MoveCore(u, s, Full);
    hide Core, Took, Move, Inv;
    TookLinks(h, u, Move(u, s, Full), s, a);
    assert Matches(Move(u, s, Full), s);
    BackToInv(Move(u, s, Full), s);
  }

  /** Taking an object keeps the heap well-formed and hands out one block, new and of the cache's size. */
  lemma TakeInv(h: Heap, s: int)
    requires Core(h) && OthersMatch(h, s) && s in h.slabs && s in h.views
    requires h.views[s].place == Partial && h.views[s].chain != []
    ensures h.slabs[s].freeObj in h.links && h.slabs[s].cache in h.nodes && h.slabs[s].cache in h.lists
    ensures h.slabs[s].freeObj != 0
    ensures Inv(Take(h, s)) && Took(h, Take(h, s), s, h.slabs[s].freeObj)
  {
    hide Core, PopFree, Took, OthersMatch, Inv, Move, OnlyLinks, InList;
    ChainHead(h, s);
    BlockIsSized(h, s);
    OnList(h, s);
    PopFacts(h, s);
    PopOthers(h, s);
    PopTook(h, s);
    var u := PopFree(h, s);
    if u.slabs[s].freeCount == 0 {
      TakeLast(h, u, s, h.slabs[s].freeObj);
    } else {
      BackToInv(u, s);
    }
  }

  lemma OnList(h: Heap, s: int)
    requires Core(h) && s in h.slabs
    ensures s in h.views && h.slabs[s].cache in h.nodes && h.slabs[s].cache in h.lists
    ensures s in ListOf(h.lists[h.slabs[s].cache], h.views[s].place)
  {
    assert InList(h, s) && SlabOk(h, s);
  }

  lemma PopFacts(h: Heap, s: int)
    requires s in h.slabs && s in h.views && h.views[s].chain != [] && h.slabs[s].freeObj in h.links
    ensures var u := PopFree(h, s);
            && s in u.slabs && s in u.views && u.nodes == h.nodes && u.lists == h.lists
            && u.slabs[s].freeCount == h.slabs[s].freeCount - 1 && u.slabs[s].cache == h.slabs[s].cache
            && u.views[s].place == h.views[s].place && u.views[s].grid == h.views[s].grid
  {
  }

  lemma BackToInv(h: Heap, s: int)
    requires Core(h) && OthersMatch(h, s) && s in h.slabs && s in h.views && Matches(h, s)
    ensures Inv(h)
  {
  }

  // ---- kfree ----

  /** kfree of a block of slab s, with the move from the full to the partial list. */
  function Give(h: Heap, s: int, a: int): Heap
    requires s in h.slabs && s in h.views && h.slabs[s].cache in h.nodes && h.slabs[s].cache in h.lists
  {
    var u := PushFree(h, s, a);
    if h.slabs[s].freeCount == 0 then Move(u, s, Partial)
    else if u.slabs[s].freeCount == |h.views[s].grid| then Move(u, s, Free)
    else u
  }

  lemma PushShrinks(h: Heap, s: int, a: int)
    requires Inv(h) && s in h.slabs && s in h.views && InUse(h, a) && h.owner[a] == s
    ensures var u := PushFree(h, s, a);
            && Core(u) && OthersMatch(u, s) && u.owner == h.owner - {a} && u.internal == h.internal
  {
    PushCore(h, s, a);
    var u := PushFree(h, s, a);
    assert h.slabs.Keys == h.views.Keys;
    hide Core;
    forall t | t in u.slabs && t != s ensures Matches(u, t) {
      assert Matches(h, t);
    }
  }

  /** Slabs stay and keep their cache, caches keep their size. */
  ghost predicate SameSizes(h: Heap, u: Heap) {
    && (forall s :: s in h.slabs ==> s in u.slabs && u.slabs[s].cache == h.slabs[s].cache)
    && (forall c :: c in h.nodes ==> KeepsCache(h.nodes, u.nodes, c))
  }

  lemma PushSizes(h: Heap, s: int, a: int)
    requires s in h.slabs && s in h.views
    ensures SameSizes(h, PushFree(h, s, a))
  {
    forall c | c in h.nodes ensures KeepsCache(h.nodes, PushFree(h, s, a).nodes, c) {
    }
  }

  lemma LinksSizes(h: Heap, m: Heap, u: Heap)
    requires SameSizes(h, m) && OnlyLinks(m, u)
    ensures SameSizes(h, u) && u.owner == m.owner && u.internal == m.internal
  {
    forall c | c in h.nodes ensures KeepsCache(h.nodes, u.nodes, c) {
      assert KeepsCache(h.nodes, m.nodes, c);
    }
  }

  /** Giving a block back keeps the heap well-formed and ends the use of that block only. */
  lemma GiveInv(h: Heap, s: int, a: int)
    requires Inv(h) && InUse(h, a) && h.owner[a] == s
    ensures s in h.slabs && s in h.views && h.slabs[s].cache in h.nodes && h.slabs[s].cache in h.lists
    ensures Inv(Give(h, s, a)) && Give(h, s, a).owner == h.owner - {a} && Give(h, s, a).internal == h.internal
    ensures SameSizes(h, Give(h, s, a))
  {
    ObjectPlace(h, a);
    BlockIsSized(h, s);
    assert InList(h, s) && Matches(h, s);
    PushShrinks(h, s, a);
    PushFits(h, s, a);
    var u := PushFree(h, s, a);
    assert u.slabs[s].freeCount == |h.views[s].chain| + 1 && u.views[s].place == h.views[s].place;
    assert u.views[s].grid == h.views[s].grid;
    PushSizes(h, s, a);
    hide Core, PushFree, InUse, SameSizes;
    if h.slabs[s].freeCount == 0 {
      MoveCore(u, s, Partial);
      LinksSizes(h, u, Move(u, s, Partial));
      assert Matches(Move(u, s, Partial), s);
      BackToInv(Move(u, s, Partial), s);
    } else if u.slabs[s].freeCount == |h.views[s].grid| {
      MoveCore(u, s, Free);
      LinksSizes(h, u, Move(u, s, Free));
      assert Matches(Move(u, s, Free), s);
      BackToInv(Move(u, s, Free), s);
    } else {
      assert Matches(u, s);
      BackToInv(u, s);
    }
  }

  lemma PushFits(h: Heap, s: int, a: int)
    requires Inv(h) && s in h.slabs && s in h.views && InUse(h, a) && h.owner[a] == s
    ensures |h.views[s].chain| < |h.views[s].grid|
  {
    PushShrinks(h, s, a);
    var u := PushFree(h, s, a);
    BlockIsSized(u, s);
  }

  // ---- growing the heap ----

  lemma RaiseInv(h: Heap, end: int)
    requires Inv(h) && h.heapEnd <= end <= KHEAP_MAX && end % 4096 == 0
    ensures var u := h.(heapEnd := end); Inv(u) && Grows(h, u) && SameUse(h, u)
  {
    RaiseCore(h, end);
    var u := h.(heapEnd := end);
    hide Core, Body;
    forall t | t in u.slabs ensures Matches(u, t) {
      assert Matches(h, t);
    }
    forall c | c in h.nodes ensures KeepsCache(h.nodes, u.nodes, c) {
    }
  }

  function Mark(h: Heap, a: int): Heap {
    h.(internal := h.internal + {a})
  }

  /** A block taken to hold a header is no longer in use by a caller. */
  lemma MarkInv(h: Heap, u: Heap, s: int, a: int)
    requires Inv(u) && Took(h, u, s, a) && SizeOf(u, s) == 32
    ensures Inv(Mark(u, a)) && Grows(h, Mark(u, a)) && SameUse(h, Mark(u, a))
    ensures a !in u.slabs && a !in u.nodes && a != 0
  {
    BlockIsFresh(u, a);
    MarkCore(u, a);
    hide Core;
    forall t | t in u.slabs ensures Matches(Mark(u, a), t) {
      assert Matches(u, t);
    }
    hide Inv;
    MarkGrows(h, u, s, a);
  }

  lemma MarkGrows(h: Heap, u: Heap, s: int, a: int)
    requires Took(h, u, s, a) && SizeOf(u, s) == 32
    ensures Grows(h, Mark(u, a)) && SameUse(h, Mark(u, a))
  {
  }

  lemma AddSlabGrows(h: Heap, c: int, s: int, base: int, links: map<int, int>, info: map<int, int>)
    requires c in h.nodes && c in h.lists && IsObjSize(h.nodes[c].objSize) && s !in h.slabs
    ensures var u := AddSlab(h, c, s, base, links, info); Grows(h, u) && SameUse(h, u)
  {
    hide SlabGrid, SlabSize, IsObjSize;
    var u := AddSlab(h, c, s, base, links, info);
    forall d | d in h.nodes ensures KeepsCache(h.nodes, u.nodes, d) {
    }
  }

  lemma InsertedGrows(h: Heap, u: Heap, x: int, o: int, kind: int)
    requires Inserted(h, u, x, o, kind)
    ensures Grows(h, u) && SameUse(h, u)
  {
    hide SlabSize;
    forall d | d in h.nodes ensures KeepsCache(h.nodes, u.nodes, d) {
    }
  }

  // ---- what the calls promise ----

  /** Apart from caches of 32-byte objects, no cache and no list of caches has changed. */
  ghost predicate Only32(h: Heap, u: Heap) {
    && u.order == h.order && u.caches == h.caches
    && (forall d :: d in h.nodes <==> d in u.nodes)
    && forall d :: d in h.nodes && d in h.lists && h.nodes[d].objSize != 32 ==>
                     d in u.lists && d in u.nodes && u.nodes[d] == h.nodes[d] && u.lists[d] == h.lists[d]
  }

  /** A call that leaves what callers hold as it is. */
  ghost predicate Kept(h: Heap, u: Heap) {
    Inv(u) && Grows(h, u) && SameUse(h, u) && InfoKept(h.info, u.info, h.heapEnd / 4096)
  }

  function KindOf(h: Heap, s: int): int {
    if s in h.slabs && h.slabs[s].cache in h.nodes then h.nodes[h.slabs[s].cache].kind else 0
  }

  /** A call that hands out a new block of size o and type kind, or nothing. */
  ghost predicate Outcome(h: Heap, u: Heap, a: int, o: int, kind: int) {
    if a == 0 then Kept(h, u)
    else
      && Inv(u) && InfoKept(h.info, u.info, h.heapEnd / 4096)
      && a in u.owner && Took(h, u, u.owner[a], a) && SizeOf(u, u.owner[a]) == o && KindOf(u, u.owner[a]) == kind
  }

  lemma OutcomeMeans(h: Heap, u: Heap, a: int, o: int, kind: int)
    requires Outcome(h, u, a, o, kind)
    ensures Inv(u)
    ensures a != 0 ==> InUse(u, a) && SizeOf(u, u.owner[a]) == o
  {
    assert a != 0 ==> InUse(u, a);
  }

  lemma Only32Twice(h: Heap, v: Heap, u: Heap)
    requires Only32(h, v) && Only32(v, u)
    ensures Only32(h, u)
  {
  }

  lemma MoveOnly32(h: Heap, s: int, p: Place)
    requires Core(h) && s in h.slabs && s in h.views && p != h.views[s].place
    requires h.slabs[s].cache in h.nodes && h.slabs[s].cache in h.lists && h.nodes[h.slabs[s].cache].objSize == 32
    ensures Only32(h, Move(h, s, p))
  {
    hide Core, UnhookSlabs, Unhook, Hook, Only32;
    MoveKeeps(h, s, p);
    UnhookOnly32(h, s);
    HookOnly32(Unhook(h, s), s, p);
    Only32Twice(h, Unhook(h, s), Move(h, s, p));
  }

  lemma UnhookOnly32(h: Heap, s: int)
    requires s in h.slabs && s in h.views && h.slabs[s].cache in h.nodes && h.slabs[s].cache in h.lists
    requires h.nodes[h.slabs[s].cache].objSize == 32
    ensures var u := Unhook(h, s);
            && Only32(h, u) && h.slabs[s].cache in u.nodes && u.nodes[h.slabs[s].cache].objSize == 32
            && s in u.slabs && u.slabs[s].cache == h.slabs[s].cache
  {
    hide Without;
  }

  lemma HookOnly32(h: Heap, s: int, p: Place)
    requires s in h.slabs && s in h.views && h.slabs[s].cache in h.nodes && h.slabs[s].cache in h.lists
    requires h.nodes[h.slabs[s].cache].objSize == 32
    ensures Only32(h, Hook(h, s, p))
  {
    hide HookSlabs;
  }

  // ---- cache_alloc as a whole ----

  /** From g to v the slab that cache_alloc takes from has become the head of the partial list of c. */
  ghost predicate Ready(g: Heap, v: Heap, c: int, s: int) {
    && OnlyLinks(g, v) && Core(v) && OthersMatch(v, s)
    && s != 0 && s in v.slabs && s in v.views && v.views[s].place == Partial && v.views[s].chain != []
    && v.slabs[s].cache == c && c in v.nodes && c in v.lists && v.nodes[c].partial == s
  }

  /** What cache_alloc makes of the state, given the slab, keeps its promise. */
  lemma TakeOutcome(g: Heap, v: Heap, c: int, s: int)
    requires Inv(g) && Ready(g, v, c, s) && c in g.nodes
    ensures v.slabs[s].freeObj in v.links
    ensures v.slabs[s].freeObj != 0
    ensures Outcome(g, Take(v, s), v.slabs[s].freeObj, g.nodes[c].objSize, g.nodes[c].kind)
  {
    TakeInv(v, s);
    LinksGrow(g, v);
    var u, a := Take(v, s), v.slabs[s].freeObj;
    TookAfter(g, v, u, s, a);
    TakeInfo(v, s);
    assert KeepsCache(g.nodes, v.nodes, c);
    hide Inv, Core, Take, SameUse, InUse, OthersMatch;
    assert KeepsCache(v.nodes, u.nodes, c);
  }

  lemma TakeInfo(v: Heap, s: int)
    requires Core(v) && s in v.slabs && s in v.views && v.views[s].chain != [] && v.slabs[s].freeObj in v.links
    requires v.slabs[s].cache in v.nodes && v.slabs[s].cache in v.lists
    ensures Take(v, s).info == v.info
  {
    hide Core, UnhookSlabs, HookSlabs, Without;
  }

  /** The slab is the first of the partial list already. */
  lemma ReadyPartial(g: Heap, c: int)
    requires Inv(g) && c in g.nodes && g.nodes[c].partial != 0
    ensures Ready(g, g, c, g.nodes[c].partial)
  {
    HeadSlab(g, c, Partial);
    var s := g.nodes[c].partial;
    assert Matches(g, s);
    ChainHead(g, s);
    assert g.slabs.Keys == g.views.Keys;
  }

  /** The slab is the first free one and has moved. */
  lemma ReadyFree(g: Heap, c: int)
    requires Inv(g) && c in g.nodes && g.nodes[c].partial == 0 && g.nodes[c].free != 0
    ensures var s := g.nodes[c].free;
            && s in g.slabs && s in g.views && g.slabs[s].cache == c && c in g.lists
            && Ready(g, Move(g, s, Partial), c, s)
  {
    HeadSlab(g, c, Free);
    var s := g.nodes[c].free;
    assert Matches(g, s);
    BlockIsSized(g, s);
    assert g.slabs.Keys == g.views.Keys;
    hide Body;
    MoveCore(g, s, Partial);
    MoveWrites(g, s, Partial);
    hide Core, Move;
  }

  lemma KeptTwice(h: Heap, v: Heap, u: Heap)
    requires Kept(h, v) && Kept(v, u)
    ensures Kept(h, u)
  {
    hide Inv, KeepsCache;
    GrowsTwice(h, v, u);
    InfoTwice(h.info, v.info, u.info, h.heapEnd / 4096, v.heapEnd / 4096);
  }

  lemma InfoTwice(a: map<int, int>, b: map<int, int>, c: map<int, int>, n: int, m: int)
    requires InfoKept(a, b, n) && InfoKept(b, c, m) && n <= m
    ensures InfoKept(a, c, n)
  {
  }

  lemma TookAfter(h: Heap, v: Heap, u: Heap, s: int, a: int)
    requires Grows(h, v) && SameUse(h, v) && Took(v, u, s, a)
    ensures Took(h, u, s, a)
  {
    hide KeepsCache, InUse;
    GrowsTwice(h, v, u);
    forall x ensures InUse(u, x) <==> InUse(h, x) || x == a {
      assert InUse(v, x) <==> InUse(h, x);
    }
  }

  lemma KeptThenOutcome(h: Heap, v: Heap, u: Heap, a: int, o: int, kind: int)
    requires Kept(h, v) && Outcome(v, u, a, o, kind)
    ensures Outcome(h, u, a, o, kind)
  {
    if a == 0 {
      KeptTwice(h, v, u);
    } else {
      TookAfter(h, v, u, u.owner[a], a);
      hide Inv, Took, SameUse, InfoKept, SizeOf, KindOf, KeepsCache;
      InfoTwice(h.info, v.info, u.info, h.heapEnd / 4096, v.heapEnd / 4096);
    }
  }
}
