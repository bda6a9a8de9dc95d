/** The steps of the slab allocator on its state, and what each of them keeps. */
module SlabSteps {
  import opened Grid
  import opened SlabState

  // ---- taking an object off a free list and putting one back ----

  /** slab_alloc. */
  function PopFree(h: Heap, s: int): Heap
    requires s in h.slabs && s in h.views && h.views[s].chain != [] && h.slabs[s].freeObj in h.links
  {
    var a := h.slabs[s].freeObj;
    h.(slabs := h.slabs[s := h.slabs[s].(freeObj := h.links[a], freeCount := h.slabs[s].freeCount - 1)],
       views := h.views[s := h.views[s].(chain := h.views[s].chain[1..])],
       owner := h.owner[a := s])
  }

  /** slab_free, once it has accepted the address. */
  function PushFree(h: Heap, s: int, a: int): Heap
    requires s in h.slabs && s in h.views
  {
    h.(links := h.links[a := h.slabs[s].freeObj],
       slabs := h.slabs[s := h.slabs[s].(freeObj := a, freeCount := h.slabs[s].freeCount + 1)],
       views := h.views[s := h.views[s].(chain := [a] + h.views[s].chain)],
       owner := h.owner - {a})
  }

  lemma ChainHead(h: Heap, s: int)
    requires Core(h) && s in h.slabs
    ensures s in h.views && (h.slabs[s].freeCount > 0 <==> h.views[s].chain != [])
    ensures h.views[s].chain != [] ==>
              && h.slabs[s].freeObj == h.views[s].chain[0] && h.slabs[s].freeObj in h.links
              && h.slabs[s].freeObj in h.views[s].grid && h.slabs[s].freeObj != 0
              && h.slabs[s].freeObj !in h.owner
  {
    assert SlabOk(h, s);
    var v := h.views[s];
    if v.chain != [] {
      assert LinkOk(h.links, v.chain, 0);
      assert v.chain[0] in v.chain;
      if v.chain[0] in h.owner {
        assert OwnerOk(h, v.chain[0]);
        OneSlab(h, s, h.owner[v.chain[0]], v.chain[0]);
      }
    }
  }

  lemma PopChain(h: Heap, s: int)
    requires Core(h) && s in h.slabs && s in h.views && h.views[s].chain != [] && h.slabs[s].freeObj in h.links
    ensures ChainOk(PopFree(h, s), s) && Partitioned(PopFree(h, s), s)
  {
    var u, chain := PopFree(h, s), h.views[s].chain;
    var rest := chain[1..];
    assert SlabOk(h, s) && LinkOk(h.links, chain, 0);
    assert chain == [chain[0]] + rest;
    forall i | 0 <= i < |rest| ensures LinkOk(u.links, rest, i) && rest[i] != chain[0] {
      assert LinkOk(h.links, chain, i + 1);
    }
    forall a | a in rest ensures a in u.views[s].grid {
      assert a in chain;
    }
    forall a | a in h.views[s].grid
      ensures a in rest <==> !(a in u.owner && u.owner[a] == s)
    {
      assert a in chain <==> a == chain[0] || a in rest;
    }
  }

  lemma PopSlabs(h: Heap, s: int)
    requires Core(h) && s in h.slabs && s in h.views && h.views[s].chain != [] && h.slabs[s].freeObj in h.links
    ensures forall t :: t in PopFree(h, s).slabs ==> SlabOk(PopFree(h, s), t)
  {
    var u, a := PopFree(h, s), h.slabs[s].freeObj;
    ChainHead(h, s);
    PopChain(h, s);
    forall t | t in u.slabs ensures SlabOk(u, t) {
      assert SlabOk(h, t);
      if t != s {
        forall x | x in h.views[t].grid ensures x != a {
          if x == a {
            OneSlab(h, s, t, a);
          }
        }
      }
    }
  }

  lemma PopCore(h: Heap, s: int)
    requires Core(h) && s in h.slabs && s in h.views && h.views[s].chain != [] && h.slabs[s].freeObj in h.links
    ensures Core(PopFree(h, s))
  {
    hide OrderIs, CacheOk, SlabOk;
    var u, a := PopFree(h, s), h.slabs[s].freeObj;
    ChainHead(h, s);
    PopSlabs(h, s);
    SameLists(h, u);
    KeepsInList(h, u);
    forall x | x in u.owner ensures OwnerOk(u, x) {
      assert x != a ==> OwnerOk(h, x);
    }
  }

  /** Steps that touch neither caches nor list links keep the lists. */
  lemma SameLists(h: Heap, u: Heap)
    requires Core(h) && u.nodes == h.nodes && u.lists == h.lists && u.order == h.order && u.caches == h.caches
    requires h.internal <= u.internal && u.slabs.Keys == h.slabs.Keys && u.views.Keys == h.views.Keys
    requires h.views.Keys == h.slabs.Keys
    requires forall s :: s in h.slabs ==>
               && u.slabs[s].next == h.slabs[s].next && u.slabs[s].prev == h.slabs[s].prev
               && u.slabs[s].cache == h.slabs[s].cache && u.views[s].place == h.views[s].place
    ensures forall c :: c in u.nodes ==> CacheOk(u, c)
  {
    hide OrderIs, SlabOk, OwnerOk, ListOk, IsObjSize, SlabSize;
    forall c | c in u.nodes ensures CacheOk(u, c) {
      assert CacheOk(h, c);
      ListKept(h, u, c, Full);
      ListKept(h, u, c, Partial);
      ListKept(h, u, c, Free);
    }
  }

  lemma KeepsInList(h: Heap, u: Heap)
    requires Core(h) && u.lists == h.lists && u.slabs.Keys == h.slabs.Keys && u.views.Keys == h.views.Keys
    requires h.views.Keys == h.slabs.Keys
    requires forall s :: s in h.slabs ==>
               u.slabs[s].cache == h.slabs[s].cache && u.views[s].place == h.views[s].place
    ensures forall s :: s in u.slabs ==> InList(u, s)
  {
    hide Body;
    forall s | s in u.slabs ensures InList(u, s) {
      assert InList(h, s);
    }
  }

  /** A list is kept if the header of the cache and the links of the list's slabs are. */
  lemma ListKept(h: Heap, u: Heap, c: int, p: Place)
    requires c in h.nodes && c in h.lists && ListOk(h, c, p) && c in u.nodes && c in u.lists
    requires ListOf(u.lists[c], p) == ListOf(h.lists[c], p) && HeadOf(u.nodes[c], p) == HeadOf(h.nodes[c], p)
    requires forall s :: s in h.slabs && s in h.views && h.slabs[s].cache == c && h.views[s].place == p ==>
               && s in u.slabs && s in u.views
               && u.slabs[s].next == h.slabs[s].next && u.slabs[s].prev == h.slabs[s].prev
               && u.slabs[s].cache == c && u.views[s].place == p
    ensures ListOk(u, c, p)
  {
    var list := ListOf(h.lists[c], p);
    forall i | 0 <= i < |list| ensures SlabAt(u, c, p, list, i) {
      assert SlabAt(h, c, p, list, i);
    }
  }

  lemma PushChain(h: Heap, s: int, a: int)
    requires Core(h) && s in h.slabs && s in h.views && a in h.owner && h.owner[a] == s
    ensures ChainOk(PushFree(h, s, a), s) && Partitioned(PushFree(h, s, a), s)
  {
    var u, chain := PushFree(h, s, a), h.views[s].chain;
    var longer := [a] + chain;
    assert SlabOk(h, s) && OwnerOk(h, a);
    assert a !in chain;
    IndexFindsSlab(h, s, a);
    forall i | 0 <= i < |longer| ensures LinkOk(u.links, longer, i) {
      if i > 0 {
        assert LinkOk(h.links, chain, i - 1);
        assert chain[i - 1] != a;
      }
    }
    forall x | x in longer ensures x in u.views[s].grid {
      assert x == a || x in chain;
    }
    forall x | x in h.views[s].grid ensures x in longer <==> !(x in u.owner && u.owner[x] == s) {
      assert x in longer <==> x == a || x in chain;
    }
  }

  lemma PushSlabs(h: Heap, s: int, a: int)
    requires Core(h) && s in h.slabs && s in h.views && a in h.owner && h.owner[a] == s && a !in h.internal
    ensures forall t :: t in h.slabs ==> t in PushFree(h, s, a).slabs && SlabOk(PushFree(h, s, a), t)
  {
    var u := PushFree(h, s, a);
    PushChain(h, s, a);
    forall t | t in h.slabs && t != s ensures t in u.slabs && SlabOk(u, t) {
      PushOther(h, s, a, t);
    }
    hide SlabOk, CacheOk, OwnerOk, OrderIs, InList;
  }

  lemma PushOther(h: Heap, s: int, a: int, t: int)
    requires Core(h) && s in h.slabs && s in h.views && a in h.owner && h.owner[a] == s && t in h.slabs && t != s
    ensures t in PushFree(h, s, a).slabs && SlabOk(PushFree(h, s, a), t)
  {
    hide CacheOk, OrderIs, InList, SlabGrid, SlabSize, IsObjSize;
    assert SlabOk(h, t) && OwnerOk(h, a);
    forall x | x in h.views[t].grid ensures x != a {
      if x == a {
        OneSlab(h, s, t, a);
      }
    }
    OtherChain(h, PushFree(h, s, a), t, a);
  }

  lemma PushCore(h: Heap, s: int, a: int)
    requires Core(h) && s in h.slabs && s in h.views && a in h.owner && h.owner[a] == s && a !in h.internal
    ensures Core(PushFree(h, s, a))
  {
    hide OrderIs, CacheOk, SlabOk, InList;
    var u := PushFree(h, s, a);
    PushSlabs(h, s, a);
    SameLists(h, u);
    KeepsInList(h, u);
    forall x | x in u.owner ensures OwnerOk(u, x) {
      assert OwnerOk(h, x);
    }
  }

  lemma OtherChain(h: Heap, u: Heap, t: int, a: int)
    requires t in h.slabs && t in h.views && ChainOk(h, t) && a !in h.views[t].grid
    requires forall x :: x in h.links && x != a ==> x in u.links && u.links[x] == h.links[x]
    ensures Threaded(u.links, h.views[t].chain)
  {
    var chain := h.views[t].chain;
    forall i | 0 <= i < |chain| ensures LinkOk(u.links, chain, i) {
      assert LinkOk(h.links, chain, i);
      assert chain[i] in chain;
    }
  }

  // ---- marking an object as holding a header, raising the end of the heap ----

  lemma MarkCore(h: Heap, a: int)
    requires Core(h) && a in h.owner
    ensures Core(h.(internal := h.internal + {a}))
  {
    var u := h.(internal := h.internal + {a});
    forall t | t in u.slabs ensures SlabOk(u, t) {
      assert SlabOk(h, t);
    }
    SameLists(h, u);
    KeepsInList(h, u);
    forall x | x in u.owner ensures OwnerOk(u, x) {
      assert OwnerOk(h, x);
    }
  }

  lemma RaiseCore(h: Heap, end: int)
    requires Core(h) && h.heapEnd <= end <= KHEAP_MAX && end % 4096 == 0
    ensures Core(h.(heapEnd := end))
  {
    var u := h.(heapEnd := end);
    forall t | t in u.slabs ensures SlabOk(u, t) {
      assert SlabOk(h, t);
    }
    SameLists(h, u);
    KeepsInList(h, u);
    forall x | x in u.owner ensures OwnerOk(u, x) {
      assert OwnerOk(h, x);
    }
  }
}
