/** New slabs and new caches: the effects of cache_grow and cache_create on the state. */
module SlabGrowth {
  import opened Grid
  import opened Seqs
  import opened Sets
  import opened SlabState
  import opened SlabSteps
  import SlabLists

  // ---- a new slab ----

  /** The pages of a region that no slab has claimed in the index. */
  ghost predicate Unclaimed(h: Heap, base: int, size: int) {
    && KHEAP_START <= base && base % 4096 == 0 && size % 4096 == 0 && 0 < size && base + size <= h.heapEnd
    && forall p :: base / 4096 <= p < (base + size) / 4096 ==> p !in h.info
  }

  /** The new links thread the objects of the grid and agree with the old ones outside it. */
  ghost predicate Threads(links: map<int, int>, links': map<int, int>, grid: seq<int>) {
    Threaded(links', grid) && SameOutside(links, links', grid)
  }

  ghost predicate SameOutside(links: map<int, int>, links': map<int, int>, grid: seq<int>) {
    forall a :: a in links && a !in grid ==> a in links' && links'[a] == links[a]
  }

  ghost predicate NewLinks(h: Heap, links: map<int, int>, base: int, o: int)
    requires IsObjSize(o)
  {
    Threads(h.links, links, SlabGrid(base, o))
  }

  ghost predicate NewInfo(before: map<int, int>, info: map<int, int>, base: int, size: int, s: int) {
    forall p :: if base / 4096 <= p < (base + size) / 4096 then p in info && info[p] == s
                else (p in info <==> p in before) && (p in before ==> info[p] == before[p])
  }

  /** cache_grow: header, threaded objects, index entries; the slab becomes the cache's only free one. */
  function AddSlab(h: Heap, c: int, s: int, base: int, links: map<int, int>, info: map<int, int>): Heap
    requires c in h.nodes && c in h.lists && IsObjSize(h.nodes[c].objSize)
  {
    var grid := SlabGrid(base, h.nodes[c].objSize);
    h.(slabs := h.slabs[s := Slab(0, 0, |grid|, First(grid), c)], links := links, info := info,
       nodes := h.nodes[c := h.nodes[c].(free := s)],
       views := h.views[s := View(base, grid, grid, Free)],
       lists := h.lists[c := h.lists[c].(free := [s])])
  }

  ghost predicate MayAdd(h: Heap, c: int, s: int, base: int, links: map<int, int>, info: map<int, int>) {
    && c in h.nodes && c in h.lists && IsObjSize(h.nodes[c].objSize) && s !in h.slabs && s !in h.nodes && s != 0
    && h.lists[c].free == []
    && Unclaimed(h, base, SlabSize(h.nodes[c].objSize))
    && NewLinks(h, links, base, h.nodes[c].objSize)
    && NewInfo(h.info, info, base, SlabSize(h.nodes[c].objSize), s)
    && (if SlabSize(h.nodes[c].objSize) == 4096 then s == base else s in h.internal)
  }

  /** The objects of a new slab belong to nobody and to no other slab. */
  lemma NewObjects(h: Heap, c: int, s: int, base: int, links: map<int, int>, info: map<int, int>, a: int)
    requires Core(h) && MayAdd(h, c, s, base, links, info) && a in SlabGrid(base, h.nodes[c].objSize)
    ensures a !in h.owner && forall t :: t in h.slabs && t in h.views ==> a !in h.views[t].grid
  {
    var o := h.nodes[c].objSize;
    SlabGridCount(base, o);
    assert base / 4096 <= a / 4096 < (base + SlabSize(o)) / 4096;
    forall t | t in h.slabs && t in h.views ensures a !in h.views[t].grid {
      if a in h.views[t].grid {
        IndexFindsSlab(h, t, a);
      }
    }
    forall x | x in h.owner ensures x != a {
      assert OwnerOk(h, x);
    }
  }

  lemma {:induction false} GridDistinct(base: int, o: int)
    requires IsObjSize(o)
    ensures Distinct(SlabGrid(base, o))
  {
    var g := SlabGrid(base, o);
    forall i, j | 0 <= i < j < |g| ensures g[i] != g[j] {
      GridSpacing(FirstObj(base, o), base + SlabSize(o), o, i, j);
    }
  }

  lemma NewSlabOk(h: Heap, c: int, s: int, base: int, links: map<int, int>, info: map<int, int>)
    requires Core(h) && MayAdd(h, c, s, base, links, info)
    ensures SlabOk(AddSlab(h, c, s, base, links, info), s)
  {
    hide Body, Threaded, SlabGrid, SlabSize, IsObjSize;
    var u, o := AddSlab(h, c, s, base, links, info), h.nodes[c].objSize;
    GridDistinct(base, o);
    SlabGridCount(base, o);
    forall a | a in u.views[s].grid ensures !(a in u.owner && u.owner[a] == s) {
      NewObjects(h, c, s, base, links, info, a);
    }
  }

  lemma OldChain(h: Heap, c: int, s: int, base: int, links: map<int, int>, info: map<int, int>, t: int)
    requires Core(h) && MayAdd(h, c, s, base, links, info) && t in h.slabs && t in h.views && ChainOk(h, t)
    ensures Threaded(links, h.views[t].chain)
  {
    hide SlabOk, CacheOk, OrderIs, OwnerOk, SlabGrid, SlabSize;
    var o, chain := h.nodes[c].objSize, h.views[t].chain;
    forall i | 0 <= i < |chain| ensures LinkOk(links, chain, i) {
      assert LinkOk(h.links, chain, i) && chain[i] in chain;
      if chain[i] in SlabGrid(base, o) {
        NewObjects(h, c, s, base, links, info, chain[i]);
      }
    }
  }

  lemma OldRegion(h: Heap, c: int, s: int, base: int, links: map<int, int>, info: map<int, int>, t: int)
    requires Core(h) && MayAdd(h, c, s, base, links, info) && t in h.slabs && t != s && t in h.views
    requires h.slabs[t].cache in h.nodes && RegionOk(h, t, h.nodes[h.slabs[t].cache].objSize)
    ensures RegionOk(AddSlab(h, c, s, base, links, info), t, h.nodes[h.slabs[t].cache].objSize)
  {
    hide Body, SlabGrid, IsObjSize, SlabSize, NewLinks, Unclaimed;
    var v, o := h.views[t], h.nodes[h.slabs[t].cache].objSize;
    forall p | v.base / 4096 <= p < (v.base + SlabSize(o)) / 4096 ensures p in info && info[p] == t {
      assert p in h.info;
      Claimed(h, c, s, base, links, info, p);
    }
  }

  lemma Claimed(h: Heap, c: int, s: int, base: int, links: map<int, int>, info: map<int, int>, p: int)
    requires MayAdd(h, c, s, base, links, info) && p in h.info
    ensures p in info && info[p] == h.info[p]
  {
    hide Body, SlabGrid, IsObjSize, SlabSize, NewLinks;
  }

  lemma OldSlabOk(h: Heap, c: int, s: int, base: int, links: map<int, int>, info: map<int, int>, t: int)
    requires Core(h) && MayAdd(h, c, s, base, links, info) && t in h.slabs
    ensures t != s && SlabOk(AddSlab(h, c, s, base, links, info), t)
  {
    assert SlabOk(h, t);
    OldChain(h, c, s, base, links, info, t);
    OldRegion(h, c, s, base, links, info, t);
    hide Body, SlabGrid, IsObjSize, SlabSize, NewLinks, NewInfo, Unclaimed, RegionOk, Threaded, Distinct;
  }

  /** What AddSlab does to the lists: only the free list of c changes, and only by the new slab. */
  ghost predicate Listed(h: Heap, u: Heap, c: int, s: int)
    requires c in h.nodes && c in h.lists
  {
    && u.nodes.Keys == h.nodes.Keys && u.lists.Keys == h.lists.Keys && u.internal == h.internal
    && (forall t :: t in h.slabs ==> t in u.slabs && u.slabs[t] == h.slabs[t])
    && (forall t :: t in h.views ==> t in u.views && u.views[t] == h.views[t])
    && (forall d :: d in h.nodes && d != c ==> u.nodes[d] == h.nodes[d])
    && (forall d :: d in h.lists && d != c ==> u.lists[d] == h.lists[d])
    && u.nodes[c] == h.nodes[c].(free := s) && u.lists[c] == h.lists[c].(free := [s])
    && s in u.slabs && s in u.views && u.slabs[s].next == 0 && u.slabs[s].prev == 0
    && u.slabs[s].cache == c && u.views[s].place == Free
  }

  lemma AddSlabListed(h: Heap, c: int, s: int, base: int, links: map<int, int>, info: map<int, int>)
    requires Core(h) && MayAdd(h, c, s, base, links, info)
    ensures Listed(h, AddSlab(h, c, s, base, links, info), c, s)
  {
    assert h.views.Keys == h.slabs.Keys;
    hide Body, SlabGrid, SlabSize, NewLinks, NewInfo, Unclaimed;
  }

  lemma GrownLists(h: Heap, u: Heap, c: int, s: int, d: int)
    requires Core(h) && c in h.nodes && c in h.lists && Listed(h, u, c, s) && s != 0 && d in h.nodes
    ensures CacheOk(u, d)
  {
    assert CacheOk(h, d);
    hide Body, IsObjSize, SlabSize, ListOk;
    ListKept(h, u, d, Full);
    ListKept(h, u, d, Partial);
    if d == c {
      NewList(h, u, c, s);
    } else {
      ListKept(h, u, d, Free);
    }
  }

  lemma NewList(h: Heap, u: Heap, c: int, s: int)
    requires c in h.nodes && c in h.lists && Listed(h, u, c, s) && s != 0
    ensures c in u.nodes && c in u.lists && ListOk(u, c, Free)
  {
    assert SlabAt(u, c, Free, [s], 0);
  }

  lemma AddSlabSlabs(h: Heap, c: int, s: int, base: int, links: map<int, int>, info: map<int, int>)
    requires Inv(h) && MayAdd(h, c, s, base, links, info)
    ensures var u := AddSlab(h, c, s, base, links, info); forall t :: t in u.slabs ==> SlabOk(u, t)
  {
    var u := AddSlab(h, c, s, base, links, info);
    hide SlabOk, SlabGrid, Inv, MayAdd;
    forall t | t in u.slabs ensures SlabOk(u, t) {
      if t == s {
        NewSlabOk(h, c, s, base, links, info);
      } else {
        OldSlabOk(h, c, s, base, links, info, t);
      }
    }
  }

  lemma AddSlabOwners(h: Heap, c: int, s: int, base: int, links: map<int, int>, info: map<int, int>)
    requires Inv(h) && MayAdd(h, c, s, base, links, info)
    ensures var u := AddSlab(h, c, s, base, links, info); forall a :: a in u.owner ==> OwnerOk(u, a)
    ensures var u := AddSlab(h, c, s, base, links, info); OrderIs(u.nodes, u.caches, u.order)
  {
    var u := AddSlab(h, c, s, base, links, info);
    SlabLists.OrderKept(h.nodes, u.nodes, h.caches, h.order);
    hide SlabOk, CacheOk, SlabGrid, SlabSize, OrderIs, Matches, InList, NewLinks, NewInfo, Unclaimed;
    forall a | a in u.owner ensures OwnerOk(u, a) {
      assert OwnerOk(h, a);
    }
  }

  lemma AddSlabBody(h: Heap, c: int, s: int, base: int, links: map<int, int>, info: map<int, int>)
    requires Inv(h) && MayAdd(h, c, s, base, links, info)
    ensures Body(AddSlab(h, c, s, base, links, info))
  {
    hide SlabOk, CacheOk, SlabGrid, SlabSize, NewLinks, Matches, InList, Listed, OrderIs, OwnerOk, IsObjSize;
    var u := AddSlab(h, c, s, base, links, info);
    AddSlabListed(h, c, s, base, links, info);
    AddSlabSlabs(h, c, s, base, links, info);
    AddSlabOwners(h, c, s, base, links, info);
    forall d | d in u.nodes ensures CacheOk(u, d) {
      GrownLists(h, u, c, s, d);
    }
  }

  /** The state stays well-formed, and every slab is on the list its free count asks for. */
  lemma AddSlabInv(h: Heap, c: int, s: int, base: int, links: map<int, int>, info: map<int, int>)
    requires Inv(h) && MayAdd(h, c, s, base, links, info)
    ensures Inv(AddSlab(h, c, s, base, links, info))
  {
    AddSlabBody(h, c, s, base, links, info);
    AddSlabLists(h, c, s, base, links, info);
    hide Body, InList, Matches, AddSlab, MayAdd;
  }

  lemma AddSlabLists(h: Heap, c: int, s: int, base: int, links: map<int, int>, info: map<int, int>)
    requires Inv(h) && MayAdd(h, c, s, base, links, info)
    ensures var u := AddSlab(h, c, s, base, links, info);
            u.views.Keys == u.slabs.Keys && forall t :: t in u.slabs ==> InList(u, t) && Matches(u, t)
  {
    var u, o := AddSlab(h, c, s, base, links, info), h.nodes[c].objSize;
    SlabGridCount(base, o);
    hide Body, SlabGrid, SlabSize, NewLinks, NewInfo, Unclaimed;
    forall t | t in u.slabs ensures InList(u, t) && Matches(u, t) {
      if t != s {
        OldSlabListed(h, c, s, base, links, info, t);
      }
    }
  }

  lemma OldSlabListed(h: Heap, c: int, s: int, base: int, links: map<int, int>, info: map<int, int>, t: int)
    requires Inv(h) && MayAdd(h, c, s, base, links, info) && t in h.slabs
    ensures var u := AddSlab(h, c, s, base, links, info); t in u.slabs && InList(u, t) && t in u.views && Matches(u, t)
  {
    assert InList(h, t) && Matches(h, t);
  }

  // ---- a new cache ----

  /** The pointer writes of cache_create: the new header goes in front of position k, or behind the last. */
  function LinkCache(nodes: map<int, Cache>, x: int, n: int, b: int, o: int, kind: int): map<int, Cache> {
    var nodes1 := nodes[x := Cache(n, b, o, SlabSize(o), 0, 0, 0, kind)];
    var nodes2 := if b != 0 && b in nodes1 then nodes1[b := nodes1[b].(next := x)] else nodes1;
    if n != 0 && n in nodes2 then nodes2[n := nodes2[n].(prev := x)] else nodes2
  }

  function Before(s: seq<int>, k: nat): int
    requires k <= |s|
  {
    if k > 0 then s[k - 1] else 0
  }

  function At(s: seq<int>, k: nat): int {
    if k < |s| then s[k] else 0
  }

  /** cache_create: the header of a cache without slabs, at position k of the list. */
  function AddCache(h: Heap, x: int, o: int, kind: int, k: nat): Heap
    requires k <= |h.order|
  {
    h.(nodes := LinkCache(h.nodes, x, At(h.order, k), Before(h.order, k), o, kind),
       caches := First(InsertAt(h.order, k, x)), order := InsertAt(h.order, k, x),
       lists := h.lists[x := Lists([], [], [])])
  }

  ghost predicate MayPut(nodes: map<int, Cache>, order: seq<int>, x: int, o: int, kind: int, k: nat) {
    && k <= |order| && x != 0 && x !in nodes && IsObjSize(o) && !HasCache(nodes, o, kind)
    && (forall i :: 0 <= i < k ==> order[i] in nodes && nodes[order[i]].objSize < o)
    && (k < |order| ==> order[k] in nodes && o <= nodes[order[k]].objSize)
  }

  /** Apart from the two neighbours' links every old header is unchanged. */
  ghost predicate OnlyOrder(a: map<int, Cache>, b: map<int, Cache>) {
    forall c :: c in a ==> c in b && b[c] == a[c].(next := b[c].next, prev := b[c].prev)
  }

  lemma LinkOnlyOrder(nodes: map<int, Cache>, x: int, n: int, b: int, o: int, kind: int)
    requires x !in nodes && x != n && x != b
    ensures OnlyOrder(nodes, LinkCache(nodes, x, n, b, o, kind))
    ensures x in LinkCache(nodes, x, n, b, o, kind)
    ensures LinkCache(nodes, x, n, b, o, kind)[x] == Cache(n, b, o, SlabSize(o), 0, 0, 0, kind)
    ensures forall c :: c in LinkCache(nodes, x, n, b, o, kind) <==> c in nodes || c == x
  {
    hide SlabSize;
  }

  lemma LinkValue(nodes: map<int, Cache>, x: int, n: int, b: int, o: int, kind: int, d: int)
    requires x !in nodes && x != n && x != b && d in nodes && d != 0
    ensures var u := LinkCache(nodes, x, n, b, o, kind);
            d in u && u[d] == nodes[d].(next := if d == b then x else nodes[d].next,
                                        prev := if d == n then x else nodes[d].prev)
  {
    hide SlabSize;
  }

  lemma InOrder(nodes: map<int, Cache>, caches: int, order: seq<int>, i: nat)
    requires OrderIs(nodes, caches, order) && 0 !in nodes && i < |order|
    ensures order[i] in nodes && order[i] != 0 && CacheAt(nodes, order, i)
    ensures forall j :: 0 <= j < |order| && j != i ==> order[j] != order[i]
  {
    hide HasCache, SameKind;
  }

  lemma PutAt(nodes: map<int, Cache>, caches: int, order: seq<int>, x: int, o: int, kind: int, k: nat, i: nat)
    requires OrderIs(nodes, caches, order) && MayPut(nodes, order, x, o, kind, k) && 0 !in nodes
    requires i <= |order|
    ensures CacheAt(LinkCache(nodes, x, At(order, k), Before(order, k), o, kind), InsertAt(order, k, x), i)
  {
    hide LinkCache, OrderIs, IsObjSize, HasCache, SlabSize;
    var n, b, longer := At(order, k), Before(order, k), InsertAt(order, k, x);
    if k < |order| {
      InOrder(nodes, caches, order, k);
    }
    if k > 0 {
      InOrder(nodes, caches, order, k - 1);
    }
    LinkOnlyOrder(nodes, x, n, b, o, kind);
    if i < k {
      InOrder(nodes, caches, order, i);
      LinkValue(nodes, x, n, b, o, kind, order[i]);
    } else if i > k {
      InOrder(nodes, caches, order, i - 1);
      LinkValue(nodes, x, n, b, o, kind, order[i - 1]);
    }
  }

  /** The list of caches stays linked both ways, sorted by size, with one cache per size and type. */
  lemma PutOrder(nodes: map<int, Cache>, caches: int, order: seq<int>, x: int, o: int, kind: int, k: nat)
    requires OrderIs(nodes, caches, order) && MayPut(nodes, order, x, o, kind, k) && 0 !in nodes
    ensures OrderIs(LinkCache(nodes, x, At(order, k), Before(order, k), o, kind), First(InsertAt(order, k, x)),
        InsertAt(order, k, x))
  {
    var u, longer := LinkCache(nodes, x, At(order, k), Before(order, k), o, kind), InsertAt(order, k, x);
    Neighbours(nodes, caches, order, x, o, kind, k);
    LinkOnlyOrder(nodes, x, At(order, k), Before(order, k), o, kind);
    hide LinkCache, SlabSize, IsObjSize, MayPut, InsertAt, At, Before;
    forall i | 0 <= i < |longer| ensures CacheAt(u, longer, i) {
      PutAt(nodes, caches, order, x, o, kind, k, i);
    }
    forall c ensures c in longer <==> c in order || c == x {
      PutIn(order, k, x, c);
    }
    PutPairs(nodes, caches, order, x, o, kind, k);
    PutKeeps32(nodes, u);
  }

  lemma PutPairs(nodes: map<int, Cache>, caches: int, order: seq<int>, x: int, o: int, kind: int, k: nat)
    requires OrderIs(nodes, caches, order) && MayPut(nodes, order, x, o, kind, k) && 0 !in nodes
    ensures var u, longer := LinkCache(nodes, x, At(order, k), Before(order, k), o, kind), InsertAt(order, k, x);
            Distinct(longer) && forall i, j :: 0 <= i < j < |longer| && longer[i] in u && longer[j] in u ==>
              u[longer[i]].objSize <= u[longer[j]].objSize && !SameKind(u, longer[i], longer[j])
  {
    var u, longer := LinkCache(nodes, x, At(order, k), Before(order, k), o, kind), InsertAt(order, k, x);
    Neighbours(nodes, caches, order, x, o, kind, k);
    hide LinkCache, InsertAt, At, Before, OrderIs, MayPut, SameKind;
    forall i, j | 0 <= i < j < |longer|
      ensures longer[i] != longer[j] && longer[i] in u && longer[j] in u
      ensures u[longer[i]].objSize <= u[longer[j]].objSize && !SameKind(u, longer[i], longer[j])
    {
      PutSorted(nodes, caches, order, x, o, kind, k, i, j);
    }
  }

  lemma PutKeeps32(nodes: map<int, Cache>, u: map<int, Cache>)
    requires HasCache(nodes, 32, 0) && OnlyOrder(nodes, u)
    ensures HasCache(u, 32, 0)
  {
    var c :| c in nodes && nodes[c].objSize == 32 && nodes[c].kind == 0;
    assert u[c].objSize == 32 && u[c].kind == 0;
  }

  lemma Neighbours(nodes: map<int, Cache>, caches: int, order: seq<int>, x: int, o: int, kind: int, k: nat)
    requires OrderIs(nodes, caches, order) && MayPut(nodes, order, x, o, kind, k) && 0 !in nodes
    ensures x != At(order, k) && x != Before(order, k) && |InsertAt(order, k, x)| == |order| + 1
  {
    if k < |order| {
      InOrder(nodes, caches, order, k);
    }
    if k > 0 {
      InOrder(nodes, caches, order, k - 1);
    }
  }

  lemma PutIn(order: seq<int>, k: nat, x: int, c: int)
    requires k <= |order|
    ensures c in InsertAt(order, k, x) <==> c in order || c == x
  {
    assert order == order[..k] + order[k..];
  }

  lemma PutSorted(nodes: map<int, Cache>, caches: int, order: seq<int>, x: int, o: int, kind: int, k: nat, i: nat,
      j: nat)
    requires OrderIs(nodes, caches, order) && MayPut(nodes, order, x, o, kind, k) && 0 !in nodes && i < j <= |order|
    ensures var u, longer := LinkCache(nodes, x, At(order, k), Before(order, k), o, kind), InsertAt(order, k, x);
            && longer[i] in u && longer[j] in u
            && longer[i] != longer[j] && u[longer[i]].objSize <= u[longer[j]].objSize
            && !SameKind(u, longer[i], longer[j])
  {
    var u, longer := LinkCache(nodes, x, At(order, k), Before(order, k), o, kind), InsertAt(order, k, x);
    Neighbours(nodes, caches, order, x, o, kind, k);
    LinkOnlyOrder(nodes, x, At(order, k), Before(order, k), o, kind);
    if i < k {
      OldPlace(nodes, caches, order, o, kind, x, k, i);
    } else if i > k {
      OldPlace(nodes, caches, order, o, kind, x, k, i - 1);
    }
    if j < k {
      OldPlace(nodes, caches, order, o, kind, x, k, j);
    } else if j > k {
      OldPlace(nodes, caches, order, o, kind, x, k, j - 1);
    }
    if i != k && j != k {
      OldPair(nodes, caches, order, if i < k then i else i - 1, if j < k then j else j - 1);
    }
    hide LinkCache, SlabSize, IsObjSize, CacheAt, OrderIs, HasCache, MayPut;
  }

  /** A cache that was listed is on its side of the new one, and of another size or type. */
  lemma OldPlace(nodes: map<int, Cache>, caches: int, order: seq<int>, o: int, kind: int, x: int, k: nat, i: nat)
    requires OrderIs(nodes, caches, order) && MayPut(nodes, order, x, o, kind, k) && i < |order|
    ensures order[i] in nodes && order[i] != x && !(nodes[order[i]].objSize == o && nodes[order[i]].kind == kind)
    ensures if i < k then nodes[order[i]].objSize < o else o <= nodes[order[i]].objSize
  {
    hide SameKind, CacheAt;
    assert order[i] in order;
    if i > k {
      OldPair(nodes, caches, order, k, i);
    }
  }

  lemma OldPair(nodes: map<int, Cache>, caches: int, order: seq<int>, i: nat, j: nat)
    requires OrderIs(nodes, caches, order) && i < j < |order|
    ensures order[i] in nodes && order[j] in nodes && order[i] != order[j]
    ensures nodes[order[i]].objSize <= nodes[order[j]].objSize && !SameKind(nodes, order[i], order[j])
  {
    hide HasCache, SameKind, CacheAt;
    assert order[i] in order && order[j] in order;
  }

  /** What AddCache does to the headers, without the pointer writes that do it. */
  ghost predicate Inserted(h: Heap, u: Heap, x: int, o: int, kind: int) {
    && OnlyOrder(h.nodes, u.nodes) && (forall c :: c in u.nodes <==> c in h.nodes || c == x)
    && x in u.nodes && u.nodes[x].objSize == o && u.nodes[x].slabSize == SlabSize(o) && u.nodes[x].kind == kind
    && u.nodes[x].full == 0 && u.nodes[x].partial == 0 && u.nodes[x].free == 0
    && u.lists == h.lists[x := Lists([], [], [])]
    && u.slabs == h.slabs && u.links == h.links && u.heapEnd == h.heapEnd && u.info == h.info
    && u.views == h.views && u.owner == h.owner && u.internal == h.internal
  }

  lemma InsertedCache(h: Heap, u: Heap, x: int, o: int, kind: int, d: int)
    requires Core(h) && Inserted(h, u, x, o, kind) && d in h.nodes && d != x
    ensures d in u.nodes && CacheOk(u, d)
  {
    assert CacheOk(h, d);
    hide Body, IsObjSize, SlabSize;
    assert u.nodes[d] == h.nodes[d].(next := u.nodes[d].next, prev := u.nodes[d].prev);
    ListKept(h, u, d, Full);
    ListKept(h, u, d, Partial);
    ListKept(h, u, d, Free);
  }

  lemma InsertedSlab(h: Heap, u: Heap, x: int, o: int, kind: int, t: int)
    requires Inv(h) && Inserted(h, u, x, o, kind) && x !in h.nodes && x !in h.slabs && t in h.slabs
    ensures SlabOk(u, t) && InList(u, t) && Matches(u, t)
  {
    assert SlabOk(h, t) && InList(h, t) && Matches(h, t);
    hide Body, IsObjSize, SlabSize, SlabGrid, Threaded, Distinct;
  }

  lemma AddCacheInserted(h: Heap, x: int, o: int, kind: int, k: nat)
    requires Core(h) && MayPut(h.nodes, h.order, x, o, kind, k)
    ensures Inserted(h, AddCache(h, x, o, kind, k), x, o, kind)
    ensures var u := AddCache(h, x, o, kind, k); OrderIs(u.nodes, u.caches, u.order)
  {
    hide LinkCache, OrderIs, HasCache, InsertAt, SlabSize, IsObjSize, SlabOk, CacheOk, OwnerOk, InList;
    NoNull(h);
    Neighbours(h.nodes, h.caches, h.order, x, o, kind, k);
    LinkOnlyOrder(h.nodes, x, At(h.order, k), Before(h.order, k), o, kind);
    PutOrder(h.nodes, h.caches, h.order, x, o, kind, k);
  }

  lemma InsertedBody(h: Heap, u: Heap, x: int, o: int, kind: int)
    requires Inv(h) && Inserted(h, u, x, o, kind) && x in h.internal && x !in h.slabs && x != 0
    requires IsObjSize(o) && (kind == 0 || kind == 1) && x !in h.nodes && OrderIs(u.nodes, u.caches, u.order)
    ensures Body(u)
  {
    InsertedParts(h, u, x, o, kind);
    hide OrderIs, SlabOk, CacheOk, OwnerOk, Matches, InList, IsObjSize, SlabSize;
    SameInts(u.lists.Keys, u.nodes.Keys);
  }

  lemma InsertedParts(h: Heap, u: Heap, x: int, o: int, kind: int)
    requires Inv(h) && Inserted(h, u, x, o, kind) && x in h.internal && x !in h.slabs && x != 0
    requires IsObjSize(o) && (kind == 0 || kind == 1) && x !in h.nodes
    ensures forall t :: t in u.slabs ==> SlabOk(u, t)
    ensures forall d :: d in u.nodes ==> CacheOk(u, d)
    ensures forall a :: a in u.owner ==> OwnerOk(u, a)
  {
    hide Body, OrderIs, SlabOk, CacheOk, OwnerOk, Matches, InList, IsObjSize, SlabSize;
    forall t | t in u.slabs ensures SlabOk(u, t) {
      InsertedSlab(h, u, x, o, kind, t);
    }
    forall d | d in u.nodes ensures CacheOk(u, d) {
      if d == x {
        EmptyCacheOk(h, u, x, o, kind);
      } else {
        InsertedCache(h, u, x, o, kind, d);
      }
    }
    forall a | a in u.owner ensures OwnerOk(u, a) {
      SameOwner(h, u, a);
    }
  }

  lemma AddCacheBody(h: Heap, x: int, o: int, kind: int, k: nat)
    requires Inv(h) && MayPut(h.nodes, h.order, x, o, kind, k) && x in h.internal && x !in h.slabs
    requires kind == 0 || kind == 1
    ensures Body(AddCache(h, x, o, kind, k))
  {
    AddCacheInserted(h, x, o, kind, k);
    assert x != 0 && IsObjSize(o) && x !in h.nodes;
    hide AddCache, OrderIs, Body, IsObjSize;
    InsertedBody(h, AddCache(h, x, o, kind, k), x, o, kind);
  }

  /** A new cache keeps the heap well-formed. */
  lemma AddCacheInv(h: Heap, x: int, o: int, kind: int, k: nat)
    requires Inv(h) && MayPut(h.nodes, h.order, x, o, kind, k) && x in h.internal && x !in h.slabs
    requires kind == 0 || kind == 1
    ensures Inv(AddCache(h, x, o, kind, k))
  {
    var u := AddCache(h, x, o, kind, k);
    AddCacheInserted(h, x, o, kind, k);
    AddCacheBody(h, x, o, kind, k);
    assert x !in h.nodes;
    hide AddCache, MayPut, Body, OrderIs, Matches, InList, SlabOk, IsObjSize;
    forall t | t in u.slabs ensures InList(u, t) && Matches(u, t) {
      InsertedSlab(h, u, x, o, kind, t);
    }
  }

  lemma EmptyCacheOk(h: Heap, u: Heap, x: int, o: int, kind: int)
    requires Inserted(h, u, x, o, kind) && x != 0 && x in h.internal && IsObjSize(o) && (kind == 0 || kind == 1)
    ensures CacheOk(u, x)
  {
    assert ListOk(u, x, Full) && ListOk(u, x, Partial) && ListOk(u, x, Free);
  }

  lemma SameOwner(h: Heap, u: Heap, a: int)
    requires Core(h) && u.views == h.views && u.slabs == h.slabs && u.owner == h.owner && a in u.owner
    ensures OwnerOk(u, a)
  {
    assert OwnerOk(h, a);
  }

  lemma NoNull(h: Heap)
    requires Core(h)
    ensures 0 !in h.nodes && 0 !in h.slabs
  {
    hide Core, SlabSize;
    forall c | c in h.nodes ensures c != 0 {
      CachePlace(h, c);
    }
    forall s | s in h.slabs ensures s != 0 {
      SlabPlace(h, s);
    }
  }

  // ---- addresses for new headers ----

  lemma ObjectPlace(h: Heap, a: int)
    requires Core(h) && a in h.owner
    ensures a != 0 && a / 4096 in h.info && h.info[a / 4096] == h.owner[a] && h.owner[a] in h.slabs
    ensures h.owner[a] in h.views && (SlabSize(SizeOf(h, h.owner[a])) == 4096 ==> h.views[h.owner[a]].base < a)
  {
    assert OwnerOk(h, a);
    var t := h.owner[a];
    IndexFindsSlab(h, t, a);
    assert SlabOk(h, t);
    SlabGridCount(h.views[t].base, SizeOf(h, t));
  }

  lemma SlabPlace(h: Heap, s: int)
    requires Core(h) && s in h.slabs
    ensures s in h.views && s != 0
    ensures if SlabSize(SizeOf(h, s)) == 4096
            then s == h.views[s].base && s / 4096 in h.info && h.info[s / 4096] == s
            else s in h.internal && s in h.owner
  {
    assert SlabOk(h, s);
    PagesOf(h, s, s);
  }

  lemma CachePlace(h: Heap, c: int)
    requires Core(h) && c in h.nodes
    ensures c != 0 && c in h.internal && c in h.owner
  {
    assert CacheOk(h, c);
  }

  /** A block in use that holds no header yet can hold one: it is no other slab's or cache's address. */
  lemma BlockIsFresh(h: Heap, a: int)
    requires Core(h) && a in h.owner && a !in h.internal
    ensures a !in h.slabs && a !in h.nodes && a != 0
  {
    ObjectPlace(h, a);
    hide Core, SlabSize;
    forall s | s in h.slabs ensures s != a {
      SlabPlace(h, s);
    }
    forall c | c in h.nodes ensures c != a {
      CachePlace(h, c);
    }
  }

  /** Neither can the start of pages that no slab has claimed be one. */
  lemma PageIsFresh(h: Heap, base: int)
    requires Core(h) && Unclaimed(h, base, 4096)
    ensures base !in h.slabs && base !in h.nodes && base != 0
  {
    assert base / 4096 !in h.info && base != 0;
    hide Core, Unclaimed, SlabSize;
    forall a | a in h.owner ensures a != base {
      ObjectPlace(h, a);
    }
    forall s | s in h.slabs ensures s != base {
      SlabPlace(h, s);
    }
    forall c | c in h.nodes ensures c != base {
      CachePlace(h, c);
    }
  }
}
