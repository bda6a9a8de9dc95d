/**
 The state of kernel/modules/memory/kheap.c as a value: slab and cache headers by address, the link word of
 every free object, the page-to-slab index, and beside them what they describe. Address 0 is NULL.
 */
module SlabState {
  import opened Grid
  import opened Seqs

  datatype Slab = Slab(next: int, prev: int, freeCount: int, freeObj: int, cache: int)

  datatype Place = Full | Partial | Free

  datatype Cache = Cache(next: int, prev: int, objSize: int, slabSize: int, full: int, partial: int, free: int,
      kind: int)

  /** A slab's region, the objects in it, those on its free list in order, and the list it is on. */
  datatype View = View(base: int, grid: seq<int>, chain: seq<int>, place: Place)

  datatype Lists = Lists(full: seq<int>, partial: seq<int>, free: seq<int>)

  /**
   The first six parts are the kernel's memory; the others say what it means. owner maps every object in use
   to its slab; internal are the objects that hold slab and cache headers.
   */
  datatype Heap = Heap(
    slabs: map<int, Slab>, nodes: map<int, Cache>, links: map<int, int>, caches: int, heapEnd: int, info: map<int, int>,
    views: map<int, View>, lists: map<int, Lists>, order: seq<int>, owner: map<int, int>, internal: set<int>)

  const KHEAP_START := 0xE100_0000
  const KHEAP_MAX := 0xF000_0000

  // ---- one slab ----

  /** The free list threaded through the objects: each link word names the next one, the last holds NULL. */
  ghost predicate Threaded(links: map<int, int>, chain: seq<int>) {
    forall i :: 0 <= i < |chain| ==> LinkOk(links, chain, i)
  }

  ghost predicate LinkOk(links: map<int, int>, chain: seq<int>, i: int)
    requires 0 <= i < |chain|
  {
    chain[i] in links && chain[i] != 0 && links[chain[i]] == if i + 1 < |chain| then chain[i + 1] else 0
  }

  /** The free list has no cycle or duplicate, lies in the slab's grid and is as long as free_count says. */
  ghost predicate ChainOk(h: Heap, s: int)
    requires s in h.slabs && s in h.views
  {
    var v := h.views[s];
    && h.slabs[s].freeObj == First(v.chain) && h.slabs[s].freeCount == |v.chain|
    && Distinct(v.chain) && Threaded(h.links, v.chain)
    && forall a :: a in v.chain ==> a in v.grid
  }

  /** The slab's region, and the index entries of its pages. */
  ghost predicate RegionOk(h: Heap, s: int, o: int)
    requires s in h.slabs && s in h.views
  {
    var v := h.views[s];
    && IsObjSize(o) && v.grid == SlabGrid(v.base, o)
    && KHEAP_START <= v.base && v.base % 4096 == 0 && v.base + SlabSize(o) <= h.heapEnd
    && (forall p :: v.base / 4096 <= p < (v.base + SlabSize(o)) / 4096 ==> p in h.info && h.info[p] == s)
    && (if SlabSize(o) == 4096 then s == v.base else s in h.internal)
  }

  /** Every object of the slab is either on its free list or in use, never both. */
  ghost predicate Partitioned(h: Heap, s: int)
    requires s in h.views
  {
    forall a :: a in h.views[s].grid ==> (a in h.views[s].chain <==> !(a in h.owner && h.owner[a] == s))
  }

  function ListOf(l: Lists, p: Place): seq<int> {
    match p
    case Full => l.full
    case Partial => l.partial
    case Free => l.free
  }

  function HeadOf(c: Cache, p: Place): int {
    match p
    case Full => c.full
    case Partial => c.partial
    case Free => c.free
  }

  ghost predicate SlabOk(h: Heap, s: int)
    requires s in h.slabs
  {
    && s in h.views && h.slabs[s].cache in h.nodes && s != 0 && s !in h.nodes
    && ChainOk(h, s) && RegionOk(h, s, h.nodes[h.slabs[s].cache].objSize) && Partitioned(h, s)
  }

  /** The slab is on the list of its cache that its place names. */
  ghost predicate InList(h: Heap, s: int)
    requires s in h.slabs
  {
    && s in h.views && h.slabs[s].cache in h.lists
    && s in ListOf(h.lists[h.slabs[s].cache], h.views[s].place)
  }

  /** The list a slab is on agrees with its free count. */
  ghost predicate Matches(h: Heap, s: int)
    requires s in h.slabs && s in h.views
  {
    && (h.views[s].place == Full <==> h.slabs[s].freeCount == 0)
    && (h.views[s].place == Free <==> h.slabs[s].freeCount == |h.views[s].grid|)
  }

  // ---- one cache ----

  /** The slab at position i of a list is linked to its neighbours. */
  ghost predicate LinksAt(slabs: map<int, Slab>, list: seq<int>, i: int)
    requires 0 <= i < |list|
  {
    && list[i] in slabs && list[i] != 0
    && slabs[list[i]].next == (if i + 1 < |list| then list[i + 1] else 0)
    && slabs[list[i]].prev == (if i > 0 then list[i - 1] else 0)
  }

  ghost predicate SlabAt(h: Heap, c: int, p: Place, list: seq<int>, i: int)
    requires 0 <= i < |list|
  {
    && LinksAt(h.slabs, list, i) && list[i] in h.views
    && h.slabs[list[i]].cache == c && h.views[list[i]].place == p
  }

  ghost predicate ListOk(h: Heap, c: int, p: Place)
    requires c in h.nodes && c in h.lists
  {
    var list := ListOf(h.lists[c], p);
    && HeadOf(h.nodes[c], p) == First(list) && Distinct(list)
    && forall i :: 0 <= i < |list| ==> SlabAt(h, c, p, list, i)
  }

  ghost predicate CacheOk(h: Heap, c: int)
    requires c in h.nodes
  {
    && c in h.lists && c != 0 && c in h.internal
    && IsObjSize(h.nodes[c].objSize) && h.nodes[c].slabSize == SlabSize(h.nodes[c].objSize)
    && (h.nodes[c].kind == 0 || h.nodes[c].kind == 1)
    && ListOk(h, c, Full) && ListOk(h, c, Partial) && ListOk(h, c, Free)
  }

  ghost predicate CacheAt(nodes: map<int, Cache>, order: seq<int>, i: int)
    requires 0 <= i < |order|
  {
    && order[i] in nodes
    && nodes[order[i]].next == (if i + 1 < |order| then order[i + 1] else 0)
    && nodes[order[i]].prev == (if i > 0 then order[i - 1] else 0)
  }

  ghost predicate SameKind(nodes: map<int, Cache>, c: int, d: int)
    requires c in nodes && d in nodes
  {
    nodes[c].objSize == nodes[d].objSize && nodes[c].kind == nodes[d].kind
  }

  /** The caches form one list, linked both ways, sorted by object size, with one cache per size and type. */
  ghost predicate OrderIs(nodes: map<int, Cache>, caches: int, order: seq<int>) {
    && caches == First(order) && Distinct(order)
    && (forall c :: c in nodes <==> c in order)
    && (forall i :: 0 <= i < |order| ==> CacheAt(nodes, order, i))
    && (forall i, j :: 0 <= i < j < |order| && order[i] in nodes && order[j] in nodes ==>
          nodes[order[i]].objSize <= nodes[order[j]].objSize && !SameKind(nodes, order[i], order[j]))
    && HasCache(nodes, 32, 0)
  }

  ghost predicate HasCache(nodes: map<int, Cache>, o: int, kind: int) {
    exists c :: c in nodes && nodes[c].objSize == o && nodes[c].kind == kind
  }

  // ---- the whole heap ----

  ghost predicate OwnerOk(h: Heap, a: int)
    requires a in h.owner
  {
    h.owner[a] in h.views && h.owner[a] in h.slabs && a in h.views[h.owner[a]].grid
  }

  /** Everything but the lists' completeness and their agreement with the free counts. */
  ghost predicate Body(h: Heap) {
    && h.views.Keys == h.slabs.Keys && h.lists.Keys == h.nodes.Keys
    && KHEAP_START <= h.heapEnd <= KHEAP_MAX && h.heapEnd % 4096 == 0
    && (forall p :: p in h.info ==> p < h.heapEnd / 4096)
    && h.internal <= h.owner.Keys
    && (forall s :: s in h.slabs ==> SlabOk(h, s))
    && (forall c :: c in h.nodes ==> CacheOk(h, c))
    && (forall a :: a in h.owner ==> OwnerOk(h, a))
    && OrderIs(h.nodes, h.caches, h.order)
  }

  /** Body, and every slab is on its list. */
  ghost predicate Core(h: Heap) {
    Body(h) && forall s :: s in h.slabs ==> InList(h, s)
  }

  /** Body, and every slab but x is on its list. */
  ghost predicate Floating(h: Heap, x: int) {
    && Body(h) && (forall s :: s in h.slabs && s != x ==> InList(h, s))
    && x in h.slabs && !InList(h, x)
  }

  ghost predicate Inv(h: Heap) {
    Core(h) && forall s :: s in h.slabs ==> Matches(h, s)
  }

  /** The size of the blocks a slab hands out. */
  function SizeOf(h: Heap, s: int): int {
    if s in h.slabs && h.slabs[s].cache in h.nodes then h.nodes[h.slabs[s].cache].objSize else 0
  }

  // ---- what the invariant gives ----

  /** The page of every object leads, through the index, to its slab. */
  lemma IndexFindsSlab(h: Heap, s: int, a: int)
    requires Body(h) && s in h.slabs && s in h.views && a in h.views[s].grid
    ensures a / 4096 in h.info && h.info[a / 4096] == s
    ensures KHEAP_START <= a && a + SizeOf(h, s) <= h.heapEnd
    ensures h.views[s].base <= a && a + SizeOf(h, s) <= h.views[s].base + SlabSize(SizeOf(h, s))
  {
    assert SlabOk(h, s);
    var v, o := h.views[s], SizeOf(h, s);
    SlabGridCount(v.base, o);
    assert v.base / 4096 <= a / 4096 < (v.base + SlabSize(o)) / 4096;
  }

  /** Blocks in use never overlap. */
  lemma BlocksDisjoint(h: Heap, a: int, b: int)
    requires Body(h) && a in h.owner && b in h.owner && a < b
    ensures a + SizeOf(h, h.owner[a]) <= b
  {
    var s, t := h.owner[a], h.owner[b];
    assert OwnerOk(h, a) && OwnerOk(h, b);
    IndexFindsSlab(h, s, a);
    IndexFindsSlab(h, t, b);
    assert SlabOk(h, s) && SlabOk(h, t);
    if s == t {
      SameSlab(h.views[s].base, SizeOf(h, s), a, b);
    } else {
      PagesOf(h, s, b);
    }
  }

  lemma PagesOf(h: Heap, s: int, x: int)
    requires Body(h) && s in h.slabs && s in h.views
    ensures h.views[s].base <= x < h.views[s].base + SlabSize(SizeOf(h, s)) ==>
              x / 4096 in h.info && h.info[x / 4096] == s
  {
    assert SlabOk(h, s);
  }

  lemma SameSlab(base: int, o: int, a: int, b: int)
    requires IsObjSize(o) && a in SlabGrid(base, o) && b in SlabGrid(base, o) && a < b
    ensures a + o <= b
  {
    var g := SlabGrid(base, o);
    var i :| 0 <= i < |g| && g[i] == a;
    var j :| 0 <= j < |g| && g[j] == b;
    var end := base + SlabSize(o);
    if i < j {
      GridSpacing(FirstObj(base, o), end, o, i, j);
    } else if j < i {
      GridSpacing(FirstObj(base, o), end, o, j, i);
    }
  }

  /** An object belongs to one slab only. */
  lemma OneSlab(h: Heap, s: int, t: int, a: int)
    requires Body(h) && s in h.slabs && t in h.slabs && s in h.views && t in h.views
    requires a in h.views[s].grid && a in h.views[t].grid
    ensures s == t
  {
    IndexFindsSlab(h, s, a);
    IndexFindsSlab(h, t, a);
  }
}
