/** Moving slabs between the lists of their cache: the pointer writes of cache_alloc and kfree. */
module SlabLists {
  import opened Grid
  import opened Seqs
  import opened SlabState
  import opened SlabSteps

  function SetHead(c: Cache, p: Place, x: int): Cache {
    match p
    case Full => c.(full := x)
    case Partial => c.(partial := x)
    case Free => c.(free := x)
  }

  function SetList(l: Lists, p: Place, s: seq<int>): Lists {
    match p
    case Full => l.(full := s)
    case Partial => l.(partial := s)
    case Free => l.(free := s)
  }

  /** The pointer writes that take a slab out of its list. */
  function UnhookSlabs(slabs: map<int, Slab>, s: int): map<int, Slab>
    requires s in slabs
  {
    var n, b := slabs[s].next, slabs[s].prev;
    var slabs' := if b != 0 && b in slabs then slabs[b := slabs[b].(next := n)] else slabs;
    if n != 0 && n in slabs' then slabs'[n := slabs'[n].(prev := b)] else slabs'
  }

  lemma UnhookLinks(slabs: map<int, Slab>, list: seq<int>, k: nat, i: nat)
    requires Distinct(list) && k < |list| && i < |list| - 1 && list[k] in slabs
    requires forall j :: 0 <= j < |list| ==> LinksAt(slabs, list, j)
    ensures LinksAt(UnhookSlabs(slabs, list[k]), list[..k] + list[k + 1..], i)
    ensures (list[..k] + list[k + 1..])[i] != list[k]
  {
    var r := list[..k] + list[k + 1..];
    assert LinksAt(slabs, list, k);
    if i < k {
      assert r[i] == list[i] && LinksAt(slabs, list, i);
    } else {
      assert r[i] == list[i + 1] && LinksAt(slabs, list, i + 1);
    }
  }

  /** The pointer writes that put a slab in front of a list. */
  function HookSlabs(slabs: map<int, Slab>, s: int, head: int): map<int, Slab>
    requires s in slabs
  {
    var slabs' := if head != 0 && head in slabs then slabs[head := slabs[head].(prev := s)] else slabs;
    slabs'[s := slabs'[s].(next := head, prev := 0)]
  }

  lemma HookLinks(slabs: map<int, Slab>, list: seq<int>, s: int, i: nat)
    requires Distinct(list) && s in slabs && s != 0 && s !in list && i <= |list|
    requires forall j :: 0 <= j < |list| ==> LinksAt(slabs, list, j)
    ensures LinksAt(HookSlabs(slabs, s, First(list)), [s] + list, i)
  {
    assert list != [] ==> LinksAt(slabs, list, 0);
    if i > 0 {
      assert LinksAt(slabs, list, i - 1);
    }
  }

  /** The slab's neighbours, or its list's head, no longer lead to it. */
  function Unhook(h: Heap, s: int): Heap
    requires s in h.slabs && s in h.views && h.slabs[s].cache in h.nodes && h.slabs[s].cache in h.lists
  {
    var c, p := h.slabs[s].cache, h.views[s].place;
    var n, b := h.slabs[s].next, h.slabs[s].prev;
    var nodes := if b == 0 then h.nodes[c := SetHead(h.nodes[c], p, n)] else h.nodes;
    h.(nodes := nodes, slabs := UnhookSlabs(h.slabs, s),
       lists := h.lists[c := SetList(h.lists[c], p, Without(ListOf(h.lists[c], p), s))])
  }

  /** The slab becomes the first of list p. */
  function Hook(h: Heap, s: int, p: Place): Heap
    requires s in h.slabs && s in h.views && h.slabs[s].cache in h.nodes && h.slabs[s].cache in h.lists
  {
    var c := h.slabs[s].cache;
    h.(nodes := h.nodes[c := SetHead(h.nodes[c], p, s)],
       slabs := HookSlabs(h.slabs, s, HeadOf(h.nodes[c], p)),
       views := h.views[s := h.views[s].(place := p)],
       lists := h.lists[c := SetList(h.lists[c], p, [s] + ListOf(h.lists[c], p))])
  }

  /** Neither step changes anything about a slab but its links and its place, or about a cache but its heads. */
  ghost predicate OnlyLinks(h: Heap, u: Heap) {
    && u.slabs.Keys == h.slabs.Keys && u.nodes.Keys == h.nodes.Keys && u.lists.Keys == h.lists.Keys
    && u.views.Keys == h.views.Keys
    && u.links == h.links && u.caches == h.caches && u.heapEnd == h.heapEnd && u.info == h.info
    && u.order == h.order && u.owner == h.owner && u.internal == h.internal
    && (forall s :: s in h.slabs ==>
          u.slabs[s].freeCount == h.slabs[s].freeCount && u.slabs[s].freeObj == h.slabs[s].freeObj
          && u.slabs[s].cache == h.slabs[s].cache)
    && (forall s :: s in h.views ==>
          u.views[s].base == h.views[s].base && u.views[s].grid == h.views[s].grid
              && u.views[s].chain == h.views[s].chain)
    && (forall c :: c in h.nodes ==>
          u.nodes[c].next == h.nodes[c].next && u.nodes[c].prev == h.nodes[c].prev && u.nodes[c].kind == h.nodes[c].kind
          && u.nodes[c].objSize == h.nodes[c].objSize && u.nodes[c].slabSize == h.nodes[c].slabSize)
  }

  lemma OnlyLinksBody(h: Heap, u: Heap)
    requires Body(h) && OnlyLinks(h, u)
    requires forall c, p :: c in u.nodes && c in u.lists ==> ListOk(u, c, p)
    ensures Body(u)
  {
    hide ListOk, OrderIs, IsObjSize, SlabSize, SlabGrid;
    forall s | s in u.slabs ensures SlabOk(u, s) {
      assert SlabOk(h, s);
    }
    forall c | c in u.nodes ensures CacheOk(u, c) {
      assert c in h.nodes && CacheOk(h, c);
      assert c in u.lists;
      assert c != 0 && c in u.internal;
      assert IsObjSize(u.nodes[c].objSize);
      assert u.nodes[c].slabSize == SlabSize(u.nodes[c].objSize);
      assert (u.nodes[c].kind == 0 || u.nodes[c].kind == 1);
      assert ListOk(u, c, Full) && ListOk(u, c, Partial) && ListOk(u, c, Free);
    }
    forall a | a in u.owner ensures OwnerOk(u, a) {
      assert OwnerOk(h, a);
      var s := h.owner[a];
      assert u.views[s].grid == h.views[s].grid;
    }
    OrderKept(h.nodes, u.nodes, h.caches, h.order);
  }

  lemma OrderKept(a: map<int, Cache>, b: map<int, Cache>, caches: int, order: seq<int>)
    requires OrderIs(a, caches, order) && a.Keys == b.Keys
    requires forall c :: c in a ==>
               b[c].next == a[c].next && b[c].prev == a[c].prev && b[c].objSize == a[c].objSize
                   && b[c].kind == a[c].kind
    ensures OrderIs(b, caches, order)
  {
    forall i | 0 <= i < |order| ensures CacheAt(b, order, i) {
      assert CacheAt(a, order, i);
    }
    var c :| c in a && a[c].objSize == 32 && a[c].kind == 0;
    assert b[c].objSize == 32 && b[c].kind == 0;
  }

  lemma UnhookOnlyLinks(h: Heap, s: int)
    requires Body(h) && s in h.slabs && s in h.views && h.slabs[s].cache in h.nodes && h.slabs[s].cache in h.lists
    ensures OnlyLinks(h, Unhook(h, s))
  {
    hide Body, Without;
  }

  lemma HookOnlyLinks(h: Heap, s: int, p: Place)
    requires Body(h) && s in h.slabs && s in h.views && h.slabs[s].cache in h.nodes && h.slabs[s].cache in h.lists
    ensures OnlyLinks(h, Hook(h, s, p))
  {
    hide Body;
  }

  lemma TheList(h: Heap, c: int, p: Place)
    requires Body(h) && c in h.nodes
    ensures c in h.lists && ListOk(h, c, p)
  {
    assert CacheOk(h, c);
  }

  lemma ListLinks(h: Heap, c: int, p: Place)
    requires Body(h) && c in h.nodes
    ensures c in h.lists
    ensures var list := ListOf(h.lists[c], p);
            && Distinct(list) && HeadOf(h.nodes[c], p) == First(list)
            && (forall i :: 0 <= i < |list| ==> LinksAt(h.slabs, list, i))
            && (forall s :: s in list ==>
                  s in h.slabs && s in h.views && h.slabs[s].cache == c && h.views[s].place == p)
  {
    TheList(h, c, p);
    var list := ListOf(h.lists[c], p);
    forall i | 0 <= i < |list| ensures LinksAt(h.slabs, list, i) {
      assert SlabAt(h, c, p, list, i);
    }
    forall s | s in list ensures s in h.slabs && s in h.views && h.slabs[s].cache == c && h.views[s].place == p {
      var i :| 0 <= i < |list| && list[i] == s;
      assert SlabAt(h, c, p, list, i);
    }
  }

  /** The list the slab leaves. */
  lemma UnhookedList(h: Heap, s: int)
    requires Body(h) && s in h.slabs && InList(h, s) && h.slabs[s].cache in h.nodes
    ensures ListOk(Unhook(h, s), h.slabs[s].cache, h.views[s].place)
    ensures s !in ListOf(Unhook(h, s).lists[h.slabs[s].cache], h.views[s].place)
  {
    hide Body, Without, UnhookSlabs, LinksAt;
    var c, p := h.slabs[s].cache, h.views[s].place;
    var list, u := ListOf(h.lists[c], p), Unhook(h, s);
    UnhookOnlyLinks(h, s);
    ListLinks(h, c, p);
    var k :| 0 <= k < |list| && list[k] == s;
    WithoutAt(list, list[k], k);
    var rest := list[..k] + list[k + 1..];
    forall i | 0 <= i < |rest| ensures SlabAt(u, c, p, rest, i) && rest[i] != s {
      UnhookLinks(h.slabs, list, k, i);
      assert rest[i] in list;
    }
    assert Distinct(rest);
    HeadLinks(h.slabs, list, k);
  }

  lemma HeadLinks(slabs: map<int, Slab>, list: seq<int>, k: nat)
    requires Distinct(list) && k < |list| && forall j :: 0 <= j < |list| ==> LinksAt(slabs, list, j)
    ensures list[k] in slabs && (slabs[list[k]].prev == 0 <==> k == 0)
    ensures First(list[..k] + list[k + 1..]) == if k == 0 then slabs[list[k]].next else list[0]
  {
    assert LinksAt(slabs, list, k);
    assert k > 0 ==> LinksAt(slabs, list, k - 1);
  }

  /** The list the slab joins. */
  lemma HookedList(h: Heap, s: int, p: Place)
    requires Body(h) && s in h.slabs && s in h.views && h.slabs[s].cache in h.nodes && h.slabs[s].cache in h.lists
    requires s !in ListOf(h.lists[h.slabs[s].cache], p) && s != 0
    ensures ListOk(Hook(h, s, p), h.slabs[s].cache, p)
  {
    hide Body, HookSlabs, LinksAt;
    var c := h.slabs[s].cache;
    var list, u := ListOf(h.lists[c], p), Hook(h, s, p);
    HookOnlyLinks(h, s, p);
    ListLinks(h, c, p);
    var longer := [s] + list;
    forall i | 0 <= i < |longer| ensures SlabAt(u, c, p, longer, i) {
      HookLinks(h.slabs, list, s, i);
      assert i > 0 ==> longer[i] in list;
    }
    assert Distinct(longer);
  }

  /** Only slabs of the list the slab leaves have their links changed. */
  lemma UnhookTouches(h: Heap, s: int, t: int)
    requires Body(h) && s in h.slabs && InList(h, s) && h.slabs[s].cache in h.nodes && t in h.slabs && t in h.views
    requires h.slabs[t].cache != h.slabs[s].cache || h.views[t].place != h.views[s].place
    ensures t in Unhook(h, s).slabs && Unhook(h, s).slabs[t] == h.slabs[t]
  {
    hide Body, Without, LinksAt;
    var c, p := h.slabs[s].cache, h.views[s].place;
    var list := ListOf(h.lists[c], p);
    ListLinks(h, c, p);
    var k :| 0 <= k < |list| && list[k] == s;
    NeighboursInList(h.slabs, list, k);
  }

  lemma NeighboursInList(slabs: map<int, Slab>, list: seq<int>, k: nat)
    requires k < |list| && forall j :: 0 <= j < |list| ==> LinksAt(slabs, list, j)
    ensures list[k] in slabs
    ensures slabs[list[k]].next == 0 || slabs[list[k]].next in list
    ensures slabs[list[k]].prev == 0 || slabs[list[k]].prev in list
  {
    assert LinksAt(slabs, list, k);
  }

  lemma HookTouches(h: Heap, s: int, p: Place, t: int)
    requires Body(h) && s in h.slabs && s in h.views && h.slabs[s].cache in h.nodes && h.slabs[s].cache in h.lists
    requires t in h.slabs && t in h.views && t != s
    requires h.slabs[t].cache != h.slabs[s].cache || h.views[t].place != p
    ensures t in Hook(h, s, p).slabs && Hook(h, s, p).slabs[t] == h.slabs[t]
  {
    hide Body, LinksAt;
    var c := h.slabs[s].cache;
    var list := ListOf(h.lists[c], p);
    ListLinks(h, c, p);
    if list != [] {
      assert list[0] in list;
    }
  }

  /** After leaving its list the slab is on none; everything else holds. */
  lemma UnhookFloating(h: Heap, s: int)
    requires Core(h) && s in h.slabs
    ensures InList(h, s) && h.slabs[s].cache in h.nodes && Floating(Unhook(h, s), s)
  {
    assert InList(h, s) && SlabOk(h, s);
    hide Body, ListOk, Unhook, SlabOk;
    var u, c, p := Unhook(h, s), h.slabs[s].cache, h.views[s].place;
    UnhookOnlyLinks(h, s);
    UnhookedList(h, s);
    forall d, q | d in u.nodes && d in u.lists ensures ListOk(u, d, q) {
      if d != c || q != p {
        OtherListUnhooked(h, s, d, q);
      }
    }
    OnlyLinksBody(h, u);
    forall t | t in u.slabs && t != s ensures InList(u, t) {
      assert InList(h, t);
      UnhookKeeps(h, s, t);
    }
    UnhookLeaves(h, s);
  }

  lemma OtherListUnhooked(h: Heap, s: int, d: int, q: Place)
    requires Body(h) && s in h.slabs && InList(h, s) && h.slabs[s].cache in h.nodes
    requires d in h.nodes && (d != h.slabs[s].cache || q != h.views[s].place)
    ensures d in h.lists && d in Unhook(h, s).nodes && d in Unhook(h, s).lists && ListOk(Unhook(h, s), d, q)
  {
    var u := Unhook(h, s);
    TheList(h, d, q);
    UnhookOnlyLinks(h, s);
    hide Body, UnhookSlabs, Without;
    forall t | t in h.slabs && t in h.views && h.slabs[t].cache == d && h.views[t].place == q
      ensures t in u.slabs && t in u.views && u.slabs[t] == h.slabs[t] && u.views[t] == h.views[t]
    {
      UnhookTouches(h, s, t);
    }
    ListKept(h, u, d, q);
  }

  lemma {:induction false} WithoutKeeps(list: seq<int>, s: int, t: int)
    requires t != s
    ensures t in Without(list, s) <==> t in list
  {
    if list != [] {
      assert list == [list[0]] + list[1..];
      if list[0] != s {
        WithoutKeeps(list[1..], s, t);
        assert Without(list, s) == [list[0]] + Without(list[1..], s);
      }
    }
  }

  lemma UnhookKeeps(h: Heap, s: int, t: int)
    requires s in h.slabs && InList(h, s) && h.slabs[s].cache in h.nodes && t in h.slabs && InList(h, t) && t != s
    requires t in Unhook(h, s).slabs && Unhook(h, s).slabs[t].cache == h.slabs[t].cache
    ensures InList(Unhook(h, s), t)
  {
    hide UnhookSlabs, Without;
    WithoutKeeps(ListOf(h.lists[h.slabs[s].cache], h.views[s].place), s, t);
  }

  lemma UnhookLeaves(h: Heap, s: int)
    requires Body(h) && s in h.slabs && InList(h, s) && h.slabs[s].cache in h.nodes
    ensures s in Unhook(h, s).slabs && !InList(Unhook(h, s), s)
    ensures Unhook(h, s).views == h.views
  {
    UnhookedList(h, s);
    UnhookOnlyLinks(h, s);
  }

  /** A slab on no list may join any list of its cache that it does not match already. */
  lemma HookCore(h: Heap, s: int, p: Place)
    requires Floating(h, s) && s in h.views && h.slabs[s].cache in h.nodes && h.slabs[s].cache in h.lists
    requires p != h.views[s].place || s !in ListOf(h.lists[h.slabs[s].cache], p)
    ensures Core(Hook(h, s, p)) && Hook(h, s, p).views[s].place == p
  {
    assert SlabOk(h, s);
    NotInOther(h, s, p);
    hide Body, ListOk, Hook, SlabOk;
    var u, c := Hook(h, s, p), h.slabs[s].cache;
    HookOnlyLinks(h, s, p);
    HookedList(h, s, p);
    forall d, q | d in u.nodes && d in u.lists ensures ListOk(u, d, q) {
      if d != c || q != p {
        OtherListHooked(h, s, p, d, q);
      }
    }
    OnlyLinksBody(h, u);
    forall t | t in u.slabs ensures InList(u, t) {
      HookKeeps(h, s, p, t);
    }
  }

  lemma NotInOther(h: Heap, s: int, p: Place)
    requires Floating(h, s) && s in h.views && h.slabs[s].cache in h.nodes && h.slabs[s].cache in h.lists
    requires p != h.views[s].place || s !in ListOf(h.lists[h.slabs[s].cache], p)
    ensures s !in ListOf(h.lists[h.slabs[s].cache], p)
  {
    ListLinks(h, h.slabs[s].cache, p);
  }

  lemma OtherListHooked(h: Heap, s: int, p: Place, d: int, q: Place)
    requires Floating(h, s) && s in h.views && h.slabs[s].cache in h.nodes && h.slabs[s].cache in h.lists
    requires d in h.nodes && (d != h.slabs[s].cache || q != p)
    ensures d in h.lists && d in Hook(h, s, p).nodes && d in Hook(h, s, p).lists && ListOk(Hook(h, s, p), d, q)
  {
    var u := Hook(h, s, p);
    TheList(h, d, q);
    ListLinks(h, d, q);
    HookOnlyLinks(h, s, p);
    hide Body, HookSlabs;
    var list := ListOf(h.lists[d], q);
    assert s !in list;
    forall i | 0 <= i < |list| ensures SlabAt(u, d, q, list, i) {
      assert SlabAt(h, d, q, list, i) && list[i] in list;
      HookTouches(h, s, p, list[i]);
    }
  }

  lemma HookKeeps(h: Heap, s: int, p: Place, t: int)
    requires Floating(h, s) && s in h.views && h.slabs[s].cache in h.nodes && h.slabs[s].cache in h.lists
    requires t in Hook(h, s, p).slabs && OnlyLinks(h, Hook(h, s, p))
    ensures InList(Hook(h, s, p), t)
  {
    hide Body, HookSlabs;
    var u := Hook(h, s, p);
    assert t != s ==> InList(h, t);
    if t != s && h.slabs[t].cache == h.slabs[s].cache && h.views[t].place == p {
      var list := ListOf(h.lists[h.slabs[s].cache], p);
      assert t in list && t in [s] + list;
    }
  }
}
