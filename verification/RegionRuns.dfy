/**
 Whole runs of kernel/modules/memory/vheap.c's vmalloc, vfree, map_io and unmap_io: what a caller holds while
 regions of both kinds are taken and given back in any order.
 */
module RegionRuns {
  import opened Seqs
  import opened Sets
  import opened Pmm
  import opened Space
  import opened IoSpace
  import opened Regions
  import opened VHeap
  import opened Vmalloc
  import opened Vmm

  // ---- several regions in one address space ----

  /**
   u comes from s by backing some pages with frames and mapping others to devices. Every backed page has a
   frame of its own that was free in s; the rest of the map is as in s, and no frame is lost.
   */
  ghost predicate Holding(s: Space, u: Space, backed: set<int>, devices: set<int>) {
    && Consistent(s) && Consistent(u) && Counts(s, u, backed)
    && PagesHeld(s, u, backed, devices) && FramesHeld(s, u, backed) && TablesBetween(s, u)
  }

  ghost predicate Counts(s: Space, u: Space, backed: set<int>) {
    u.free <= s.free && |u.free| + |u.tables| + |backed| == |s.free| + |s.tables|
  }

  ghost predicate PagesHeld(s: Space, u: Space, backed: set<int>, devices: set<int>) {
    && (forall q :: Mapped(u, q) <==> Mapped(s, q) || q in backed || q in devices)
    && (forall q :: Mapped(s, q) ==>
          Mapped(u, q) && Frame(u, q) == Frame(s, q) && q !in backed && q !in devices)
    && (forall q :: q in backed ==> q !in devices)
  }

  ghost predicate FramesHeld(s: Space, u: Space, backed: set<int>) {
    && (forall q :: q in backed && Mapped(u, q) ==> Frame(u, q) in s.free && Frame(u, q) !in u.free)
    && (forall q, d :: q in backed && Mapped(u, q) && d in u.tables ==> Frame(u, q) != u.tables[d].frame)
    && (forall q, r :: q in backed && r in backed && q < r && Mapped(u, q) && Mapped(u, r) ==>
          Frame(u, q) != Frame(u, r))
  }

  /** What is still mapped leads where it led. */
  ghost predicate SameFrames(u: Space, v: Space) {
    forall q :: Mapped(v, q) ==> Mapped(u, q) && Frame(v, q) == Frame(u, q)
  }

  lemma NothingHeld(s: Space, u: Space)
    requires Holding(s, u, {}, {})
    ensures u == s
  {
    assert Between(s, u, 0, 0) by {
      hide Consistent, Mapped;
    }
    NothingLeft(s, u, 0);
  }

  lemma BackedMore(s: Space, u: Space, v: Space, backed: set<int>, devices: set<int>, p: int, n: nat)
    requires Holding(s, u, backed, devices) && Between(u, v, p, p + n)
    ensures Holding(s, v, backed + Range(p, n), devices)
  {
    hide Consistent, Mapped, FramesHeld, FramesBetween, PagesHeld, PagesBetween, Range, TablesBetween;
    var more := backed + Range(p, n);
    MorePages(s, u, v, backed, devices, Range(p, n), {}, p, p + n);
    assert backed !! Range(p, n);
    assert |more| == |backed| + n;
    assert devices + {} == devices;
    BackedFrames(s, u, v, backed, devices, p, n);
    MoreTables(s, u, v);
  }

  lemma MoreTables(s: Space, u: Space, v: Space)
    requires TablesBetween(s, u) && TablesBetween(u, v) && u.free <= s.free
    ensures TablesBetween(s, v)
  {
  }

  /** The pages from lo to hi join the ones held. */
  lemma MorePages(s: Space, u: Space, v: Space, backed: set<int>, devices: set<int>, more: set<int>,
      others: set<int>, lo: int, hi: int)
    requires PagesHeld(s, u, backed, devices) && PagesBetween(u, v, lo, hi)
    requires more !! others && forall q :: q in more || q in others <==> lo <= q < hi
    ensures PagesHeld(s, v, backed + more, devices + others)
    ensures backed !! more
  {
    hide Mapped;
    forall q | q in backed ensures q !in more {
      assert Mapped(u, q);
    }
  }

  lemma BackedFrames(s: Space, u: Space, v: Space, backed: set<int>, devices: set<int>, p: int, n: nat)
    requires PagesHeld(s, u, backed, devices) && FramesHeld(s, u, backed) && u.free <= s.free && v.free <= u.free
    requires PagesBetween(u, v, p, p + n) && FramesBetween(u, v, p, p + n) && TablesBetween(u, v)
    ensures FramesHeld(s, v, backed + Range(p, n))
  {
    hide Mapped;
    forall q | q in backed && Mapped(v, q) ensures Mapped(u, q) && Frame(v, q) == Frame(u, q) {
      assert Mapped(u, q);
    }
  }

  lemma DevicesMore(s: Space, u: Space, v: Space, backed: set<int>, devices: set<int>, p: int, n: nat)
    requires Holding(s, u, backed, devices) && Around(u, v, p, p + n)
    ensures Holding(s, v, backed, devices + Range(p, n))
  {
    hide Consistent, Mapped, FramesHeld, PagesHeld, PagesBetween, Range, TablesBetween;
    MorePages(s, u, v, backed, devices, {}, Range(p, n), p, p + n);
    assert backed + {} == backed;
    DevicesFrames(s, u, v, backed, devices, p, n);
    MoreTables(s, u, v);
  }

  lemma DevicesFrames(s: Space, u: Space, v: Space, backed: set<int>, devices: set<int>, p: int, n: nat)
    requires PagesHeld(s, u, backed, devices) && FramesHeld(s, u, backed) && v.free <= u.free
    requires PagesBetween(u, v, p, p + n) && TablesBetween(u, v)
    ensures FramesHeld(s, v, backed)
  {
    hide Mapped;
    forall q | q in backed && Mapped(v, q) ensures Mapped(u, q) && Frame(v, q) == Frame(u, q) {
      assert Mapped(u, q);
    }
  }

  lemma BackedLess(s: Space, u: Space, backed: set<int>, devices: set<int>, lo: int)
    requires Holding(s, u, backed, devices) && lo in backed
    ensures Mapped(u, lo) && Holding(s, FreeUnmap(u, lo), backed - {lo}, devices) && SameFrames(u, FreeUnmap(u, lo))
  {
    hide Consistent, Mapped, Gives, SameFrames, UnmapPage;
    assert Mapped(u, lo);
    FreeUnmapGives(u, lo);
    FreeUnmapConsistent(u, lo);
    OldTableStays(s, u, lo, u.free + {Frame(u, lo)});
    GivesHeld(s, u, FreeUnmap(u, lo), backed, devices, lo);
  }

  lemma GivesHeld(s: Space, u: Space, v: Space, backed: set<int>, devices: set<int>, lo: int)
    requires Holding(s, u, backed, devices) && lo in backed && Gives(u, v, lo) && Consistent(v)
    requires lo / 1024 in s.tables ==> lo / 1024 in v.tables
    ensures Holding(s, v, backed - {lo}, devices) && SameFrames(u, v)
  {
    hide Consistent, Mapped;
    assert PagesHeld(s, v, backed - {lo}, devices);
    assert FramesHeld(s, v, backed - {lo});
    assert TablesBetween(s, v);
    var f, t := Frame(u, lo), u.tables[lo / 1024].frame;
    if lo / 1024 in v.tables {
      assert v.free <= u.free + {f};
    } else {
      assert t in s.free;
    }
    assert v.free <= s.free;
  }

  lemma DevicesLess(s: Space, u: Space, backed: set<int>, devices: set<int>, lo: int)
    requires Holding(s, u, backed, devices) && lo in devices
    ensures Mapped(u, lo) && Holding(s, UnmapPage(u, lo), backed, devices - {lo}) && SameFrames(u, UnmapPage(u, lo))
  {
    hide Consistent, UnmapPage, Mapped, TablesBetween;
    assert Mapped(u, lo);
    UnmapConsistent(u, lo);
    TableFramesTaken(u);
    OldTableStays(s, u, lo, u.free);
    assert u.(free := u.free) == u;
    UnmapTables(s, u, lo);
    UnmapPageTables(u, lo);
    UnmapHeld(s, u, backed, devices, lo);
  }

  lemma UnmapHeld(s: Space, u: Space, backed: set<int>, devices: set<int>, lo: int)
    requires PagesHeld(s, u, backed, devices) && FramesHeld(s, u, backed) && lo in devices && Mapped(u, lo)
    ensures PagesHeld(s, UnmapPage(u, lo), backed, devices - {lo}) && FramesHeld(s, UnmapPage(u, lo), backed)
    ensures SameFrames(u, UnmapPage(u, lo))
  {
    var v := UnmapPage(u, lo);
    forall q ensures Mapped(v, q) <==> q != lo && Mapped(u, q)
      ensures Mapped(v, q) ==> Frame(v, q) == Frame(u, q)
    {
      UnmapPageExact(u, lo, q);
    }
    assert v.free <= u.free + {u.tables[lo / 1024].frame};
    assert forall d :: d in v.tables ==> d in u.tables && v.tables[d].frame == u.tables[d].frame;
    assert lo / 1024 in u.tables;
    hide UnmapPage, Mapped;
  }

  lemma {:induction false} BackedGone(s: Space, u: Space, backed: set<int>, devices: set<int>, p: int, n: nat)
    requires Holding(s, u, backed, devices) && Range(p, n) <= backed
    ensures Holding(s, Unback(u, p, n), backed - Range(p, n), devices) && SameFrames(u, Unback(u, p, n))
  {
    hide Holding, FreeUnmap, Mapped, Range;
    if n == 0 {
      assert backed - Range(p, n) == backed;
    } else {
      SameInts(Range(p, n), Range(p, n - 1) + {p + n - 1});
      BackedGone(s, u, backed, devices, p, n - 1);
      BackedLess(s, Unback(u, p, n - 1), backed - Range(p, n - 1), devices, p + n - 1);
      assert backed - Range(p, n - 1) - {p + n - 1} == backed - Range(p, n);
    }
  }

  lemma {:induction false} DevicesGone(s: Space, u: Space, backed: set<int>, devices: set<int>, p: int, n: nat)
    requires Holding(s, u, backed, devices) && Range(p, n) <= devices
    ensures Holding(s, UnmapRun(u, p, n), backed, devices - Range(p, n)) && SameFrames(u, UnmapRun(u, p, n))
  {
    hide Holding, UnmapPage, Mapped, Range;
    if n == 0 {
      assert devices - Range(p, n) == devices;
    } else {
      SameInts(Range(p, n), Range(p, n - 1) + {p + n - 1});
      DevicesGone(s, u, backed, devices, p, n - 1);
      DevicesLess(s, UnmapRun(u, p, n - 1), backed, devices - Range(p, n - 1), p + n - 1);
      assert devices - Range(p, n - 1) - {p + n - 1} == devices - Range(p, n);
    }
  }

  // ---- the blocks in use ----

  ghost predicate UsedAt(bs: Blocks, start: int, pages: int) {
    exists i :: 0 <= i < |bs| && !bs[i].IsFree() && bs[i].start == start && bs[i].pages == pages
  }

  lemma SameStart(bs: Blocks, i: nat, j: nat)
    requires Tiled(bs, FIRST, LAST) && i < |bs| && j < |bs| && bs[i].start == bs[j].start
    ensures i == j
  {
    if i < j {
      TiledOrder(bs, FIRST, LAST, i, j);
    } else if j < i {
      TiledOrder(bs, FIRST, LAST, j, i);
    }
  }

  lemma CarveUsed(bs: Blocks, i: nat, n: int, start: int, pages: int)
    requires Tiled(bs, FIRST, LAST) && i < |bs| && bs[i].IsFree()
    ensures UsedAt(Carve(bs, i, n), start, pages) <==> UsedAt(bs, start, pages) || (start == bs[i].start && pages == n)
    ensures !UsedAt(bs, bs[i].start, pages)
  {
    hide Carve;
    var r := Carve(bs, i, n);
    CarveSize(bs, i, n);
    CarveAt(bs, i, n, i);
    if UsedAt(bs, bs[i].start, pages) {
      var j :| 0 <= j < |bs| && !bs[j].IsFree() && bs[j].start == bs[i].start;
      SameStart(bs, i, j);
    }
    if UsedAt(bs, start, pages) {
      var j :| 0 <= j < |bs| && !bs[j].IsFree() && bs[j].start == start && bs[j].pages == pages;
      var k := if j < i then j else if bs[i].pages == n then j else j + 1;
      CarveAt(bs, i, n, k);
      assert r[k] == bs[j];
    }
    if UsedAt(r, start, pages) {
      var k :| 0 <= k < |r| && !r[k].IsFree() && r[k].start == start && r[k].pages == pages;
      CarveAt(bs, i, n, k);
      assert k == i || r[k] == bs[if k < i then k else if bs[i].pages == n then k else k - 1];
    }
  }

  lemma ReleaseUsed(bs: Blocks, i: nat, h: int, start: int, pages: int)
    requires Tiled(bs, FIRST, LAST) && i < |bs| && !bs[i].IsFree() && h != 0
    ensures UsedAt(Release(bs, i, h), start, pages) <==> UsedAt(bs, start, pages) && start != bs[i].start
  {
    hide Release;
    var r, l, e := Release(bs, i, h), Left(bs, i), Right(bs, i);
    ReleaseSize(bs, i, h);
    if UsedAt(bs, start, pages) && start != bs[i].start {
      var j :| 0 <= j < |bs| && !bs[j].IsFree() && bs[j].start == start && bs[j].pages == pages;
      var k := if j < l then j else j - (e - l);
      ReleaseAt(bs, i, h, k);
      assert r[k] == bs[j];
    }
    if UsedAt(r, start, pages) {
      var k :| 0 <= k < |r| && !r[k].IsFree() && r[k].start == start && r[k].pages == pages;
      ReleaseAt(bs, i, h, k);
      var j := if k < l then k else k + e - l;
      assert r[k] == bs[j] && j != i;
      if start == bs[i].start {
        SameStart(bs, i, j);
      }
    }
  }

  /** Blocks in use that agree leave the same free blocks: the gaps between them. */
  lemma {:induction false} SameBlocks(bs: Blocks, cs: Blocks, i: nat)
    requires Tiled(bs, FIRST, LAST) && Coalesced(bs) && Tiled(cs, FIRST, LAST) && Coalesced(cs) && i < |bs|
    requires forall a, m :: UsedAt(bs, a, m) <==> UsedAt(cs, a, m)
    ensures i < |cs| && cs[i].start == bs[i].start && cs[i].pages == bs[i].pages && cs[i].IsFree() == bs[i].IsFree()
  {
    hide UsedAt;
    if i > 0 {
      SameBlocks(bs, cs, i - 1);
      TiledBounds(bs, FIRST, LAST, i - 1);
      TiledBounds(cs, FIRST, LAST, i - 1);
    }
    if bs[i].IsFree() {
      NoShorter(bs, cs, i);
      NoShorter(cs, bs, i);
    } else {
      UsedSame(bs, cs, i);
    }
  }

  lemma UsedSame(bs: Blocks, cs: Blocks, i: nat)
    requires Tiled(cs, FIRST, LAST) && i < |bs| && i < |cs| && bs[i].start == cs[i].start && !bs[i].IsFree()
    requires forall a, m :: UsedAt(bs, a, m) <==> UsedAt(cs, a, m)
    ensures !cs[i].IsFree() && cs[i].pages == bs[i].pages
  {
    assert UsedAt(bs, bs[i].start, bs[i].pages);
    var j :| 0 <= j < |cs| && !cs[j].IsFree() && cs[j].start == bs[i].start && cs[j].pages == bs[i].pages;
    SameStart(cs, i, j);
  }

  lemma NoShorter(bs: Blocks, cs: Blocks, i: nat)
    requires Tiled(bs, FIRST, LAST) && Coalesced(bs) && Tiled(cs, FIRST, LAST) && i < |bs| && i < |cs|
    requires bs[i].start == cs[i].start && (bs[i].IsFree() || cs[i].IsFree())
    requires forall a, m :: UsedAt(bs, a, m) <==> UsedAt(cs, a, m)
    ensures bs[i].IsFree() && bs[i].pages >= cs[i].pages
  {
    if !bs[i].IsFree() {
      UsedSame(bs, cs, i);
    } else if bs[i].End() < cs[i].End() {
      TiledBounds(bs, FIRST, LAST, i);
      TiledBounds(cs, FIRST, LAST, i);
      assert UsedAt(bs, bs[i + 1].start, bs[i + 1].pages);
      var j :| 0 <= j < |cs| && !cs[j].IsFree() && cs[j].start == bs[i + 1].start;
      if j < i {
        TiledOrder(cs, FIRST, LAST, j, i);
      } else if j > i {
        TiledOrder(cs, FIRST, LAST, i, j);
      }
    }
  }

  // ---- what callers hold ----

  /** A region a caller holds, from page start of the kernel's region on: backed by vmalloc or mapped by map_io. */
  datatype Region = Ram(start: int, pages: nat) | Device(start: int, pages: nat, frame: nat) {
    function Page(): int {
      KERNEL_PAGE + start
    }

    function End(): int {
      start + pages
    }
  }

  datatype State = State(space: Space, blocks: Blocks, held: seq<Region>)

  ghost function Pages(held: seq<Region>, device: bool): set<int> {
    set k, q | 0 <= k < |held| && held[k].Device? == device && q in Range(held[k].Page(), held[k].pages) :: q
  }

  ghost predicate PageOf(r: Region, device: bool, q: int) {
    r.Device? == device && r.Page() <= q < r.Page() + r.pages
  }

  lemma PagesAre(held: seq<Region>, device: bool, q: int)
    ensures q in Pages(held, device) <==> exists k :: 0 <= k < |held| && PageOf(held[k], device, q)
  {
    hide Range;
    if q in Pages(held, device) {
      var k :| 0 <= k < |held| && held[k].Device? == device && q in Range(held[k].Page(), held[k].pages);
      assert PageOf(held[k], device, q);
    }
    if k :| 0 <= k < |held| && PageOf(held[k], device, q) {
      assert q in Range(held[k].Page(), held[k].pages);
    }
  }

  ghost predicate HeldAt(held: seq<Region>, start: int, pages: int) {
    exists k :: 0 <= k < |held| && held[k].start == start && held[k].pages == pages
  }

  /** The blocks in use are those of before and the held regions, each once. */
  ghost predicate BlocksHeld(before: Blocks, bs: Blocks, held: seq<Region>) {
    && (forall a, m :: UsedAt(bs, a, m) <==> UsedAt(before, a, m) || HeldAt(held, a, m))
    && (forall k, m :: 0 <= k < |held| ==> !UsedAt(before, held[k].start, m))
    && (forall j, k :: 0 <= j < k < |held| ==> held[j].start != held[k].start)
  }

  ghost predicate Apart(held: seq<Region>) {
    forall j, k :: 0 <= j < |held| && 0 <= k < |held| && j != k ==>
      held[j].End() <= held[k].start || held[k].End() <= held[j].start
  }

  /** Every page of a device region leads to the device's frame. */
  ghost predicate DevicesLead(u: Space, held: seq<Region>) {
    forall k, q :: 0 <= k < |held| && held[k].Device? && held[k].Page() <= q < held[k].Page() + held[k].pages ==>
      Mapped(u, q) && Frame(u, q) == (held[k].frame + q - held[k].Page()) % PHYS_FRAMES
  }

  ghost predicate HeapOk(s: State) {
    Tiled(s.blocks, FIRST, LAST) && Coalesced(s.blocks) && DistinctHeaders(s.blocks) && FreeUnmapped(s.blocks, s.space)
  }

  /** s is a state that callers reach from b, where they held nothing. */
  ghost predicate Inv(b: State, s: State) {
    && HeapOk(s) && BlocksHeld(b.blocks, s.blocks, s.held)
    && Holding(b.space, s.space, Pages(s.held, false), Pages(s.held, true)) && DevicesLead(s.space, s.held)
  }

  lemma HeldBlock(before: Blocks, bs: Blocks, held: seq<Region>, k: nat) returns (i: nat)
    requires BlocksHeld(before, bs, held) && k < |held|
    ensures i < |bs| && !bs[i].IsFree() && bs[i].start == held[k].start && bs[i].pages == held[k].pages
  {
    assert HeldAt(held, held[k].start, held[k].pages);
    assert UsedAt(bs, held[k].start, held[k].pages);
    i :| 0 <= i < |bs| && !bs[i].IsFree() && bs[i].start == held[k].start && bs[i].pages == held[k].pages;
  }

  lemma HeldApart(before: Blocks, bs: Blocks, held: seq<Region>)
    requires BlocksHeld(before, bs, held) && Tiled(bs, FIRST, LAST)
    ensures Apart(held)
  {
    hide BlocksHeld;
    forall j, k | 0 <= j < |held| && 0 <= k < |held| && j != k
      ensures held[j].End() <= held[k].start || held[k].End() <= held[j].start
    {
      var x := HeldBlock(before, bs, held, j);
      var y := HeldBlock(before, bs, held, k);
      assert x != y by {
        DifferentStarts(before, bs, held, j, k);
      }
      if x < y {
        TiledOrder(bs, FIRST, LAST, x, y);
      } else {
        TiledOrder(bs, FIRST, LAST, y, x);
      }
    }
  }

  lemma DifferentStarts(before: Blocks, bs: Blocks, held: seq<Region>, j: nat, k: nat)
    requires BlocksHeld(before, bs, held) && j < |held| && k < |held| && j != k
    ensures held[j].start != held[k].start
  {
  }

  lemma PagesOfMore(held: seq<Region>, r: Region)
    ensures Pages(held + [r], r.Device?) == Pages(held, r.Device?) + Range(r.Page(), r.pages)
    ensures Pages(held + [r], !r.Device?) == Pages(held, !r.Device?)
  {
    hide Range;
    var more := held + [r];
    forall k | 0 <= k < |held| ensures more[k] == held[k] {
    }
    assert more[|held|] == r;
    SameInts(Pages(more, r.Device?), Pages(held, r.Device?) + Range(r.Page(), r.pages));
    SameInts(Pages(more, !r.Device?), Pages(held, !r.Device?));
  }

  lemma FewerPages(held: seq<Region>, k: nat, device: bool, q: int)
    requires Apart(held) && k < |held|
    ensures q in Pages(RemoveAt(held, k), device) <==> q in Pages(held, device) && !PageOf(held[k], device, q)
  {
    hide Pages, Apart, PageOf;
    var fewer := RemoveAt(held, k);
    PagesAre(held, device, q);
    PagesAre(fewer, device, q);
    if q in Pages(fewer, device) {
      var j :| 0 <= j < |fewer| && PageOf(fewer[j], device, q);
      var m := if j < k then j else j + 1;
      assert fewer[j] == held[m];
      OnePage(held, m, k, device, q);
    }
    if q in Pages(held, device) && !PageOf(held[k], device, q) {
      var j :| 0 <= j < |held| && PageOf(held[j], device, q);
      assert held[j] == fewer[if j < k then j else j - 1];
    }
  }

  lemma OnePage(held: seq<Region>, j: nat, k: nat, device: bool, q: int)
    requires Apart(held) && j < |held| && k < |held| && j != k && PageOf(held[j], device, q)
    ensures !PageOf(held[k], device, q)
  {
  }

  lemma PagesOfFewer(held: seq<Region>, k: nat, device: bool)
    requires Apart(held) && k < |held|
    ensures Pages(RemoveAt(held, k), device) ==
            if device == held[k].Device? then Pages(held, device) - Range(held[k].Page(), held[k].pages)
            else Pages(held, device)
    ensures device == held[k].Device? ==> Range(held[k].Page(), held[k].pages) <= Pages(held, device)
  {
    hide Range, Pages, Apart, RemoveAt;
    var expected := if device == held[k].Device? then Pages(held, device) - Range(held[k].Page(), held[k].pages)
      else Pages(held, device);
    forall q ensures q in Pages(RemoveAt(held, k), device) <==> q in expected {
      FewerPages(held, k, device, q);
    }
    if device == held[k].Device? {
      forall q | q in Range(held[k].Page(), held[k].pages) ensures q in Pages(held, device) {
        assert PageOf(held[k], device, q);
        PagesAre(held, device, q);
      }
    }
    SameInts(Pages(RemoveAt(held, k), device), expected);
  }

  lemma CarveHeld(before: Blocks, bs: Blocks, held: seq<Region>, i: nat, r: Region)
    requires BlocksHeld(before, bs, held) && Tiled(bs, FIRST, LAST) && i < |bs| && bs[i].IsFree()
    requires r.start == bs[i].start
    ensures BlocksHeld(before, Carve(bs, i, r.pages), held + [r])
  {
    hide Carve, UsedAt;
    var more := held + [r];
    forall a, m
      ensures UsedAt(Carve(bs, i, r.pages), a, m) <==> UsedAt(before, a, m) || HeldAt(more, a, m)
      ensures !UsedAt(before, r.start, m)
    {
      CarveUsed(bs, i, r.pages, a, m);
      assert more[|held|] == r;
      assert HeldAt(more, a, m) <==> HeldAt(held, a, m) || (a == r.start && m == r.pages) by {
        forall k | 0 <= k < |held| ensures more[k] == held[k] {
        }
      }
    }
    forall k | 0 <= k < |held| ensures held[k].start != r.start {
      assert HeldAt(held, held[k].start, held[k].pages);
      CarveUsed(bs, i, r.pages, held[k].start, held[k].pages);
    }
  }

  lemma ReleaseHeld(before: Blocks, bs: Blocks, held: seq<Region>, k: nat, i: nat, h: int)
    requires BlocksHeld(before, bs, held) && Tiled(bs, FIRST, LAST) && k < |held| && h != 0
    requires i < |bs| && !bs[i].IsFree() && bs[i].start == held[k].start
    ensures BlocksHeld(before, Release(bs, i, h), RemoveAt(held, k))
  {
    hide Release, UsedAt;
    var fewer := RemoveAt(held, k);
    forall j | 0 <= j < |fewer| ensures fewer[j] == held[if j < k then j else j + 1] {
    }
    forall a, m ensures UsedAt(Release(bs, i, h), a, m) <==> UsedAt(before, a, m) || HeldAt(fewer, a, m) {
      ReleaseUsed(bs, i, h, a, m);
      assert HeldAt(fewer, a, m) <==> HeldAt(held, a, m) && a != held[k].start by {
        if HeldAt(held, a, m) && a != held[k].start {
          var j :| 0 <= j < |held| && held[j].start == a && held[j].pages == m;
          assert fewer[if j < k then j else j - 1] == held[j];
        }
      }
    }
  }

  // ---- runs ----

  /**
   What happens to regions: vmalloc or map_io for n pages from free block i, or vfree or unmap_io of the k-th
   held region, which lies in block i, with the new header that kmalloc gave.
   */
  datatype Event = Allocate(n: nat, i: nat) | Map(frame: nat, n: nat, i: nat) | GiveBack(k: nat, i: nat, header: int)

  /** The block is the best fit and there are frames enough; or the block is the region's and the header is new. */
  ghost predicate MayHappen(s: State, e: Event) {
    match e
    case Allocate(n, i) =>
      n > 0 && BestFit(s.blocks, i, n) && |s.space.free| >= Need(s.space, KERNEL_PAGE + s.blocks[i].start, n)
    case Map(_, n, i) =>
      n > 0 && BestFit(s.blocks, i, n) && |s.space.free| >= Tables(s.space, KERNEL_PAGE + s.blocks[i].start, n)
    case GiveBack(k, i, header) =>
      && k < |s.held| && i < |s.blocks| && !s.blocks[i].IsFree() && s.blocks[i].start == s.held[k].start
      && header != 0 && forall j :: 0 <= j < |s.blocks| ==> s.blocks[j].header != header
  }

  /** vfree's or unmap_io's loop for the region. */
  ghost function Emptied(u: Space, r: Region): Space {
    if r.Device? then UnmapRun(u, r.Page(), r.pages) else Unback(u, r.Page(), r.pages)
  }

  ghost function Next(s: State, e: Event): State
    requires MayHappen(s, e)
  {
    match e
    case Allocate(n, i) =>
      var r := Ram(s.blocks[i].start, n);
      State(Back(s.space, r.Page(), n), Carve(s.blocks, i, n), s.held + [r])
    case Map(frame, n, i) =>
      var r := Device(s.blocks[i].start, n, frame);
      State(MapRun(s.space, r.Page(), frame, n), Carve(s.blocks, i, n), s.held + [r])
    case GiveBack(k, i, header) =>
      State(Emptied(s.space, s.held[k]), Release(s.blocks, i, header), RemoveAt(s.held, k))
  }

  ghost predicate Happens(b: State, events: seq<Event>, s: State)
    decreases |events|
  {
    if events == [] then s == b else MayHappen(b, events[0]) && Happens(Next(b, events[0]), events[1..], s)
  }

  lemma LeadsOn(u: Space, v: Space, held: seq<Region>)
    requires DevicesLead(u, held)
    requires forall q :: Mapped(u, q) ==> Mapped(v, q) && Frame(v, q) == Frame(u, q)
    ensures DevicesLead(v, held)
  {
    hide Mapped, Frame;
  }

  lemma HeldConsistent(s: Space, u: Space, backed: set<int>, devices: set<int>)
    requires Holding(s, u, backed, devices)
    ensures Consistent(u)
  {
  }

  /** The new pages are those from lo to hi, and the old ones lead where they led. */
  lemma PagesKept(s: Space, u: Space, lo: int, hi: int)
    requires PagesBetween(s, u, lo, hi)
    ensures forall q :: Mapped(u, q) ==> Mapped(s, q) || lo <= q < hi
    ensures forall q :: Mapped(s, q) ==> Mapped(u, q) && Frame(u, q) == Frame(s, q)
  {
  }

  lemma LeadMore(u: Space, held: seq<Region>, r: Region)
    requires DevicesLead(u, held) && (r.Device? ==> DevicesLead(u, [r]))
    ensures DevicesLead(u, held + [r])
  {
    hide Mapped, Frame;
    assert [r][0] == r;
  }

  lemma LeadFewer(s: Space, u: Space, v: Space, held: seq<Region>, k: nat)
    requires DevicesLead(u, held) && k < |held| && SameFrames(u, v)
    requires PagesHeld(s, v, Pages(RemoveAt(held, k), false), Pages(RemoveAt(held, k), true))
    ensures DevicesLead(v, RemoveAt(held, k))
  {
    hide Mapped, Frame, Pages;
    var fewer := RemoveAt(held, k);
    forall j, q | 0 <= j < |fewer| && fewer[j].Device? && fewer[j].Page() <= q < fewer[j].Page() + fewer[j].pages
      ensures Mapped(v, q) && Frame(v, q) == (fewer[j].frame + q - fewer[j].Page()) % PHYS_FRAMES
    {
      assert PageOf(fewer[j], true, q);
      PagesAre(fewer, true, q);
      assert fewer[j] == held[if j < k then j else j + 1];
    }
  }

  /** The pages of a region are gone once they are in neither set. */
  lemma Gone(s: Space, u: Space, v: Space, held: seq<Region>, k: nat)
    requires PagesHeld(s, u, Pages(held, false), Pages(held, true)) && k < |held| && Apart(held)
    requires PagesHeld(s, v, Pages(RemoveAt(held, k), false), Pages(RemoveAt(held, k), true)) && SameFrames(u, v)
    ensures forall q :: Mapped(v, q) ==> Mapped(u, q) && !(held[k].Page() <= q < held[k].Page() + held[k].pages)
  {
    hide Mapped, Pages;
    PagesOfFewer(held, k, false);
    PagesOfFewer(held, k, true);
    forall q | q in Range(held[k].Page(), held[k].pages) ensures !Mapped(v, q) {
      assert q in Pages(held, held[k].Device?) && q !in Pages(RemoveAt(held, k), held[k].Device?);
    }
  }

  lemma AllocateKeeps(b: State, s: State, n: nat, i: nat)
    requires Inv(b, s) && MayHappen(s, Allocate(n, i))
    ensures Inv(b, Next(s, Allocate(n, i)))
  {
    hide BlocksHeld, Holding, DevicesLead, FreeUnmapped, Tiled, Coalesced, DistinctHeaders, Pages, Range, Back, Carve,
        Need, Mapped, Consistent;
    var r := Ram(s.blocks[i].start, n);
    var u := Back(s.space, r.Page(), n);
    HeldConsistent(b.space, s.space, Pages(s.held, false), Pages(s.held, true));
    RegionUnmapped(s.blocks, i, s.space, n);
    BackBetween(s.space, r.Page(), n);
    BackedMore(b.space, s.space, u, Pages(s.held, false), Pages(s.held, true), r.Page(), n);
    PagesOfMore(s.held, r);
    CarveHeld(b.blocks, s.blocks, s.held, i, r);
    CarveTiled(s.blocks, FIRST, LAST, i, n);
    CarveCoalesced(s.blocks, i, n);
    PagesKept(s.space, u, r.Page(), r.Page() + n);
    CarveUnmapped(s.blocks, i, n, s.space, u);
    LeadsOn(s.space, u, s.held);
    LeadMore(u, s.held, r);
  }

  lemma MapKeeps(b: State, s: State, frame: nat, n: nat, i: nat)
    requires Inv(b, s) && MayHappen(s, Map(frame, n, i))
    ensures Inv(b, Next(s, Map(frame, n, i)))
  {
    hide BlocksHeld, Holding, DevicesLead, FreeUnmapped, Tiled, Coalesced, DistinctHeaders, Pages, Range, MapRun, Carve,
        Tables, Mapped, Consistent;
    var r := Device(s.blocks[i].start, n, frame);
    var u := MapRun(s.space, r.Page(), frame, n);
    HeldConsistent(b.space, s.space, Pages(s.held, false), Pages(s.held, true));
    RegionUnmapped(s.blocks, i, s.space, n);
    MapRunAround(s.space, r.Page(), frame, n);
    DevicesMore(b.space, s.space, u, Pages(s.held, false), Pages(s.held, true), r.Page(), n);
    PagesOfMore(s.held, r);
    CarveHeld(b.blocks, s.blocks, s.held, i, r);
    CarveTiled(s.blocks, FIRST, LAST, i, n);
    CarveCoalesced(s.blocks, i, n);
    PagesKept(s.space, u, r.Page(), r.Page() + n);
    CarveUnmapped(s.blocks, i, n, s.space, u);
    LeadsOn(s.space, u, s.held);
    NewLeads(s.space, r);
    LeadMore(u, s.held, r);
  }

  lemma NewLeads(s: Space, r: Region)
    requires r.Device?
    ensures DevicesLead(MapRun(s, r.Page(), r.frame, r.pages), [r])
  {
    hide MapRun, Mapped, Frame;
    forall q | r.Page() <= q < r.Page() + r.pages
      ensures Mapped(MapRun(s, r.Page(), r.frame, r.pages), q)
      ensures Frame(MapRun(s, r.Page(), r.frame, r.pages), q) == (r.frame + q - r.Page()) % PHYS_FRAMES
    {
      MapRunFrames(s, r.Page(), r.frame, r.pages, q - r.Page());
    }
  }

  lemma RegionGone(s: Space, u: Space, held: seq<Region>, k: nat)
    requires Holding(s, u, Pages(held, false), Pages(held, true)) && k < |held| && Apart(held)
    ensures Holding(s, Emptied(u, held[k]), Pages(RemoveAt(held, k), false), Pages(RemoveAt(held, k), true))
    ensures SameFrames(u, Emptied(u, held[k]))
  {
    hide Holding, SameFrames, Pages, Range, Apart, Unback, UnmapRun, RemoveAt;
    var r := held[k];
    PagesOfFewer(held, k, false);
    PagesOfFewer(held, k, true);
    if r.Device? {
      DevicesGone(s, u, Pages(held, false), Pages(held, true), r.Page(), r.pages);
    } else {
      BackedGone(s, u, Pages(held, false), Pages(held, true), r.Page(), r.pages);
    }
  }

  lemma GiveBackKeeps(b: State, s: State, k: nat, i: nat, header: int)
    requires Inv(b, s) && MayHappen(s, GiveBack(k, i, header))
    ensures Inv(b, Next(s, GiveBack(k, i, header)))
  {
    var v := Emptied(s.space, s.held[k]);
    hide BlocksHeld, DevicesLead, FreeUnmapped, Coalesced, DistinctHeaders, Pages, Tiled, Release, Emptied,
        Consistent, Apart, PagesHeld, FramesHeld, TablesBetween, Counts, SameFrames, RemoveAt, Mapped;
    HeldApart(b.blocks, s.blocks, s.held);
    var j := HeldBlock(b.blocks, s.blocks, s.held, k);
    SameStart(s.blocks, i, j);
    RegionGone(b.space, s.space, s.held, k);
    Gone(b.space, s.space, v, s.held, k);
    LeadFewer(b.space, s.space, v, s.held, k);
    ReleaseHeld(b.blocks, s.blocks, s.held, k, i, header);
    ReleaseTiled(s.blocks, FIRST, LAST, i, header);
    ReleaseCoalesced(s.blocks, i, header);
    ReleaseUnmapped(s.blocks, i, header, s.space, v);
  }

  lemma {:induction false} RunsKeep(b: State, s: State, events: seq<Event>, t: State)
    requires Inv(b, s) && Happens(s, events, t)
    ensures Inv(b, t)
    decreases |events|
  {
    hide Inv, MayHappen, Next;
    if events != [] {
      match events[0] {
        case Allocate(n, i) => AllocateKeeps(b, s, n, i);
        case Map(frame, n, i) => MapKeeps(b, s, frame, n, i);
        case GiveBack(k, i, header) => GiveBackKeeps(b, s, k, i, header);
      }
      RunsKeep(b, Next(s, events[0]), events[1..], t);
    }
  }

  /** A state in which callers hold nothing. */
  ghost predicate Start(b: State) {
    HeapOk(b) && b.held == [] && Consistent(b.space)
  }

  lemma StartInv(b: State)
    requires Start(b)
    ensures Inv(b, b)
  {
    assert Pages([], false) == {} && Pages([], true) == {};
  }

  ghost predicate Differ(u: Space, q: int, r: int) {
    Mapped(u, q) && Mapped(u, r) && Frame(u, q) != Frame(u, r)
  }

  /** No two regions share a frame. */
  ghost predicate OwnFrames(u: Space, held: seq<Region>) {
    forall j, k, q, r :: 0 <= j < k < |held| && PageOf(held[j], false, q) && PageOf(held[k], false, r) ==>
      Differ(u, q, r)
  }

  /** The address space while regions are held: each has its own frames or leads to its device. */
  ghost predicate HeldWell(b: State, s: State) {
    && Apart(s.held) && DevicesLead(s.space, s.held) && OwnFrames(s.space, s.held)
    && (forall k :: 0 <= k < |s.held| && s.held[k].Ram? ==>
          Backed(s.space, s.held[k].Page(), s.held[k].Page() + s.held[k].pages))
    && (forall q :: Mapped(b.space, q) ==> Mapped(s.space, q) && Frame(s.space, q) == Frame(b.space, q))
  }

  lemma HeldPage(b: State, s: State, k: nat, q: int)
    requires Inv(b, s) && k < |s.held| && PageOf(s.held[k], false, q)
    ensures q in Pages(s.held, false) && Mapped(s.space, q)
  {
    hide Pages, PageOf, HeapOk, BlocksHeld, Mapped;
    PagesAre(s.held, false, q);
  }

  lemma HeldFrames(b: State, s: State)
    requires Inv(b, s) && forall f :: f in b.space.free ==> 0 < f < FRAMES
    ensures forall q :: q in Pages(s.held, false) && Mapped(s.space, q) ==>
              && 0 < Frame(s.space, q) < FRAMES && Frame(s.space, q) !in s.space.free
              && forall d :: d in s.space.tables ==> Frame(s.space, q) != s.space.tables[d].frame
    ensures forall q, r :: (q in Pages(s.held, false) && r in Pages(s.held, false) && q != r
                            && Mapped(s.space, q) && Mapped(s.space, r)) ==> Frame(s.space, q) != Frame(s.space, r)
  {
    hide Pages, HeapOk, BlocksHeld, Mapped, Frame;
  }

  lemma RegionBacked(b: State, s: State, k: nat)
    requires Inv(b, s) && (forall f :: f in b.space.free ==> 0 < f < FRAMES) && k < |s.held| && s.held[k].Ram?
    ensures Backed(s.space, s.held[k].Page(), s.held[k].Page() + s.held[k].pages)
  {
    hide Inv, Pages, Mapped, Frame;
    HeldFrames(b, s);
    forall q | s.held[k].Page() <= q < s.held[k].Page() + s.held[k].pages
      ensures q in Pages(s.held, false) && Mapped(s.space, q)
    {
      HeldPage(b, s, k, q);
    }
  }

  lemma FramesApart(b: State, s: State, j: nat, k: nat, q: int, r: int)
    requires Inv(b, s) && (forall f :: f in b.space.free ==> 0 < f < FRAMES) && j < k < |s.held|
    requires PageOf(s.held[j], false, q) && PageOf(s.held[k], false, r)
    ensures Differ(s.space, q, r)
  {
    hide Inv, Pages, Mapped, Frame;
    HeldFrames(b, s);
    HeldPage(b, s, j, q);
    HeldPage(b, s, k, r);
    InvApart(b, s);
    OnePage(s.held, j, k, false, q);
  }

  lemma InvApart(b: State, s: State)
    requires Inv(b, s)
    ensures Apart(s.held) && DevicesLead(s.space, s.held)
    ensures forall q :: Mapped(b.space, q) ==> Mapped(s.space, q) && Frame(s.space, q) == Frame(b.space, q)
  {
    hide Pages, Mapped, BlocksHeld, Tiled, Coalesced, DistinctHeaders, FreeUnmapped, Apart, DevicesLead;
    HeldApart(b.blocks, s.blocks, s.held);
  }

  lemma InvHeldWell(b: State, s: State)
    requires Inv(b, s) && forall f :: f in b.space.free ==> 0 < f < FRAMES
    ensures HeldWell(b, s)
  {
    hide Inv, Pages, Mapped, Frame, Apart, DevicesLead, Backed, PageOf, Differ;
    InvApart(b, s);
    forall k | 0 <= k < |s.held| && s.held[k].Ram?
      ensures Backed(s.space, s.held[k].Page(), s.held[k].Page() + s.held[k].pages)
    {
      RegionBacked(b, s, k);
    }
    forall j, k, q, r | 0 <= j < k < |s.held| && PageOf(s.held[j], false, q) && PageOf(s.held[k], false, r)
      ensures Differ(s.space, q, r)
    {
      FramesApart(b, s, j, k, q, r);
    }
  }

  lemma AllGivenBack(b: State, s: State)
    requires Start(b) && Inv(b, s) && s.held == []
    ensures s.space == b.space && FreeExtents(s.blocks) == FreeExtents(b.blocks)
  {
    hide FreeUnmapped, Tiled, Coalesced, DistinctHeaders, Holding, UsedAt, DevicesLead;
    assert Pages([], false) == {} && Pages([], true) == {};
    NothingHeld(b.space, s.space);
    SameExtents(b.blocks, s.blocks);
  }

  lemma SameExtents(bs: Blocks, cs: Blocks)
    requires Tiled(bs, FIRST, LAST) && Coalesced(bs) && Tiled(cs, FIRST, LAST) && Coalesced(cs)
    requires forall a, m :: UsedAt(bs, a, m) <==> UsedAt(cs, a, m)
    ensures FreeExtents(bs) == FreeExtents(cs)
  {
    hide UsedAt, Tiled, Coalesced;
    SameLength(bs, cs);
    forall i | 0 <= i < |bs|
      ensures bs[i].start == cs[i].start && bs[i].pages == cs[i].pages && bs[i].IsFree() == cs[i].IsFree()
    {
      SameBlocks(bs, cs, i);
    }
  }

  lemma SameLength(bs: Blocks, cs: Blocks)
    requires Tiled(bs, FIRST, LAST) && Coalesced(bs) && Tiled(cs, FIRST, LAST) && Coalesced(cs)
    requires forall a, m :: UsedAt(bs, a, m) <==> UsedAt(cs, a, m)
    ensures |bs| == |cs|
  {
    SameBlocks(bs, cs, |bs| - 1);
    SameBlocks(cs, bs, |cs| - 1);
  }

  /**
   Any sequence of vmalloc, vfree, map_io and unmap_io. At its end, and so after every prefix, the regions held
   do not overlap; a backed one is backed by frames of RAM that are in use for it alone, a device one leads to
   its device; every other page is mapped as it was. Once everything has been given back, in whatever order, the
   free frames, the page tables and their frames, the address map and the free blocks are those of the start.
   */
  lemma RunsHold(b: State, events: seq<Event>, s: State)
    requires Start(b) && forall f :: f in b.space.free ==> 0 < f < FRAMES
    requires Happens(b, events, s)
    ensures HeldWell(b, s)
    ensures |s.space.free| + |s.space.tables| + |Pages(s.held, false)| == |b.space.free| + |b.space.tables|
    ensures s.held == [] ==> s.space == b.space && FreeExtents(s.blocks) == FreeExtents(b.blocks)
  {
    hide HeldWell, Happens, FreeExtents, Pages, Consistent, HeapOk, DevicesLead, BlocksHeld;
    StartInv(b);
    RunsKeep(b, b, events, s);
    InvHeldWell(b, s);
    if s.held == [] {
      AllGivenBack(b, s);
    }
  }

  // ---- the memory the runs are about ----

  /** A caller of the kernel's memory that keeps account of what it holds; start is the state it began with. */
  class Caller {
    const memory: Memory
    ghost const start: State
    var held: seq<Region>

    ghost function Now(): State
      reads this, memory, memory.mmu, memory.mmu.pmm, memory.heap
    {
      State(memory.mmu.TheSpace(), memory.heap.blocks, held)
    }

    ghost predicate Valid()
      reads this, memory, memory.mmu, memory.mmu.mountTable, memory.mmu.pmm, memory.mmu.pmm.bitmap
      reads memory.heap, memory.heap.heapInfo, memory.heap.list
    {
      && memory.Valid() && Inv(start, Now()) && Start(start)
      && forall f :: f in start.space.free ==> 0 < f < FRAMES && f != memory.mmu.cr3
    }

    constructor (memory: Memory)
      requires memory.Valid()
      ensures Valid() && this.memory == memory && held == [] && Now() == start
    {
      hide Inv, Start;
      this.memory := memory;
      this.held := [];
      this.start := State(memory.mmu.TheSpace(), memory.heap.blocks, []);
      new;
      MemoryStart(this.memory);
      StartInv(start);
    }

    /** After any calls every byte of every region still held can be written to. */
    lemma HeldMayBeWritten(k: nat)
      requires Valid() && k < |held|
      ensures forall a: word :: Addr(held[k].start) <= a < Addr(held[k].start + held[k].pages) ==>
                MayWrite(memory.mmu.ram, memory.mmu.cr3, a)
    {
      hide Inv, Start, VirtualHeap.Valid, Mmu.Ready, Mapped, MayWrite;
      var i := RegionFacts(start, Now(), k);
      RegionEnds(start, Now(), k);
      memory.RegionMayBeWritten(Addr(held[k].start), 4096 * held[k].pages);
    }

    method Allocate(size: word, flags: word) returns (region: word, ghost e: Event)
      requires Valid() && memory.heap.list.order != [] && memory.Affordable(Rounded(size) / 4096)
      modifies this, memory.mmu, memory.mmu.mountTable, memory.mmu.pmm, memory.mmu.pmm.bitmap
      modifies memory.heap, memory.heap.heapInfo, memory.heap.list
      ensures Rounded(size) != 0 ==> Valid()
      ensures region == 0 || Rounded(size) == 0 ==> Now() == old(Now())
      ensures region != 0 && Rounded(size) != 0 ==>
                && e.Allocate? && e.n == Rounded(size) / 4096 && MayHappen(old(Now()), e)
                && Now() == Next(old(Now()), e) && region == Addr(old(memory.heap.blocks)[e.i].start)
    {
      hide Inv, Start, Memory.Sound, VirtualHeap.Valid, Need, Back, Between, Carve, Rounded;
      ghost var s := Now();
      var n := Rounded(size) / 4096;
      ghost var i;
      region, i := memory.Vmalloc(size, flags);
      e := Event.Allocate(n, i);
      if region != 0 && Rounded(size) != 0 {
        held := held + [Ram((region - KERNEL_REGION) / 4096, n)];
        AllocateKeeps(start, s, n, i);
      }
    }

    method Map(ioRegion: word, size: word) returns (region: word, ghost e: Event)
      requires Valid() && memory.heap.list.order != [] && memory.TablesAffordable(Rounded(size) / 4096)
      modifies this, memory.mmu, memory.mmu.mountTable, memory.mmu.pmm, memory.mmu.pmm.bitmap
      modifies memory.heap, memory.heap.heapInfo, memory.heap.list
      ensures Rounded(size) != 0 ==> Valid()
      ensures region == 0 || Rounded(size) == 0 ==> Now() == old(Now())
      ensures region != 0 && Rounded(size) != 0 ==>
                && e.Map? && e.n == Rounded(size) / 4096 && e.frame == ioRegion / 4096 && MayHappen(old(Now()), e)
                && Now() == Next(old(Now()), e) && region == Addr(old(memory.heap.blocks)[e.i].start)
    {
      hide Inv, Start, Memory.Sound, VirtualHeap.Valid, Tables, MapRun, Around, Carve, Rounded;
      ghost var s := Now();
      var n := Rounded(size) / 4096;
      ghost var i;
      region, i := memory.MapIo(ioRegion, size);
      e := Event.Map(ioRegion / 4096, n, i);
      if region != 0 && Rounded(size) != 0 {
        held := held + [Device((region - KERNEL_REGION) / 4096, n, ioRegion / 4096)];
        MapKeeps(start, s, ioRegion / 4096, n, i);
      }
    }

    /** vfree for a backed region, unmap_io for a device. */
    method GiveBack(k: nat, newHeader: int) returns (ghost e: Event)
      requires Valid() && k < |held| && newHeader !in memory.heap.list.nodes && KERNEL_REGION < newHeader < WORD
      modifies this, memory.mmu, memory.mmu.mountTable, memory.mmu.pmm, memory.mmu.pmm.bitmap
      modifies memory.heap, memory.heap.heapInfo, memory.heap.list
      ensures Valid() && e.GiveBack? && e.k == k && e.header == newHeader
      ensures MayHappen(old(Now()), e) && Now() == Next(old(Now()), e)
    {
      hide Inv, Start, Memory.Sound, Memory.Valid, VirtualHeap.Valid, Backed, Unback, UnmapRun, Release, Pages;
      ghost var s := Now();
      ghost var i := RegionFacts(start, s, k);
      UnusedHeader(memory, newHeader);
      e := Event.GiveBack(k, i, newHeader);
      if held[k].Ram? {
        memory.Vfree(Addr(held[k].start), newHeader, i);
      } else {
        memory.UnmapIo(Addr(held[k].start), newHeader, i);
      }
      held := RemoveAt(held, k);
      GiveBackKeeps(start, s, k, i, newHeader);
    }
  }

  /** What vfree and unmap_io ask of a region, from the account alone. */
  lemma RegionFacts(b: State, s: State, k: nat) returns (i: nat)
    requires Inv(b, s) && k < |s.held| && forall f :: f in b.space.free ==> 0 < f < FRAMES
    ensures i < |s.blocks| && !s.blocks[i].IsFree() && FIRST <= s.blocks[i].start < LAST
    ensures s.blocks[i].start == s.held[k].start && s.blocks[i].pages == s.held[k].pages
    ensures forall q :: s.held[k].Page() <= q < s.held[k].Page() + s.held[k].pages ==> Mapped(s.space, q)
    ensures s.held[k].Ram? ==> Backed(s.space, s.held[k].Page(), s.held[k].Page() + s.held[k].pages)
    ensures s.held[k].Ram? ==> forall q :: s.held[k].Page() <= q < s.held[k].Page() + s.held[k].pages ==>
                                 Frame(s.space, q) in b.space.free
  {
    hide BlocksHeld, Coalesced, DistinctHeaders, FreeUnmapped, Pages, Mapped, Frame, Backed;
    i := HeldBlock(b.blocks, s.blocks, s.held, k);
    TiledBounds(s.blocks, FIRST, LAST, i);
    hide Inv;
    if s.held[k].Ram? {
      RegionBacked(b, s, k);
    }
    forall q | s.held[k].Page() <= q < s.held[k].Page() + s.held[k].pages
      ensures Mapped(s.space, q) && (s.held[k].Ram? ==> Frame(s.space, q) in b.space.free)
    {
      PageFacts(b, s, k, q);
    }
  }

  lemma RegionEnds(b: State, s: State, k: nat)
    requires Inv(b, s) && k < |s.held|
    ensures FIRST <= s.held[k].start && s.held[k].start + s.held[k].pages <= LAST
  {
    hide BlocksHeld, Coalesced, DistinctHeaders, FreeUnmapped, Pages, Mapped, Frame, Backed;
    var i := HeldBlock(b.blocks, s.blocks, s.held, k);
    TiledBounds(s.blocks, FIRST, LAST, i);
  }

  lemma PageFacts(b: State, s: State, k: nat, q: int)
    requires Inv(b, s) && k < |s.held| && s.held[k].Page() <= q < s.held[k].Page() + s.held[k].pages
    ensures Mapped(s.space, q) && (s.held[k].Ram? ==> Frame(s.space, q) in b.space.free)
  {
    hide HeapOk, BlocksHeld, Pages, Mapped, Frame;
    if s.held[k].Ram? {
      HeldPage(b, s, k, q);
    }
  }

  lemma UnusedHeader(memory: Memory, header: int)
    requires memory.Valid() && header !in memory.heap.list.nodes && header > 0
    ensures forall j :: 0 <= j < |memory.heap.blocks| ==> memory.heap.blocks[j].header != header
  {
    hide Tiled, Coalesced, DistinctHeaders, FreeUnmapped, Mmu.Ready;
    var bs := memory.heap.blocks;
    forall j | 0 <= j < |bs| && bs[j].IsFree() ensures bs[j].header in memory.heap.list.nodes {
      HeaderOfBlock(bs, j);
    }
  }

  lemma MemoryStart(memory: Memory)
    requires memory.Valid()
    ensures Start(State(memory.mmu.TheSpace(), memory.heap.blocks, []))
    ensures forall f :: f in memory.mmu.TheSpace().free ==> 0 < f < FRAMES && f != memory.mmu.cr3
  {
    hide Tiled, Coalesced, DistinctHeaders, FreeUnmapped, Consistent, Mmu.Ready;
    memory.Facts();
    memory.mmu.CountedConsistent();
  }
}
