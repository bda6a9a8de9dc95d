/**
 The virtual heap as a tiling: what kernel/modules/memory/vheap.c's boundary tags describe. Positions are
 page indices from KERNEL_REGION on, which is also how the heapinfo tags are indexed.
 */
module Regions {

  const KERNEL_REGION := 0xE000_0000
  const FIRST := 0x10000  // (VHEAP_START - KERNEL_REGION) / 4096
  const LAST := 0x1FBF0   // (VHEAP_MAX - KERNEL_REGION) / 4096
  const TAGS := 0x20000   // HEAP_INFO_REGION_SIZE / 4

  /** A block of pages; header is the address of a free block's header, 0 for a block in use. */
  datatype Block = Block(start: int, pages: int, header: int) {
    predicate IsFree() {
      header != 0
    }

    function End(): int {
      start + pages
    }
  }

  type Blocks = seq<Block>

  /** Non-empty blocks cover lo to hi without gap or overlap. */
  ghost predicate Tiled(bs: Blocks, lo: int, hi: int) {
    && bs != [] && bs[0].start == lo && bs[|bs| - 1].End() == hi
    && (forall i :: 0 <= i < |bs| ==> bs[i].pages > 0)
    && (forall i :: 0 < i < |bs| ==> bs[i].start == bs[i - 1].End())
  }

  /** No two free blocks are adjacent. */
  ghost predicate Coalesced(bs: Blocks) {
    forall i :: 0 < i < |bs| ==> !(bs[i - 1].IsFree() && bs[i].IsFree())
  }

  ghost predicate DistinctHeaders(bs: Blocks) {
    forall i, j :: 0 <= i < j < |bs| && bs[i].IsFree() && bs[j].IsFree() ==> bs[i].header != bs[j].header
  }

  lemma {:induction false} TiledOrder(bs: Blocks, lo: int, hi: int, i: nat, j: nat)
    requires Tiled(bs, lo, hi) && i < j < |bs|
    ensures bs[i].End() <= bs[j].start
  {
    if i + 1 < j {
      TiledOrder(bs, lo, hi, i, j - 1);
    }
  }

  lemma TiledBounds(bs: Blocks, lo: int, hi: int, i: nat)
    requires Tiled(bs, lo, hi) && i < |bs|
    ensures lo <= bs[i].start && bs[i].End() <= hi
    ensures i > 0 <==> bs[i].start > lo
    ensures i + 1 < |bs| <==> bs[i].End() < hi
  {
    if i > 0 {
      TiledOrder(bs, lo, hi, 0, i);
    }
    if i + 1 < |bs| {
      TiledOrder(bs, lo, hi, i, |bs| - 1);
    }
  }

  function FreePages(bs: Blocks): int {
    if bs == [] then 0 else FreePages(bs[..|bs| - 1]) + if bs[|bs| - 1].IsFree() then bs[|bs| - 1].pages else 0
  }

  function UsedPages(bs: Blocks): int {
    if bs == [] then 0 else UsedPages(bs[..|bs| - 1]) + if bs[|bs| - 1].IsFree() then 0 else bs[|bs| - 1].pages
  }

  /** Free and used pages always add up to the whole heap. */
  lemma {:induction false} FreePlusUsed(bs: Blocks, lo: int, hi: int)
    requires Tiled(bs, lo, hi)
    ensures FreePages(bs) + UsedPages(bs) == hi - lo
  {
    var init := bs[..|bs| - 1];
    if init == [] {
      assert FreePages(init) == 0 && UsedPages(init) == 0;
    } else {
      FreePlusUsed(init, lo, init[|init| - 1].End());
    }
  }

  // ---- allocation ----

  /** vregion_alloc: the first n pages of free block i become a used block, the rest keeps the header. */
  function Carve(bs: Blocks, i: nat, n: int): Blocks
    requires i < |bs|
  {
    var b := bs[i];
    bs[..i] + [Block(b.start, n, 0)]
    + (if b.pages == n then [] else [Block(b.start + n, b.pages - n, b.header)]) + bs[i + 1..]
  }

  lemma CarveAt(bs: Blocks, i: nat, n: int, j: nat)
    requires i < |bs| && j < |Carve(bs, i, n)|
    ensures j < i ==> Carve(bs, i, n)[j] == bs[j]
    ensures j == i ==> Carve(bs, i, n)[j] == Block(bs[i].start, n, 0)
    ensures bs[i].pages == n && j > i ==> Carve(bs, i, n)[j] == bs[j]
    ensures bs[i].pages != n && j == i + 1 ==>
              Carve(bs, i, n)[j] == Block(bs[i].start + n, bs[i].pages - n, bs[i].header)
    ensures bs[i].pages != n && j > i + 1 ==> Carve(bs, i, n)[j] == bs[j - 1]
  {
  }

  lemma CarveSize(bs: Blocks, i: nat, n: int)
    requires i < |bs|
    ensures |Carve(bs, i, n)| == |bs| + if bs[i].pages == n then 0 else 1
  {
  }

  lemma CarveTiled(bs: Blocks, lo: int, hi: int, i: nat, n: int)
    requires Tiled(bs, lo, hi) && i < |bs| && 0 < n <= bs[i].pages
    ensures Tiled(Carve(bs, i, n), lo, hi)
  {
    hide Carve;
    var r := Carve(bs, i, n);
    CarveSize(bs, i, n);
    CarveAt(bs, i, n, i);
    CarveAt(bs, i, n, 0);
    CarveAt(bs, i, n, |r| - 1);
    forall j | 0 < j < |r| ensures r[j].start == r[j - 1].End() {
      CarveAt(bs, i, n, j);
      CarveAt(bs, i, n, j - 1);
    }
    forall j | 0 <= j < |r| ensures r[j].pages > 0 {
      CarveAt(bs, i, n, j);
    }
  }

  lemma CarveCoalesced(bs: Blocks, i: nat, n: int)
    requires Coalesced(bs) && DistinctHeaders(bs) && i < |bs| && bs[i].IsFree()
    ensures Coalesced(Carve(bs, i, n)) && DistinctHeaders(Carve(bs, i, n))
  {
    hide Carve;
    var r := Carve(bs, i, n);
    CarveSize(bs, i, n);
    forall j | 0 < j < |r| ensures !(r[j - 1].IsFree() && r[j].IsFree()) {
      CarveAt(bs, i, n, j);
      CarveAt(bs, i, n, j - 1);
    }
    forall j, k | 0 <= j < k < |r| && r[j].IsFree() && r[k].IsFree() ensures r[j].header != r[k].header {
      CarveAt(bs, i, n, j);
      CarveAt(bs, i, n, k);
    }
  }

  // ---- release ----

  function Left(bs: Blocks, i: nat): nat
    requires i < |bs|
  {
    if i > 0 && bs[i - 1].IsFree() then i - 1 else i
  }

  function Right(bs: Blocks, i: nat): nat
    requires i < |bs|
  {
    if i + 1 < |bs| && bs[i + 1].IsFree() then i + 1 else i
  }

  /** vregion_free: block i and its free neighbours become one free block with a new header. */
  function Release(bs: Blocks, i: nat, header: int): Blocks
    requires i < |bs|
  {
    var l, r := Left(bs, i), Right(bs, i);
    bs[..l] + [Block(bs[l].start, bs[r].End() - bs[l].start, header)] + bs[r + 1..]
  }

  lemma ReleaseAt(bs: Blocks, i: nat, h: int, j: nat)
    requires i < |bs| && j < |Release(bs, i, h)|
    ensures var l, r := Left(bs, i), Right(bs, i);
            && (j < l ==> Release(bs, i, h)[j] == bs[j])
            && (j == l ==> Release(bs, i, h)[j] == Block(bs[l].start, bs[r].End() - bs[l].start, h))
            && (j > l ==> j + r - l < |bs| && Release(bs, i, h)[j] == bs[j + r - l])
  {
  }

  lemma ReleaseSize(bs: Blocks, i: nat, h: int)
    requires i < |bs|
    ensures |Release(bs, i, h)| == |bs| - (Right(bs, i) - Left(bs, i))
  {
  }

  lemma ReleaseTiled(bs: Blocks, lo: int, hi: int, i: nat, h: int)
    requires Tiled(bs, lo, hi) && i < |bs|
    ensures Tiled(Release(bs, i, h), lo, hi)
  {
    hide Release;
    var s := Release(bs, i, h);
    var l, r := Left(bs, i), Right(bs, i);
    if l < r {
      TiledOrder(bs, lo, hi, l, r);
    }
    ReleaseSize(bs, i, h);
    ReleaseAt(bs, i, h, l);
    ReleaseAt(bs, i, h, 0);
    ReleaseAt(bs, i, h, |s| - 1);
    forall j | 0 < j < |s| ensures s[j].start == s[j - 1].End() {
      ReleaseAt(bs, i, h, j);
      ReleaseAt(bs, i, h, j - 1);
    }
    forall j | 0 <= j < |s| ensures s[j].pages > 0 {
      ReleaseAt(bs, i, h, j);
    }
  }

  lemma ReleaseCoalesced(bs: Blocks, i: nat, h: int)
    requires Coalesced(bs) && DistinctHeaders(bs) && i < |bs| && !bs[i].IsFree()
    requires forall j :: 0 <= j < |bs| ==> bs[j].header != h
    ensures Coalesced(Release(bs, i, h)) && DistinctHeaders(Release(bs, i, h))
  {
    hide Release;
    var s := Release(bs, i, h);
    forall j | 0 < j < |s| ensures !(s[j - 1].IsFree() && s[j].IsFree()) {
      ReleaseAt(bs, i, h, j);
      ReleaseAt(bs, i, h, j - 1);
    }
    forall j, k | 0 <= j < k < |s| && s[j].IsFree() && s[k].IsFree() ensures s[j].header != s[k].header {
      ReleaseAt(bs, i, h, j);
      ReleaseAt(bs, i, h, k);
    }
  }

  /** Freeing a region straight after allocating it gives the old tiling back, with a new header on the block. */
  lemma CarveRelease(bs: Blocks, i: nat, n: int, h: int)
    requires Coalesced(bs) && i < |bs| && bs[i].IsFree()
    ensures Release(Carve(bs, i, n), i, h) == bs[i := bs[i].(header := h)]
  {
    var c := Carve(bs, i, n);
    CarveAt(bs, i, n, i);
    if i > 0 {
      CarveAt(bs, i, n, i - 1);
    }
    if i + 1 < |c| {
      CarveAt(bs, i, n, i + 1);
    }
    assert Left(c, i) == i;
    if bs[i].pages == n {
      assert Right(c, i) == i;
      assert c[i + 1..] == bs[i + 1..];
    } else {
      assert Right(c, i) == i + 1;
      assert c[i + 2..] == bs[i + 1..];
    }
    assert c[..i] == bs[..i];
  }

  /** The free blocks, whatever their headers. */
  function FreeExtents(bs: Blocks): set<(int, int)> {
    set i | 0 <= i < |bs| && bs[i].IsFree() :: (bs[i].start, bs[i].pages)
  }

  lemma CarveReleaseExtents(bs: Blocks, i: nat, n: int, h: int)
    requires Coalesced(bs) && i < |bs| && bs[i].IsFree() && h != 0
    ensures FreeExtents(Release(Carve(bs, i, n), i, h)) == FreeExtents(bs)
  {
    hide Carve, Release;
    CarveSize(bs, i, n);
    CarveRelease(bs, i, n, h);
    var r := Release(Carve(bs, i, n), i, h);
    assert |r| == |bs|;
    assert forall j :: 0 <= j < |bs| ==>
        r[j].start == bs[j].start && r[j].pages == bs[j].pages && r[j].IsFree() == bs[j].IsFree();
  }

  // ---- runs ----

  /** What a caller may do to the heap: allocate from a free block that fits, or free a used block. */
  datatype Op = Alloc(i: nat, n: int) | Free(i: nat, header: int)

  ghost predicate Legal(bs: Blocks, op: Op) {
    op.i < |bs| &&
    match op
    case Alloc(i, n) => bs[i].IsFree() && 0 < n <= bs[i].pages
    case Free(i, h) => !bs[i].IsFree() && h != 0 && forall j :: 0 <= j < |bs| ==> bs[j].header != h
  }

  function Apply(bs: Blocks, op: Op): Blocks
    requires op.i < |bs|
  {
    match op
    case Alloc(i, n) => Carve(bs, i, n)
    case Free(i, h) => Release(bs, i, h)
  }

  ghost predicate Runs(bs: Blocks, ops: seq<Op>, end: Blocks)
    decreases |ops|
  {
    if ops == [] then end == bs else Legal(bs, ops[0]) && Runs(Apply(bs, ops[0]), ops[1..], end)
  }

  /** After any run the heap is tiled, no two free blocks are adjacent, and no page is gained or lost. */
  lemma {:induction false} RunsKeep(bs: Blocks, ops: seq<Op>, end: Blocks, lo: int, hi: int)
    requires Runs(bs, ops, end) && Tiled(bs, lo, hi) && Coalesced(bs) && DistinctHeaders(bs)
    ensures Tiled(end, lo, hi) && Coalesced(end) && DistinctHeaders(end)
    ensures FreePages(end) + UsedPages(end) == hi - lo
    decreases |ops|
  {
    hide Carve, Release, FreePages, UsedPages;
    if ops == [] {
      FreePlusUsed(end, lo, hi);
    } else {
      match ops[0] {
        case Alloc(i, n) =>
          CarveTiled(bs, lo, hi, i, n);
          CarveCoalesced(bs, i, n);
        case Free(i, h) =>
          ReleaseTiled(bs, lo, hi, i, h);
          ReleaseCoalesced(bs, i, h);
      }
      RunsKeep(Apply(bs, ops[0]), ops[1..], end, lo, hi);
    }
  }

  // ---- boundary tags ----

  predicate InTags(b: Block) {
    FIRST <= b.start && b.pages > 0 && b.End() <= LAST
  }

  /**
   A free block's first and last page are tagged with its header; a used block's first page with its size in
   bytes, and its last page with 0 unless that is the first one. Pages inside are tagged with anything.
   */
  ghost predicate TagOk(tags: seq<int>, b: Block)
    requires InTags(b) && |tags| == TAGS
  {
    if b.IsFree() then
      b.header > KERNEL_REGION && tags[b.start] == b.header && tags[b.End() - 1] == b.header
    else
      tags[b.start] == 4096 * b.pages && (b.pages > 1 ==> tags[b.End() - 1] == 0)
  }

  ghost predicate Tagged(bs: Blocks, tags: seq<int>) {
    |tags| == TAGS && forall i :: 0 <= i < |bs| ==> InTags(bs[i]) && TagOk(tags, bs[i])
  }

  /** The test `tag > KERNEL_REGION` on the page before and after a block decides whether that neighbour is free. */
  lemma NeighbourTags(bs: Blocks, tags: seq<int>, i: nat)
    requires Tiled(bs, FIRST, LAST) && Tagged(bs, tags) && i < |bs|
    ensures i > 0 ==> (tags[bs[i].start - 1] > KERNEL_REGION <==> bs[i - 1].IsFree())
    ensures i > 0 && bs[i - 1].IsFree() ==> tags[bs[i].start - 1] == bs[i - 1].header
    ensures i + 1 < |bs| ==> (tags[bs[i].End()] > KERNEL_REGION <==> bs[i + 1].IsFree())
    ensures i + 1 < |bs| && bs[i + 1].IsFree() ==> tags[bs[i].End()] == bs[i + 1].header
  {
    if i > 0 {
      assert TagOk(tags, bs[i - 1]);
    }
    if i + 1 < |bs| {
      assert TagOk(tags, bs[i + 1]) && bs[i + 1].start == bs[i].End();
    }
  }

  /** The tags vregion_alloc writes, in its order: the later write wins where two fall on one page. */
  function CarveTags(tags: seq<int>, b: Block, n: int): seq<int>
    requires InTags(b) && |tags| == TAGS && 0 <= n <= b.pages
  {
    var used := tags[b.start + n - 1 := 0][b.start := 4096 * n];
    if b.pages == n then used else used[b.start + n := b.header][b.End() - 1 := b.header]
  }

  function ReleaseTags(tags: seq<int>, b: Block): seq<int>
    requires InTags(b) && |tags| == TAGS
  {
    tags[b.start := b.header][b.End() - 1 := b.header]
  }

  lemma OthersUntouched(tags: seq<int>, tags': seq<int>, b: Block, c: Block)
    requires |tags| == |tags'| == TAGS && InTags(b) && InTags(c) && TagOk(tags, c)
    requires c.End() <= b.start || b.End() <= c.start
    requires forall k :: 0 <= k < TAGS && !(b.start <= k < b.End()) ==> tags'[k] == tags[k]
    ensures TagOk(tags', c)
  {
  }

  lemma CarveTagged(bs: Blocks, tags: seq<int>, i: nat, n: int)
    requires Tiled(bs, FIRST, LAST) && Tagged(bs, tags) && i < |bs| && bs[i].IsFree() && 0 < n <= bs[i].pages
    ensures Tagged(Carve(bs, i, n), CarveTags(tags, bs[i], n))
  {
    hide Carve;
    var r, tags' := Carve(bs, i, n), CarveTags(tags, bs[i], n);
    CarveTiled(bs, FIRST, LAST, i, n);
    CarveSize(bs, i, n);
    assert TagOk(tags, bs[i]);
    forall j | 0 <= j < |r| ensures InTags(r[j]) && TagOk(tags', r[j]) {
      CarveAt(bs, i, n, j);
      TiledBounds(r, FIRST, LAST, j);
      if j < i {
        TiledOrder(bs, FIRST, LAST, j, i);
        OthersUntouched(tags, tags', bs[i], bs[j]);
      } else if j > i + 1 || (j == i + 1 && bs[i].pages == n) {
        var k := if bs[i].pages == n then j else j - 1;
        TiledOrder(bs, FIRST, LAST, i, k);
        OthersUntouched(tags, tags', bs[i], bs[k]);
      }
    }
  }

  lemma ReleaseTagged(bs: Blocks, tags: seq<int>, i: nat, h: int)
    requires Tiled(bs, FIRST, LAST) && Tagged(bs, tags) && i < |bs| && h > KERNEL_REGION
    ensures Left(bs, i) < |Release(bs, i, h)| && InTags(Release(bs, i, h)[Left(bs, i)])
    ensures Tagged(Release(bs, i, h), ReleaseTags(tags, Release(bs, i, h)[Left(bs, i)]))
  {
    hide Release;
    var s, l, r := Release(bs, i, h), Left(bs, i), Right(bs, i);
    ReleaseTiled(bs, FIRST, LAST, i, h);
    ReleaseSize(bs, i, h);
    TiledBounds(s, FIRST, LAST, l);
    var tags' := ReleaseTags(tags, s[l]);
    ReleaseAt(bs, i, h, l);
    forall j | 0 <= j < |s| ensures InTags(s[j]) && TagOk(tags', s[j]) {
      ReleaseAt(bs, i, h, j);
      TiledBounds(s, FIRST, LAST, j);
      if j < l {
        TiledOrder(s, FIRST, LAST, j, l);
        OthersUntouched(tags, tags', s[l], bs[j]);
      } else if j > l {
        TiledOrder(s, FIRST, LAST, l, j);
        OthersUntouched(tags, tags', s[l], bs[j + r - l]);
      }
    }
  }

  /**
   A request that rounds to 0 pages leaves the block free and the tiling as it was, but it also sets the tag of
   the page before it to 0. The tags stay right exactly if no block of one page lies there. In front of the
   first block that tag is not the virtual heap's: it is the index entry of kheap's last page.
   */
  lemma ZeroPagesTags(bs: Blocks, tags: seq<int>, i: nat)
    requires Tiled(bs, FIRST, LAST) && Coalesced(bs) && Tagged(bs, tags) && i < |bs| && bs[i].IsFree()
    ensures Tagged(bs, CarveTags(tags, bs[i], 0)) <==> !(i > 0 && bs[i - 1].pages == 1)
    ensures CarveTags(tags, bs[i], 0)[bs[i].start - 1] == 0
    ensures Tagged(bs, CarveTags(tags, bs[i], 0)) && CarveTags(tags, bs[i], 0)[FIRST - 1] == tags[FIRST - 1] <==>
              if i == 0 then tags[FIRST - 1] == 0 else bs[i - 1].pages != 1
  {
    TiledBounds(bs, FIRST, LAST, i);
    var b, tags' := bs[i], CarveTags(tags, bs[i], 0);
    if i > 0 {
      assert TagOk(tags, bs[i - 1]) && !bs[i - 1].IsFree();
      if bs[i - 1].pages == 1 {
        assert tags'[bs[i - 1].start] == 0;
        assert !TagOk(tags', bs[i - 1]);
        return;
      }
    }
    forall j | 0 <= j < |bs| ensures TagOk(tags', bs[j]) {
      assert TagOk(tags, bs[j]);
      if j < i {
        TiledOrder(bs, FIRST, LAST, j, i);
        if j < i - 1 {
          TiledOrder(bs, FIRST, LAST, j, i - 1);
        }
      } else if i < j {
        TiledOrder(bs, FIRST, LAST, i, j);
      }
    }
  }
}
