/**
 kernel/modules/memory/vheap.c: the allocator of virtual regions. Its state is the heapinfo tags, the header
 list and, as a specification, the tiling they describe. The pages that hold the tags are taken as backed.
 */
module VHeap {
  import opened Seqs
  import opened Sets
  import opened HeaderList
  import opened Regions
  import opened Pmm

  function Addr(page: int): int {
    KERNEL_REGION + 4096 * page
  }

  /** div_up(size, PAGE_SIZE) * PAGE_SIZE in 32 bits: 0 for size 0 and for sizes above 0xFFFFF000. */
  function Rounded(size: word): (r: word)
    ensures r % 4096 == 0
    ensures r != 0 <==> 0 < size <= 0xFFFF_F000
    ensures r != 0 ==> size <= r < size + 4096
  {
    if size == 0 then
      assert DivUp(size, 4096) == 0x10_0000;
      DivUp(size, 4096) * 4096 % WORD
    else
      DivUp(size, 4096) * 4096 % WORD
  }

  // ---- headers and blocks ----

  ghost predicate HeaderOk(nodes: Headers, b: Block) {
    b.header in nodes && nodes[b.header].region == Addr(b.start) && nodes[b.header].size == 4096 * b.pages
  }

  /** A free block's header records its region and size. */
  ghost predicate Described(bs: Blocks, nodes: Headers) {
    forall i :: 0 <= i < |bs| && bs[i].IsFree() ==> HeaderOk(nodes, bs[i])
  }

  function FreeHeaders(bs: Blocks): set<int> {
    set i | 0 <= i < |bs| && bs[i].IsFree() :: bs[i].header
  }

  lemma HeaderOfBlock(bs: Blocks, i: nat)
    requires i < |bs| && bs[i].IsFree()
    ensures bs[i].header in FreeHeaders(bs)
  {
  }

  lemma BlockOfHeader(bs: Blocks, h: int) returns (i: nat)
    requires h in FreeHeaders(bs)
    ensures i < |bs| && bs[i].IsFree() && bs[i].header == h
  {
    i :| 0 <= i < |bs| && bs[i].IsFree() && bs[i].header == h;
  }

  lemma CarveHeaders(bs: Blocks, i: nat, n: int)
    requires DistinctHeaders(bs) && i < |bs| && bs[i].IsFree()
    ensures FreeHeaders(Carve(bs, i, n)) == FreeHeaders(bs) - if bs[i].pages == n then {bs[i].header} else {}
  {
    hide Carve;
    var r := Carve(bs, i, n);
    CarveSize(bs, i, n);
    var want := FreeHeaders(bs) - if bs[i].pages == n then {bs[i].header} else {};
    forall h ensures h in FreeHeaders(r) <==> h in want {
      if h in FreeHeaders(r) {
        var j := BlockOfHeader(r, h);
        CarveAt(bs, i, n, j);
        HeaderOfBlock(bs, if j < i then j else if bs[i].pages == n then j else j - 1);
      } else if h in want {
        var j := BlockOfHeader(bs, h);
        var k := if j < i then j else if bs[i].pages == n then j else j + 1;
        CarveAt(bs, i, n, k);
        HeaderOfBlock(r, k);
      }
    }
    SameInts(FreeHeaders(r), want);
  }

  /** The headers that vregion_free merges into the new one. */
  function Merged(bs: Blocks, i: nat): set<int>
    requires i < |bs|
  {
    (if Left(bs, i) < i then {bs[Left(bs, i)].header} else {})
    + (if Right(bs, i) > i then {bs[Right(bs, i)].header} else {})
  }

  lemma ReleaseHeaders(bs: Blocks, i: nat, h: int)
    requires DistinctHeaders(bs) && i < |bs| && !bs[i].IsFree() && h != 0
    ensures FreeHeaders(Release(bs, i, h)) == FreeHeaders(bs) - Merged(bs, i) + {h}
  {
    hide Release;
    var s, l, r := Release(bs, i, h), Left(bs, i), Right(bs, i);
    ReleaseSize(bs, i, h);
    ReleaseAt(bs, i, h, l);
    HeaderOfBlock(s, l);
    var want := FreeHeaders(bs) - Merged(bs, i) + {h};
    forall g ensures g in FreeHeaders(s) <==> g in want {
      if g in FreeHeaders(s) {
        var j := BlockOfHeader(s, g);
        ReleaseAt(bs, i, h, j);
        if j != l {
          HeaderOfBlock(bs, if j < l then j else j + r - l);
        }
      } else if g in want {
        var j := BlockOfHeader(bs, g);
        var k := if j < l then j else j - (r - l);
        ReleaseAt(bs, i, h, k);
        HeaderOfBlock(s, k);
      }
    }
    SameInts(FreeHeaders(s), want);
  }

  lemma CarveDescribed(bs: Blocks, nodes: Headers, nodes': Headers, i: nat, n: int)
    requires Described(bs, nodes) && DistinctHeaders(bs) && i < |bs| && bs[i].IsFree()
    requires nodes'.Keys == nodes.Keys
    requires forall g :: g in nodes && g != bs[i].header ==>
               nodes'[g].size == nodes[g].size && nodes'[g].region == nodes[g].region
    requires bs[i].pages != n ==> HeaderOk(nodes', Block(bs[i].start + n, bs[i].pages - n, bs[i].header))
    ensures Described(Carve(bs, i, n), nodes')
  {
    hide Carve;
    var r := Carve(bs, i, n);
    CarveSize(bs, i, n);
    forall j | 0 <= j < |r| && r[j].IsFree() ensures HeaderOk(nodes', r[j]) {
      CarveAt(bs, i, n, j);
    }
  }

  lemma ReleaseDescribed(bs: Blocks, nodes: Headers, nodes': Headers, i: nat, h: int)
    requires Described(bs, nodes) && DistinctHeaders(bs) && i < |bs| && !bs[i].IsFree()
    requires forall g :: g in nodes && g !in Merged(bs, i) ==>
               g in nodes' && nodes'[g].size == nodes[g].size && nodes'[g].region == nodes[g].region
    requires var l, r := Left(bs, i), Right(bs, i);
             HeaderOk(nodes', Block(bs[l].start, bs[r].End() - bs[l].start, h))
    ensures Described(Release(bs, i, h), nodes')
  {
    hide Release;
    var s, l, r := Release(bs, i, h), Left(bs, i), Right(bs, i);
    ReleaseSize(bs, i, h);
    forall j | 0 <= j < |s| && s[j].IsFree() ensures HeaderOk(nodes', s[j]) {
      ReleaseAt(bs, i, h, j);
    }
  }

  // ---- best fit ----

  ghost predicate BestFit(bs: Blocks, i: nat, n: int) {
    && i < |bs| && bs[i].IsFree() && bs[i].pages >= n
    && forall j :: 0 <= j < |bs| && bs[j].IsFree() && bs[j].pages >= n ==> bs[i].pages <= bs[j].pages
  }

  lemma FirstThatFits(bs: Blocks, nodes: Headers, head: int, order: seq<int>, k: nat, n: int) returns (i: nat)
    requires BlocksAre(bs, nodes, order) && ListIs(nodes, head, order)
    requires k < |order| && nodes[order[k]].size >= 4096 * n
    requires forall m :: 0 <= m < k ==> nodes[order[m]].size < 4096 * n
    ensures BestFit(bs, i, n) && bs[i].header == order[k]
  {
    assert order[k] in Elems(order);
    i := BlockOfHeader(bs, order[k]);
    forall j | 0 <= j < |bs| && bs[j].IsFree() && bs[j].pages >= n ensures bs[i].pages <= bs[j].pages {
      HeaderOfBlock(bs, j);
      assert bs[j].header in Elems(order);
      var m :| 0 <= m < |order| && order[m] == bs[j].header;
      assert m > k ==> nodes[order[k]].size <= nodes[order[m]].size;
    }
  }

  lemma NoneFits(bs: Blocks, nodes: Headers, head: int, order: seq<int>, n: int)
    requires BlocksAre(bs, nodes, order) && ListIs(nodes, head, order)
    requires forall m :: 0 <= m < |order| ==> nodes[order[m]].size < 4096 * n
    ensures forall j :: 0 <= j < |bs| && bs[j].IsFree() ==> bs[j].pages < n
  {
    forall j | 0 <= j < |bs| && bs[j].IsFree() ensures bs[j].pages < n {
      HeaderOfBlock(bs, j);
      assert bs[j].header in Elems(order);
      var m :| 0 <= m < |order| && order[m] == bs[j].header;
    }
  }

  /** The blocks after n pages of block i have been taken; none are if n is 0. */
  function Taken(bs: Blocks, i: nat, n: int): Blocks
    requires i < |bs|
  {
    if n == 0 then bs else Carve(bs, i, n)
  }

  /** The list order after a header outside the list has been inserted. */
  ghost function Reinserted(nodes: Headers, order: seq<int>, header: int): seq<int> {
    if AllIn(nodes, order) && header in nodes then InsertAt(order, Position(nodes, order, nodes[header].size), header)
    else order
  }

  /** A block of one page lies in front of block i. */
  predicate PageBefore(bs: Blocks, i: nat) {
    0 < i <= |bs| && bs[i - 1].pages == 1
  }

  // ---- the allocator ----

  /** The tiling and the list; only the tags are missing. */
  ghost predicate BlocksAre(bs: Blocks, nodes: Headers, order: seq<int>) {
    && Tiled(bs, FIRST, LAST) && Coalesced(bs) && DistinctHeaders(bs)
    && Described(bs, nodes) && Elems(order) == FreeHeaders(bs)
  }

  ghost predicate HeapIs(bs: Blocks, tags: seq<int>, nodes: Headers, order: seq<int>) {
    BlocksAre(bs, nodes, order) && Tagged(bs, tags)
  }

  class VirtualHeap {
    const heapInfo: array<int>
    const list: FreeList
    ghost var blocks: Blocks

    /** Everything but that the tags agree with the blocks. */
    ghost predicate Sound()
      reads this, heapInfo, list
    {
      heapInfo.Length == TAGS && list.ListOk() && BlocksAre(blocks, list.nodes, list.order)
    }

    ghost predicate Valid()
      reads this, heapInfo, list
    {
      Sound() && Tagged(blocks, heapInfo[..])
    }

    /** init_vheap: one free block, whose header kmalloc has placed at initHeader. */
    constructor (initHeader: int)
      requires KERNEL_REGION < initHeader < WORD
      ensures Valid() && fresh(heapInfo) && fresh(list)
      ensures blocks == [Block(FIRST, LAST - FIRST, initHeader)] && list.nodes.Keys == {initHeader}
    {
      var info := new int[TAGS](_ => 0);
      info[FIRST] := initHeader;
      info[LAST - 1] := initHeader;
      list := new FreeList(initHeader, Header(0, 0, 4096 * (LAST - FIRST), Addr(FIRST)));
      heapInfo := info;
      blocks := [Block(FIRST, LAST - FIRST, initHeader)];
      new;
      assert Elems(list.order) == {initHeader};
      HeaderOfBlock(blocks, 0);
      assert FreeHeaders(blocks) == {initHeader};
    }

    lemma Parts()
      ensures Sound() <==> heapInfo.Length == TAGS && list.ListOk() && BlocksAre(blocks, list.nodes, list.order)
      ensures Valid() <==>
                && heapInfo.Length == TAGS && list.ListOk() && HeapIs(blocks, heapInfo[..], list.nodes, list.order)
      ensures Sound() ==> (Valid() <==> Tagged(blocks, heapInfo[..]))
    {
      hide BlocksAre, Tagged, FreeList.ListOk;
    }

    method SetHeapinfo(adr: int, value: int)
      requires heapInfo.Length == TAGS && KERNEL_REGION <= adr < Addr(TAGS)
      modifies heapInfo
      ensures heapInfo[..] == old(heapInfo[..])[(adr - KERNEL_REGION) / 4096 := value]
    {
      heapInfo[(adr - KERNEL_REGION) / 4096] := value;
    }

    /**
     vregion_alloc. A size that rounds to 0 is served too: with the address of the first listed block, which
     stays free, and with the damage to the tags that ZeroPagesTags states.
     */
    method VregionAlloc(size0: word) returns (region: int, ghost i: nat)
      requires Valid() && list.order != []
      modifies this, heapInfo, list
      ensures Sound() && list.nodes.Keys == old(list.nodes.Keys) && 0 <= region < WORD
      ensures region == 0 ==>
                Valid() && blocks == old(blocks) && list.nodes == old(list.nodes) && list.order == old(list.order)
      ensures region == 0 ==>
                forall j :: 0 <= j < |blocks| && blocks[j].IsFree() ==> 4096 * blocks[j].pages < size0
      ensures region != 0 ==>
                && BestFit(old(blocks), i, Rounded(size0) / 4096) && region == Addr(old(blocks)[i].start)
                && blocks == Taken(old(blocks), i, Rounded(size0) / 4096)
                && i < |blocks| && (Rounded(size0) != 0 <==> !blocks[i].IsFree())
                && old(blocks)[i].header in list.nodes
                && (old(blocks)[i].header in list.order <==> old(blocks)[i].pages != Rounded(size0) / 4096)
      ensures region != 0 && Rounded(size0) != 0 ==> Valid()
      ensures Rounded(size0) == 0 ==>
                && region != 0 && blocks[i].header == old(list.order[0]) && list.order == old(list.order)
                && InTags(blocks[i]) && heapInfo[..] == CarveTags(old(heapInfo[..]), blocks[i], 0)
                && (Valid() <==> !PageBefore(blocks, i))
    {
      hide BlocksAre, Tagged;
      var size := Rounded(size0);
      ghost var n, k := size / 4096, 0;
      var header := list.headers;
      FirstIsHead(list.nodes, list.headers, list.order);
      while list.nodes[header].size < size
        invariant Valid() && blocks == old(blocks) && list.nodes == old(list.nodes) && list.order == old(list.order)
        invariant heapInfo[..] == old(heapInfo[..])
        invariant 0 <= k < |list.order| && header == list.order[k] && (size == 0 ==> k == 0)
        invariant forall m :: 0 <= m < k ==> list.nodes[list.order[m]].size < size
        decreases |list.order| - k
      {
        NotSmaller(list.nodes, list.headers, list.order, blocks, k);
        assert LinkAt(list.nodes, list.order, k);
        assert k + 1 < |list.order| ==> LinkAt(list.nodes, list.order, k + 1);
        if list.nodes[header].next == 0 {
          NoneFits(blocks, list.nodes, list.headers, list.order, n);
          return 0, 0;
        }
        header := list.nodes[header].next;
        k := k + 1;
      }
      NotSmaller(list.nodes, list.headers, list.order, blocks, k);
      i := FirstThatFits(blocks, list.nodes, list.headers, list.order, k, n);
      ghost var bs, nodes0, order0 := blocks, list.nodes, list.order;
      region := TakeFrom(header, size, k, i);
      HeaderStays(bs, nodes0, order0, list.nodes, list.order, i, n);
    }

    /** vheap.c:113-142: carve the region from the block of a header in the list. */
    method TakeFrom(header: int, size: int, ghost k: nat, ghost i: nat) returns (region: int)
      requires Valid() && k < |list.order| && header == list.order[k] && (size == 0 ==> k == 0)
      requires i < |blocks| && blocks[i].IsFree() && blocks[i].header == header
      requires size % 4096 == 0 && 0 <= size <= 4096 * blocks[i].pages
      modifies this, heapInfo, list
      ensures Sound() && list.nodes.Keys == old(list.nodes.Keys)
      ensures region == Addr(old(blocks)[i].start) && 0 < region < WORD
      ensures blocks == Taken(old(blocks), i, size / 4096)
      ensures size != 0 ==> Valid()
      ensures size == 0 ==>
                && list.order == old(list.order) && InTags(blocks[i])
                && heapInfo[..] == CarveTags(old(heapInfo[..]), blocks[i], 0)
                && (Valid() <==> !PageBefore(blocks, i))
    {
      Parts();
      hide VirtualHeap.Sound, VirtualHeap.Valid, HeapIs, BlocksAre, ListIs, Carve, Position, InsertAt, RemoveAt, Elems;
      hide Sorted, AllIn, Reinserted, SameContents, Tagged;
      ghost var n, b, nodes0, order0, tags0 := size / 4096, blocks[i], list.nodes, list.order, heapInfo[..];
      BlockFacts(blocks, tags0, nodes0, list.headers, order0, i, k);
      Ordered(nodes0, list.headers, order0);
      region := Detach(header, size, k, b);
      ghost var nodes1 := list.nodes;
      PutBack(header, b.start + n, b.pages - n);
      if size == 0 {
        FrontAgain(nodes0, order0, nodes1);
      }
      SameSizes(nodes1, list.nodes);
      assert heapInfo[..] == CarveTags(tags0, b, n);
      TakenKeeps(blocks, tags0, nodes0, order0, list.nodes, list.order, i, n);
      blocks := Taken(blocks, i, n);
      Parts();
    }

    /** vheap.c:113-126: the header leaves the list, the region is tagged as used, the header describes the rest. */
    method Detach(header: int, size: int, ghost k: nat, ghost b: Block) returns (region: int)
      requires heapInfo.Length == TAGS && list.ListOk() && k < |list.order| && header == list.order[k] && header != 0
      requires header in list.nodes && HeaderOk(list.nodes, b) && b.header == header && InTags(b)
      requires header !in RemoveAt(list.order, k) && size % 4096 == 0 && 0 <= size <= 4096 * b.pages
      modifies heapInfo, list
      ensures list.ListOk() && list.order == RemoveAt(old(list.order), k)
      ensures Elems(list.order) == Elems(old(list.order)) - {header}
      ensures list.nodes.Keys == old(list.nodes).Keys
      ensures HeaderOk(list.nodes, Block(b.start + size / 4096, b.pages - size / 4096, header))
      ensures forall g :: g in old(list.nodes) && g != header ==>
                list.nodes[g].size == old(list.nodes)[g].size && list.nodes[g].region == old(list.nodes)[g].region
      ensures heapInfo[..] == old(heapInfo[..])[b.start + size / 4096 - 1 := 0][b.start := size]
      ensures region == Addr(b.start) && 0 < region < WORD
    {
      hide ListIs, RemoveAt, Elems, SameContents;
      ghost var nodes0 := list.nodes;
      list.RemoveOrderedList(header, k);
      ghost var nodes1 := list.nodes;
      SameAt(nodes0, nodes1, header);
      SetHeapinfo(list.nodes[header].region + size - 4096, 0);
      SetHeapinfo(list.nodes[header].region, size);
      region := list.nodes[header].region;
      list.Resize(header, region + size, list.nodes[header].size - size);
      TakenContents(nodes0, nodes1, list.nodes, list.nodes, header);
    }

    /**
     vregion_free. kmalloc has placed the new header at newHeader; kfree of a merged header takes it out of
     the nodes.
     */
    method VregionFree(region: int, newHeader: int, ghost i: nat)
      requires Valid() && i < |blocks| && !blocks[i].IsFree() && region == Addr(blocks[i].start)
      requires newHeader !in list.nodes && KERNEL_REGION < newHeader < WORD
      modifies this, heapInfo, list
      ensures Valid() && blocks == Release(old(blocks), i, newHeader)
      ensures list.nodes.Keys == old(list.nodes.Keys) - Merged(old(blocks), i) + {newHeader}
    {
      Parts();
      hide VirtualHeap.Sound, VirtualHeap.Valid, HeapIs, ListIs, Release, Elems, InsertAt, Position, RemoveAt;
      ghost var bs, tags0, nodes0, order0 := blocks, heapInfo[..], list.nodes, list.order;
      ghost var l, r := Left(blocks, i), Right(blocks, i);
      FreedBlockFacts(bs, tags0, nodes0, list.headers, order0, i);
      var size := heapInfo[(region - KERNEL_REGION) / 4096];
      var newRegion, newSize := MergeNeighbours(region, size, i);
      list.Add(newHeader, newRegion, newSize);
      TagEnds(newRegion, newSize, newHeader, Block(bs[l].start, bs[r].End() - bs[l].start, newHeader));
      ReleaseKeeps(bs, tags0, nodes0, order0, list.nodes, list.order, i, newHeader);
      blocks := Release(blocks, i, newHeader);
      Parts();
    }

    /** vheap.c:188-189: the first and the last page of the free region. */
    method TagEnds(region: int, size: int, header: int, ghost b: Block)
      requires heapInfo.Length == TAGS && InTags(b) && b.header == header
      requires region == Addr(b.start) && size == 4096 * b.pages
      modifies heapInfo
      ensures heapInfo[..] == ReleaseTags(old(heapInfo[..]), b)
    {
      SetHeapinfo(region, header);
      SetHeapinfo(region + size - 4096, header);
    }

    /** vheap.c:163-184: free neighbours leave the list and enlarge the region. */
    method MergeNeighbours(region: int, size: int, ghost i: nat) returns (newRegion: int, newSize: int)
      requires Valid() && i < |blocks| && !blocks[i].IsFree() && region == Addr(blocks[i].start)
      requires size == 4096 * blocks[i].pages
      modifies list
      ensures list.ListOk() && Elems(list.order) == Elems(old(list.order)) - Merged(blocks, i)
      ensures list.nodes.Keys == old(list.nodes.Keys) - Merged(blocks, i)
      ensures forall g :: g in list.nodes ==>
                list.nodes[g].size == old(list.nodes)[g].size && list.nodes[g].region == old(list.nodes)[g].region
      ensures newRegion == Addr(blocks[Left(blocks, i)].start)
      ensures newSize == 4096 * (blocks[Right(blocks, i)].End() - blocks[Left(blocks, i)].start)
    {
      Parts();
      hide VirtualHeap.Sound, VirtualHeap.Valid, HeapIs, ListIs, Elems;
      FreedBlockFacts(blocks, heapInfo[..], list.nodes, list.headers, list.order, i);
      var start := (region - KERNEL_REGION) / 4096;
      var end := start + size / 4096 - 1;
      newRegion, newSize := region, size;
      if region > 0xF000_0000 && heapInfo[start - 1] > KERNEL_REGION {
        var prevHeader := heapInfo[start - 1];
        newRegion := list.nodes[prevHeader].region;
        newSize := newSize + list.nodes[prevHeader].size;
        TakeOut(prevHeader);
      }
      if region + size < 0xFFBF_0000 && heapInfo[end + 1] > KERNEL_REGION {
        var nextHeader := heapInfo[end + 1];
        newSize := newSize + list.nodes[nextHeader].size;
        TakeOut(nextHeader);
      }
    }

    /** remove_ordered_list(header) and kfree(header). */
    method TakeOut(header: int)
      requires list.ListOk() && header in Elems(list.order) && header in list.nodes
      modifies list
      ensures list.ListOk() && Elems(list.order) == Elems(old(list.order)) - {header}
      ensures list.nodes.Keys == old(list.nodes.Keys) - {header}
      ensures forall g :: g in list.nodes ==>
                list.nodes[g].size == old(list.nodes)[g].size && list.nodes[g].region == old(list.nodes)[g].region
    {
      ghost var k :| 0 <= k < |list.order| && list.order[k] == header;
      list.RemoveOrderedList(header, k);
      list.Drop(header);
    }

    /** vheap.c:128-140: the rest of the block goes back into the list. */
    method PutBack(header: int, ghost start: int, ghost pages: int)
      requires heapInfo.Length == TAGS && list.ListOk() && header in list.nodes && header !in list.order && header != 0
      requires list.nodes[header].region == Addr(start) && list.nodes[header].size == 4096 * pages
      requires FIRST <= start && 0 <= pages && start + pages <= LAST
      modifies list, heapInfo
      ensures list.ListOk()
      ensures pages != 0 ==> list.order == Reinserted(old(list.nodes), old(list.order), header)
      ensures pages == 0 ==>
                && list.nodes == old(list.nodes) && list.order == old(list.order) && heapInfo[..] == old(heapInfo[..])
      ensures pages != 0 ==>
                && SameContents(old(list.nodes), list.nodes) && HeaderOk(list.nodes, Block(start, pages, header))
                && Elems(list.order) == Elems(old(list.order)) + {header}
                && heapInfo[..] == old(heapInfo[..])[start := header][start + pages - 1 := header]
    {
      Ordered(list.nodes, list.headers, list.order);
      hide ListIs, Elems, InsertAt, Position;
      if list.nodes[header].size != 0 {
        list.InsertOrderedList(header);
        SetHeapinfo(list.nodes[header].region, header);
        SetHeapinfo(list.nodes[header].region + list.nodes[header].size - 4096, header);
      }
    }
  }

  /** What the tags around a used block tell vregion_free. */
  lemma FreedBlockFacts(bs: Blocks, tags: seq<int>, nodes: Headers, head: int, order: seq<int>, i: nat)
    requires HeapIs(bs, tags, nodes, order) && ListIs(nodes, head, order) && i < |bs| && !bs[i].IsFree()
    ensures InTags(bs[i]) && |tags| == TAGS && tags[bs[i].start] == 4096 * bs[i].pages
    ensures bs[i].start > FIRST && tags[bs[i].start - 1] > KERNEL_REGION <==> Left(bs, i) < i
    ensures bs[i].End() < LAST && tags[bs[i].End()] > KERNEL_REGION <==> Right(bs, i) > i
    ensures Left(bs, i) < i ==> tags[bs[i].start - 1] == bs[i - 1].header && Listed(bs[i - 1], nodes, order)
                                && bs[i - 1].End() == bs[i].start
    ensures Right(bs, i) > i ==> tags[bs[i].End()] == bs[i + 1].header && Listed(bs[i + 1], nodes, order)
                                 && bs[i + 1].start == bs[i].End()
    ensures Left(bs, i) < i && Right(bs, i) > i ==> bs[i - 1].header != bs[i + 1].header
    ensures FIRST <= bs[Left(bs, i)].start <= bs[i].start && bs[i].End() <= bs[Right(bs, i)].End() <= LAST
  {
    TiledBounds(bs, FIRST, LAST, i);
    TiledBounds(bs, FIRST, LAST, Left(bs, i));
    TiledBounds(bs, FIRST, LAST, Right(bs, i));
    NeighbourTags(bs, tags, i);
    assert TagOk(tags, bs[i]);
    if i > 0 && bs[i - 1].IsFree() {
      HeaderOfBlock(bs, i - 1);
      assert HeaderOk(nodes, bs[i - 1]);
    }
    if i + 1 < |bs| && bs[i + 1].IsFree() {
      HeaderOfBlock(bs, i + 1);
      assert HeaderOk(nodes, bs[i + 1]);
    }
  }

  /** A free block whose header is in the list. */
  ghost predicate Listed(b: Block, nodes: Headers, order: seq<int>) {
    b.IsFree() && HeaderOk(nodes, b) && b.header in Elems(order)
  }

  lemma ReleaseKeeps(bs: Blocks, tags: seq<int>, nodes: Headers, order: seq<int>, nodes': Headers,
      order': seq<int>, i: nat, h: int)
    requires HeapIs(bs, tags, nodes, order) && i < |bs| && !bs[i].IsFree()
    requires h !in nodes && h > KERNEL_REGION
    requires forall g :: g in nodes && g !in Merged(bs, i) ==>
               g in nodes' && nodes'[g].size == nodes[g].size && nodes'[g].region == nodes[g].region
    requires var l, r := Left(bs, i), Right(bs, i);
             HeaderOk(nodes', Block(bs[l].start, bs[r].End() - bs[l].start, h))
    requires Elems(order') == Elems(order) - Merged(bs, i) + {h}
    ensures var b := Block(bs[Left(bs, i)].start, bs[Right(bs, i)].End() - bs[Left(bs, i)].start, h);
            InTags(b) && HeapIs(Release(bs, i, h), ReleaseTags(tags, b), nodes', order')
  {
    forall j | 0 <= j < |bs| ensures bs[j].header != h {
      assert bs[j].IsFree() ==> HeaderOk(nodes, bs[j]);
    }
    ReleaseTiled(bs, FIRST, LAST, i, h);
    ReleaseCoalesced(bs, i, h);
    ReleaseTagged(bs, tags, i, h);
    ReleaseSize(bs, i, h);
    ReleaseAt(bs, i, h, Left(bs, i));
    ReleaseDescribed(bs, nodes, nodes', i, h);
    ReleaseHeaders(bs, i, h);
  }

  lemma Ordered(nodes: Headers, head: int, order: seq<int>)
    requires ListIs(nodes, head, order)
    ensures AllIn(nodes, order) && Sorted(nodes, order)
  {
  }

  lemma SameSizes(a: Headers, b: Headers)
    requires a == b || SameContents(a, b)
    ensures a.Keys == b.Keys && forall g :: g in a ==> b[g].size == a[g].size && b[g].region == a[g].region
  {
  }

  lemma FirstIsHead(nodes: Headers, head: int, order: seq<int>)
    requires ListIs(nodes, head, order) && order != []
    ensures head == order[0]
  {
  }

  lemma NotSmaller(nodes: Headers, head: int, order: seq<int>, bs: Blocks, k: nat)
    requires ListIs(nodes, head, order) && BlocksAre(bs, nodes, order) && k < |order|
    ensures order[k] in nodes && nodes[order[k]].size > 0
  {
    assert order[k] in Elems(order);
    var i := BlockOfHeader(bs, order[k]);
  }

  /** The first header, taken out and put back with its size unchanged, is the first again. */
  lemma FrontAgain(nodes: Headers, order: seq<int>, nodes': Headers)
    requires order != [] && AllIn(nodes, order) && Sorted(nodes, order) && nodes'.Keys == nodes.Keys
    requires forall g :: g in nodes ==> nodes'[g].size == nodes[g].size
    ensures Reinserted(nodes', RemoveAt(order, 0), order[0]) == order
  {
    var rest, h := RemoveAt(order, 0), order[0];
    assert rest == order[1..] && h in nodes';
    if rest != [] {
      var g := order[1];
      assert rest[0] == g && g in nodes && nodes[h].size <= nodes[g].size;
      assert nodes'[g].size == nodes[g].size;
    }
    forall i | 0 <= i < |rest| ensures rest[i] in nodes' {
      assert rest[i] == order[i + 1];
    }
    assert InsertAt(rest, 0, h) == order;
  }

  /**
   The header of the block a region was taken from stays in memory; a block used up exactly leaves it in no
   list and with no block, and it is never given back.
   */
  lemma HeaderStays(bs: Blocks, nodes: Headers, order: seq<int>, nodes': Headers, order': seq<int>, i: nat, n: int)
    requires BlocksAre(bs, nodes, order) && i < |bs| && bs[i].IsFree() && 0 <= n <= bs[i].pages
    requires BlocksAre(Taken(bs, i, n), nodes', order') && nodes'.Keys == nodes.Keys
    ensures bs[i].header in nodes' && (bs[i].header in order' <==> bs[i].pages != n)
  {
    hide Carve, Coalesced;
    HeaderOfBlock(bs, i);
    if n > 0 {
      CarveHeaders(bs, i, n);
    }
    assert bs[i].header in order' <==> bs[i].header in Elems(order');
  }

  lemma NothingCarved(bs: Blocks, tags: seq<int>, nodes: Headers, order: seq<int>, nodes': Headers, order': seq<int>,
      i: nat)
    requires HeapIs(bs, tags, nodes, order) && i < |bs| && bs[i].IsFree() && nodes'.Keys == nodes.Keys
    requires forall g :: g in nodes && g != bs[i].header ==>
               nodes'[g].size == nodes[g].size && nodes'[g].region == nodes[g].region
    requires HeaderOk(nodes', bs[i]) && Elems(order') == Elems(order)
    ensures InTags(bs[i]) && BlocksAre(bs, nodes', order')
    ensures Tagged(bs, CarveTags(tags, bs[i], 0)) <==> !PageBefore(bs, i)
  {
    ZeroPagesTags(bs, tags, i);
    assert InTags(bs[i]);
    forall j | 0 <= j < |bs| && bs[j].IsFree() ensures HeaderOk(nodes', bs[j]) {
      assert HeaderOk(nodes, bs[j]);
    }
  }

  lemma TakenKeeps(bs: Blocks, tags: seq<int>, nodes: Headers, order: seq<int>, nodes': Headers, order': seq<int>,
      i: nat, n: int)
    requires HeapIs(bs, tags, nodes, order) && i < |bs| && bs[i].IsFree() && 0 <= n <= bs[i].pages
    requires nodes'.Keys == nodes.Keys
    requires forall g :: g in nodes && g != bs[i].header ==>
               nodes'[g].size == nodes[g].size && nodes'[g].region == nodes[g].region
    requires bs[i].pages != n ==> HeaderOk(nodes', Block(bs[i].start + n, bs[i].pages - n, bs[i].header))
    requires Elems(order') == Elems(order) - if bs[i].pages == n then {bs[i].header} else {}
    ensures InTags(bs[i]) && BlocksAre(Taken(bs, i, n), nodes', order')
    ensures n != 0 ==> Tagged(Taken(bs, i, n), CarveTags(tags, bs[i], n))
    ensures n == 0 ==> (Tagged(bs, CarveTags(tags, bs[i], n)) <==> !PageBefore(bs, i))
  {
    if n == 0 {
      NothingCarved(bs, tags, nodes, order, nodes', order', i);
    } else {
      CarveKeeps(bs, tags, nodes, order, nodes', order', i, n);
    }
  }

  lemma BlockFacts(bs: Blocks, tags: seq<int>, nodes: Headers, head: int, order: seq<int>, i: nat, k: nat)
    requires HeapIs(bs, tags, nodes, order) && ListIs(nodes, head, order)
    requires i < |bs| && bs[i].IsFree() && k < |order| && order[k] == bs[i].header
    ensures HeaderOk(nodes, bs[i]) && InTags(bs[i]) && TagOk(tags, bs[i])
    ensures order[k] in Elems(order) && order[k] !in RemoveAt(order, k)
  {
    ElemsRemove(order, k);
    assert order[k] !in Elems(RemoveAt(order, k));
  }

  lemma SameAt(a: Headers, b: Headers, h: int)
    requires SameContents(a, b) && h in a
    ensures h in b && b[h].size == a[h].size && b[h].region == a[h].region
  {
  }

  /** Only the header taken changes its region and size. */
  lemma TakenContents(a: Headers, b: Headers, c: Headers, d: Headers, h: int)
    requires SameContents(a, b) && h in b && (c == d || SameContents(c, d))
    requires exists r, s :: c == b[h := b[h].(region := r, size := s)]
    ensures d.Keys == a.Keys
    ensures forall g :: g in a && g != h ==> d[g].size == a[g].size && d[g].region == a[g].region
  {
  }

  lemma CarveKeeps(bs: Blocks, tags: seq<int>, nodes: Headers, order: seq<int>, nodes': Headers, order': seq<int>,
      i: nat, n: int)
    requires HeapIs(bs, tags, nodes, order) && i < |bs| && bs[i].IsFree() && 0 < n <= bs[i].pages
    requires nodes'.Keys == nodes.Keys
    requires forall g :: g in nodes && g != bs[i].header ==>
               nodes'[g].size == nodes[g].size && nodes'[g].region == nodes[g].region
    requires bs[i].pages != n ==> HeaderOk(nodes', Block(bs[i].start + n, bs[i].pages - n, bs[i].header))
    requires Elems(order') == Elems(order) - if bs[i].pages == n then {bs[i].header} else {}
    ensures InTags(bs[i]) && HeapIs(Carve(bs, i, n), CarveTags(tags, bs[i], n), nodes', order')
  {
    CarveTiled(bs, FIRST, LAST, i, n);
    CarveCoalesced(bs, i, n);
    CarveTagged(bs, tags, i, n);
    CarveDescribed(bs, nodes, nodes', i, n);
    CarveHeaders(bs, i, n);
  }
}
