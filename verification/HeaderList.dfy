/**
 The list of free regions of kernel/modules/memory/vheap.c: headers in kernel memory, addressed by number,
 linked both ways and ordered by size. Address 0 is NULL.
 */
module HeaderList {

  import opened Seqs

  datatype Header = Header(next: int, prev: int, size: int, region: int)

  type Headers = map<int, Header>

  /** The header at position i of the list is linked to its neighbours. */
  ghost predicate LinkAt(nodes: Headers, order: seq<int>, i: int)
    requires 0 <= i < |order|
  {
    && order[i] in nodes && order[i] != 0
    && nodes[order[i]].next == (if i + 1 < |order| then order[i + 1] else 0)
    && nodes[order[i]].prev == (if i > 0 then order[i - 1] else 0)
  }

  /** The headers reachable from head, in this order, linked both ways. */
  ghost predicate Linked(nodes: Headers, head: int, order: seq<int>) {
    head == First(order) && Distinct(order) && forall i :: 0 <= i < |order| ==> LinkAt(nodes, order, i)
  }

  /** Following next from head meets exactly these headers; nothing is said about prev. */
  ghost predicate Reads(nodes: Headers, head: int, order: seq<int>) {
    head == First(order) && forall i :: 0 <= i < |order| ==> NextAt(nodes, order, i)
  }

  ghost predicate NextAt(nodes: Headers, order: seq<int>, i: int)
    requires 0 <= i < |order|
  {
    && order[i] in nodes && order[i] != 0
    && nodes[order[i]].next == if i + 1 < |order| then order[i + 1] else 0
  }

  ghost predicate Sorted(nodes: Headers, order: seq<int>)
    requires forall i :: 0 <= i < |order| ==> order[i] in nodes
  {
    forall i, j :: 0 <= i < j < |order| ==> nodes[order[i]].size <= nodes[order[j]].size
  }

  /** What the list means to do: the item goes before the first header that is not smaller. */
  function Position(nodes: Headers, order: seq<int>, size: int): (k: nat)
    requires forall i :: 0 <= i < |order| ==> order[i] in nodes
    ensures k <= |order|
    ensures forall i :: 0 <= i < k ==> nodes[order[i]].size < size
    ensures k < |order| ==> nodes[order[k]].size >= size
  {
    if order == [] || nodes[order[0]].size >= size then 0 else 1 + Position(nodes, order[1..], size)
  }

  lemma LinkedReads(nodes: Headers, head: int, order: seq<int>)
    requires Linked(nodes, head, order)
    ensures Reads(nodes, head, order)
  {
    forall i | 0 <= i < |order| ensures NextAt(nodes, order, i) {
      assert LinkAt(nodes, order, i);
    }
  }

  /** A list read from its head is determined by the head: two readings agree. */
  lemma {:induction false} ReadsUnique(nodes: Headers, head: int, a: seq<int>, b: seq<int>)
    requires Reads(nodes, head, a) && Reads(nodes, head, b)
    ensures a == b
    decreases |a|
  {
    assert a != [] ==> NextAt(nodes, a, 0);
    assert b != [] ==> NextAt(nodes, b, 0);
    if a != [] && b != [] {
      var next := nodes[head].next;
      ReadsTail(nodes, head, a);
      ReadsTail(nodes, head, b);
      ReadsUnique(nodes, next, a[1..], b[1..]);
      assert a == [a[0]] + a[1..] && b == [b[0]] + b[1..];
    }
  }

  lemma ReadsTail(nodes: Headers, head: int, order: seq<int>)
    requires Reads(nodes, head, order) && order != [] && head in nodes
    ensures Reads(nodes, nodes[head].next, order[1..])
  {
    var tail := order[1..];
    assert NextAt(nodes, order, 0);
    forall i | 0 <= i < |tail| ensures NextAt(nodes, tail, i) {
      assert NextAt(nodes, order, i + 1);
    }
  }

  // ---- effect of the pointer writes ----

  /** The nodes after insert_ordered_list has linked item in before position k. */
  function Spliced(nodes: Headers, order: seq<int>, k: nat, item: int): Headers
    requires k <= |order| && item in nodes && forall i :: 0 <= i < |order| ==> order[i] in nodes
  {
    var n := if k < |order| then order[k] else 0;
    var p := if k > 0 then order[k - 1] else 0;
    var a := nodes[item := nodes[item].(next := n, prev := p)];
    var b := if p != 0 && p in a then a[p := a[p].(next := item)] else a;
    if n != 0 && n in b then b[n := b[n].(prev := item)] else b
  }

  lemma SplicedLinked(nodes: Headers, head: int, order: seq<int>, k: nat, item: int)
    requires Linked(nodes, head, order) && k <= |order| && item in nodes && item != 0 && item !in order
    requires forall i :: 0 <= i < |order| ==> order[i] in nodes
    ensures Linked(Spliced(nodes, order, k, item), if k == 0 then item else head, InsertAt(order, k, item))
  {
    var r, m := InsertAt(order, k, item), Spliced(nodes, order, k, item);
    assert forall i :: 0 <= i < |order| ==> LinkAt(nodes, order, i);
    forall i | 0 <= i < |r| ensures LinkAt(m, r, i) {
      if i < k {
        assert r[i] == order[i] && LinkAt(nodes, order, i);
      } else if i > k {
        assert r[i] == order[i - 1] && LinkAt(nodes, order, i - 1);
      }
    }
  }

  /** The nodes after remove_ordered_list has unlinked the header at position k. */
  function Unspliced(nodes: Headers, order: seq<int>, k: nat): Headers
    requires k < |order| && forall i :: 0 <= i < |order| ==> order[i] in nodes
  {
    var n := if k + 1 < |order| then order[k + 1] else 0;
    var p := if k > 0 then order[k - 1] else 0;
    var a := if p != 0 && p in nodes then nodes[p := nodes[p].(next := n)] else nodes;
    if n != 0 && n in a then a[n := a[n].(prev := p)] else a
  }

  lemma UnsplicedLinked(nodes: Headers, head: int, order: seq<int>, k: nat)
    requires Linked(nodes, head, order) && k < |order|
    requires forall i :: 0 <= i < |order| ==> order[i] in nodes
    ensures Linked(Unspliced(nodes, order, k), First(RemoveAt(order, k)), RemoveAt(order, k))
  {
    var r, m := RemoveAt(order, k), Unspliced(nodes, order, k);
    forall i | 0 <= i < |r| ensures LinkAt(m, r, i) {
      if i < k {
        assert r[i] == order[i] && LinkAt(nodes, order, i);
      } else {
        assert r[i] == order[i + 1] && LinkAt(nodes, order, i + 1);
      }
    }
  }

  // ---- what the pointer writes leave alone, and the order they keep ----

  /** The same headers, with the same regions and sizes. */
  ghost predicate SameContents(a: Headers, b: Headers) {
    a.Keys == b.Keys && forall h :: h in a ==> a[h].size == b[h].size && a[h].region == b[h].region
  }

  lemma SplicedKeeps(nodes: Headers, order: seq<int>, k: nat, item: int)
    requires k <= |order| && item in nodes && forall i :: 0 <= i < |order| ==> order[i] in nodes
    ensures SameContents(nodes, Spliced(nodes, order, k, item))
  {
  }

  lemma UnsplicedKeeps(nodes: Headers, order: seq<int>, k: nat)
    requires k < |order| && forall i :: 0 <= i < |order| ==> order[i] in nodes
    ensures SameContents(nodes, Unspliced(nodes, order, k))
  {
  }

  lemma SortedInsert(nodes: Headers, order: seq<int>, item: int)
    requires item in nodes && (forall i :: 0 <= i < |order| ==> order[i] in nodes) && Sorted(nodes, order)
    ensures var r := InsertAt(order, Position(nodes, order, nodes[item].size), item);
            (forall i :: 0 <= i < |r| ==> r[i] in nodes) && Sorted(nodes, r)
  {
    var k := Position(nodes, order, nodes[item].size);
    var r := InsertAt(order, k, item);
    forall i | 0 <= i < |r|
      ensures i < k ==> r[i] == order[i]
      ensures i > k ==> r[i] == order[i - 1]
      ensures r[i] in nodes
    {
    }
    forall i, j | 0 <= i < j < |r| ensures nodes[r[i]].size <= nodes[r[j]].size {
      if j > k && k < |order| {
        assert nodes[order[k]].size <= nodes[order[j - 1]].size;
      }
    }
  }

  lemma SortedRemove(nodes: Headers, order: seq<int>, k: nat)
    requires k < |order| && (forall i :: 0 <= i < |order| ==> order[i] in nodes) && Sorted(nodes, order)
    ensures var r := RemoveAt(order, k);
            (forall i :: 0 <= i < |r| ==> r[i] in nodes) && Sorted(nodes, r)
  {
    var r := RemoveAt(order, k);
    assert forall i :: 0 <= i < |r| ==> r[i] == if i < k then order[i] else order[i + 1];
  }

  lemma SortedKept(a: Headers, b: Headers, order: seq<int>)
    requires (forall i :: 0 <= i < |order| ==> order[i] in a) && Sorted(a, order)
    requires forall i :: 0 <= i < |order| ==> order[i] in b && b[order[i]].size == a[order[i]].size
    ensures Sorted(b, order)
  {
  }

  function Elems(order: seq<int>): set<int> {
    set h | h in order
  }

  lemma ElemsInsert(order: seq<int>, k: nat, item: int)
    requires k <= |order|
    ensures Elems(InsertAt(order, k, item)) == Elems(order) + {item}
  {
    assert order == order[..k] + order[k..];
  }

  lemma ElemsRemove(order: seq<int>, k: nat)
    requires k < |order| && Distinct(order)
    ensures Elems(RemoveAt(order, k)) == Elems(order) - {order[k]}
  {
    var r := RemoveAt(order, k);
    assert order == order[..k] + [order[k]] + order[k + 1..];
    forall i | 0 <= i < |r| ensures r[i] != order[k] {
      assert r[i] == if i < k then order[i] else order[i + 1];
    }
  }

  ghost predicate AllIn(nodes: Headers, order: seq<int>) {
    forall i :: 0 <= i < |order| ==> order[i] in nodes
  }

  /** head leads to a well-linked list of these headers, ordered by size. */
  ghost predicate ListIs(nodes: Headers, head: int, order: seq<int>) {
    Linked(nodes, head, order) && AllIn(nodes, order) && Sorted(nodes, order)
  }

  lemma SplicedList(nodes: Headers, head: int, order: seq<int>, item: int)
    requires ListIs(nodes, head, order) && item in nodes && item != 0 && item !in order
    ensures var k := Position(nodes, order, nodes[item].size);
            && ListIs(Spliced(nodes, order, k, item), if k == 0 then item else head, InsertAt(order, k, item))
            && SameContents(nodes, Spliced(nodes, order, k, item))
  {
    var k := Position(nodes, order, nodes[item].size);
    SplicedLinked(nodes, head, order, k, item);
    SplicedKeeps(nodes, order, k, item);
    SortedInsert(nodes, order, item);
    SortedKept(nodes, Spliced(nodes, order, k, item), InsertAt(order, k, item));
  }

  lemma UnsplicedList(nodes: Headers, head: int, order: seq<int>, k: nat)
    requires ListIs(nodes, head, order) && k < |order|
    ensures ListIs(Unspliced(nodes, order, k), First(RemoveAt(order, k)), RemoveAt(order, k))
    ensures SameContents(nodes, Unspliced(nodes, order, k))
  {
    UnsplicedLinked(nodes, head, order, k);
    UnsplicedKeeps(nodes, order, k);
    SortedRemove(nodes, order, k);
    SortedKept(nodes, Unspliced(nodes, order, k), RemoveAt(order, k));
  }

  // ---- the list of vheap.c ----

  class FreeList {
    var nodes: Headers
    var headers: int
    ghost var order: seq<int>

    constructor (node: int, header: Header)
      requires node != 0 && header.next == 0 && header.prev == 0
      ensures ListOk() && nodes == map[node := header] && order == [node]
    {
      nodes, headers, order := map[node := header], node, [node];
    }

    ghost predicate ListOk()
      reads this
    {
      ListIs(nodes, headers, order)
    }

    /** Writing region and size of a header that is not in the list. */
    method Resize(item: int, region: int, size: int)
      requires ListOk() && item in nodes && item !in order
      modifies `nodes
      ensures ListOk() && nodes == old(nodes)[item := old(nodes)[item].(region := region, size := size)]
    {
      ghost var before := nodes;
      nodes := nodes[item := nodes[item].(region := region, size := size)];
      forall i | 0 <= i < |order| ensures LinkAt(nodes, order, i) {
        assert LinkAt(before, order, i);
      }
      SortedKept(before, nodes, order);
    }

    /** kfree of a header that is not in the list. */
    method Drop(item: int)
      requires ListOk() && item !in Elems(order)
      modifies `nodes
      ensures ListOk() && nodes == old(nodes) - {item}
    {
      ghost var before := nodes;
      nodes := nodes - {item};
      forall i | 0 <= i < |order| ensures LinkAt(nodes, order, i) {
        assert order[i] in Elems(order);
        assert LinkAt(before, order, i);
      }
      SortedKept(before, nodes, order);
    }

    /** Fill in a header that kmalloc has just placed. */
    method Write(item: int, region: int, size: int)
      requires ListOk() && item !in nodes && item != 0
      modifies `nodes
      ensures ListOk() && item !in order && nodes == old(nodes)[item := Header(0, 0, size, region)]
    {
      ghost var before := nodes;
      nodes := nodes[item := Header(0, 0, size, region)];
      forall i | 0 <= i < |order| ensures LinkAt(nodes, order, i) && order[i] != item {
        assert LinkAt(before, order, i);
      }
      SortedKept(before, nodes, order);
    }

    /** The same, and insert it. */
    method Add(item: int, region: int, size: int)
      requires ListOk() && item !in nodes && item != 0
      modifies this
      ensures ListOk() && Elems(order) == Elems(old(order)) + {item}
      ensures nodes.Keys == old(nodes.Keys) + {item} && nodes[item].size == size && nodes[item].region == region
      ensures forall g :: g in old(nodes) ==>
                nodes[g].size == old(nodes)[g].size && nodes[g].region == old(nodes)[g].region
    {
      Write(item, region, size);
      InsertOrderedList(item);
    }

    /** insert_ordered_list; the marked line is not in the source, see InsertAsWritten. */
    method InsertOrderedList(item: int)
      requires ListOk() && item in nodes && item != 0 && item !in order
      modifies this
      ensures ListOk()
      ensures order == InsertAt(old(order), Position(old(nodes), old(order), old(nodes)[item].size), item)
      ensures Elems(order) == Elems(old(order)) + {item}
      ensures SameContents(old(nodes), nodes)
    {
      hide Sorted, Distinct, SameContents, Elems;
      ghost var k := Position(nodes, order, nodes[item].size);
      SplicedList(nodes, headers, order, item);
      ElemsInsert(order, k, item);
      ghost var result := Spliced(nodes, order, k, item);
      assert order != [] ==> LinkAt(nodes, order, 0);
      if headers == 0 {
        headers := item;
        nodes := nodes[item := nodes[item].(prev := 0, next := 0)];
      } else {
        var header := headers;
        ghost var i := 0;
        while nodes[item].size > nodes[header].size
          invariant 0 <= i <= k && i < |order| && header == order[i]
          invariant nodes == old(nodes) && headers == old(headers)
          decreases |order| - i
        {
          assert LinkAt(nodes, order, i) && (i + 1 < |order| ==> LinkAt(nodes, order, i + 1));
          if nodes[header].next == 0 {
            nodes := nodes[header := nodes[header].(next := item)];
            nodes := nodes[item := nodes[item].(prev := header, next := 0)];
            assert i + 1 == |order| && k == |order|;
            assert nodes == result;
            order := InsertAt(order, k, item);
            return;
          }
          header := nodes[header].next;
          i := i + 1;
        }
        assert i == k && LinkAt(nodes, order, k);
        nodes := nodes[item := nodes[item].(next := header, prev := nodes[header].prev)];
        if nodes[header].prev != 0 {
          assert LinkAt(old(nodes), order, k - 1);
          nodes := nodes[nodes[header].prev := nodes[nodes[header].prev].(next := item)];
        }
        assert k == 0 ==> nodes[header].prev == 0;
        nodes := nodes[header := nodes[header].(prev := item)];
        if header == headers {
          headers := item;  // repaired: the source leaves headers behind the new item
        }
      }
      assert nodes == result;
      order := InsertAt(order, k, item);
    }

    /** remove_ordered_list; the marked lines are not the source's, see RemoveAsWritten. */
    method RemoveOrderedList(item: int, ghost k: nat)
      requires ListOk() && k < |order| && order[k] == item
      modifies this
      ensures ListOk() && order == RemoveAt(old(order), k) && SameContents(old(nodes), nodes)
      ensures Elems(order) == Elems(old(order)) - {item}
    {
      hide Sorted, SameContents, Elems;
      ElemsRemove(order, k);
      UnsplicedList(nodes, headers, order, k);
      ghost var result := Unspliced(nodes, order, k);
      assert LinkAt(nodes, order, k);
      assert k > 0 ==> LinkAt(nodes, order, k - 1);
      assert k + 1 < |order| ==> LinkAt(nodes, order, k + 1);
      if item == headers {
        headers := nodes[item].next;  // repaired: the source sets NULL and returns
      }
      if nodes[item].prev != 0 {
        nodes := nodes[nodes[item].prev := nodes[nodes[item].prev].(next := nodes[item].next)];
      }
      if nodes[item].next != 0 {
        nodes := nodes[nodes[item].next := nodes[nodes[item].next].(prev := nodes[item].prev)];
      }
      assert nodes == result;
      order := RemoveAt(order, k);
    }

    /**
     insert_ordered_list as the source has it. Read from its head, the list afterwards holds the item in its
     place exactly if it was empty or starts with a smaller size; otherwise the item is not in it at all.
     */
    method InsertAsWritten(item: int)
      requires ListOk() && item in nodes && item != 0 && item !in order
      modifies `nodes, `headers
      ensures Reads(nodes, headers, InsertAt(order, Position(old(nodes), order, old(nodes)[item].size), item)) <==>
              order == [] || old(nodes)[order[0]].size < old(nodes)[item].size
      ensures order != [] && old(nodes)[order[0]].size >= old(nodes)[item].size ==> Reads(nodes, headers, order)
      ensures SameContents(old(nodes), nodes)
    {
      hide Sorted, Distinct;
      ghost var k := Position(nodes, order, nodes[item].size);
      ghost var result := Spliced(nodes, order, k, item);
      SplicedLinked(nodes, headers, order, k, item);
      SplicedKeeps(nodes, order, k, item);
      LinkedReads(result, if k == 0 then item else headers, InsertAt(order, k, item));
      if order != [] && k == 0 {
        SplicedInFront(nodes, headers, order, item);
      }
      assert order != [] ==> LinkAt(nodes, order, 0);
      if headers == 0 {
        headers := item;
        nodes := nodes[item := nodes[item].(prev := 0, next := 0)];
        assert nodes == result;
        return;
      }
      var header := headers;
      ghost var i := 0;
      while nodes[item].size > nodes[header].size
        invariant 0 <= i <= k && i < |order| && header == order[i]
        invariant nodes == old(nodes) && headers == old(headers)
        decreases |order| - i
      {
        assert LinkAt(nodes, order, i) && (i + 1 < |order| ==> LinkAt(nodes, order, i + 1));
        if nodes[header].next == 0 {
          nodes := nodes[header := nodes[header].(next := item)];
          nodes := nodes[item := nodes[item].(prev := header, next := 0)];
          assert i + 1 == |order| && k == |order|;
          assert nodes == result;
          return;
        }
        header := nodes[header].next;
        i := i + 1;
      }
      assert i == k && LinkAt(nodes, order, k);
      nodes := nodes[item := nodes[item].(next := header, prev := nodes[header].prev)];
      if nodes[header].prev != 0 {
        assert LinkAt(old(nodes), order, k - 1);
        nodes := nodes[nodes[header].prev := nodes[nodes[header].prev].(next := item)];
      }
      nodes := nodes[header := nodes[header].(prev := item)];
      assert nodes == result;
    }

    /**
     remove_ordered_list as the source has it. Read from its head, the list afterwards holds the other
     headers exactly if the item was not the first or was the only one; otherwise it is empty.
     */
    method RemoveAsWritten(item: int, ghost k: nat)
      requires ListOk() && k < |order| && order[k] == item
      modifies `nodes, `headers
      ensures Reads(nodes, headers, RemoveAt(order, k)) <==> k > 0 || |order| == 1
      ensures k == 0 ==> Reads(nodes, headers, [])
      ensures SameContents(old(nodes), nodes)
    {
      hide Sorted;
      UnsplicedLinked(nodes, headers, order, k);
      UnsplicedKeeps(nodes, order, k);
      LinkedReads(Unspliced(nodes, order, k), First(RemoveAt(order, k)), RemoveAt(order, k));
      assert LinkAt(nodes, order, k);
      assert k > 0 ==> LinkAt(nodes, order, k - 1);
      assert k + 1 < |order| ==> LinkAt(nodes, order, k + 1);
      if item == headers {
        headers := 0;
        assert k == 0 && (|order| > 1 ==> First(RemoveAt(order, k)) == order[1]);
        return;
      }
      if nodes[item].prev != 0 {
        nodes := nodes[nodes[item].prev := nodes[nodes[item].prev].(next := nodes[item].next)];
      }
      if nodes[item].next != 0 {
        nodes := nodes[nodes[item].next := nodes[nodes[item].next].(prev := nodes[item].prev)];
      }
      assert nodes == Unspliced(old(nodes), order, k);
    }
  }

  /** Linking an item in before the first header leaves the old list as it was, read from its old head. */
  lemma SplicedInFront(nodes: Headers, head: int, order: seq<int>, item: int)
    requires Linked(nodes, head, order) && order != [] && item in nodes && item !in order && AllIn(nodes, order)
    ensures Reads(Spliced(nodes, order, 0, item), head, order)
  {
    forall i | 0 <= i < |order| ensures NextAt(Spliced(nodes, order, 0, item), order, i) {
      assert LinkAt(nodes, order, i);
    }
  }
}
