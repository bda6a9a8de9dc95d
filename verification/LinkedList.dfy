/**
 kernel/modules/misc/linked_list.c: circular doubly linked lists. A list is the pointer to its first node, and
 each operation is proved against the plain sequence of objects met from there on.
 */
module LinkedList {

  import opened Seqs

  datatype Option<T> = None | Some(value: T)

  class Node<T> {
    const obj: T
    var prev: Node?<T>
    var next: Node?<T>

    constructor (obj: T)
      ensures this.obj == obj
    {
      this.obj := obj;
      prev, next := null, null;
    }
  }

  function Succ(i: nat, n: nat): nat {
    if i + 1 < n then i + 1 else 0
  }

  /** The nodes in next order form one closed ring, linked both ways. */
  ghost predicate Ring<T>(ring: seq<Node<T>>)
    reads ring
  {
    && (forall i, j :: 0 <= i < j < |ring| ==> ring[i] != ring[j])
    && (forall i :: 0 <= i < |ring| ==> LinkedAt(ring, i))
  }

  ghost predicate LinkedAt<T>(ring: seq<Node<T>>, i: nat)
    requires i < |ring|
    reads ring
  {
    ring[i].next == ring[Succ(i, |ring|)] && ring[Succ(i, |ring|)].prev == ring[i]
  }

  function Rotated<T>(s: seq<T>, k: nat): seq<T>
    requires k <= |s|
  {
    s[k..] + s[..k]
  }

  /** A ring may be read from any of its nodes. */
  lemma RotatedRing<T>(ring: seq<Node<T>>, k: nat)
    requires Ring(ring) && k <= |ring|
    ensures Ring(Rotated(ring, k))
  {
    var r, n := Rotated(ring, k), |ring|;
    forall i | 0 <= i < n ensures LinkedAt(r, i) {
      var j := if i + k < n then i + k else i + k - n;
      assert r[i] == ring[j] && LinkedAt(ring, j);
      assert r[Succ(i, n)] == ring[Succ(j, n)];
    }
  }

  /** Taking the last out of the rotated sequence takes position k out of the sequence. */
  lemma CutOut<T>(s: seq<T>, k: nat)
    requires k < |s|
    ensures var r := Rotated(s, k + 1);
            && |r| == |s| && r[|r| - 1] == s[k]
            && Rotated(r[..|r| - 1], |s| - k - 1) == s[..k] + s[k + 1..]
  {
  }

  lemma PutIn<T>(s: seq<T>, k: nat, x: T)
    requires k < |s|
    ensures var r := Rotated(s, k);
            && |r| == |s| && r[0] == s[k]
            && Rotated(r + [x], |s| - k) == s[..k] + [x] + s[k..]
  {
  }

  /** The neighbours of a ring's first node. */
  lemma Ends<T>(ring: seq<Node<T>>)
    requires Ring(ring) && ring != []
    ensures ring[0].prev == ring[|ring| - 1] && ring[|ring| - 1].next == ring[0]
    ensures ring[0].next == ring[0] <==> |ring| == 1
    ensures |ring| > 1 ==> ring[|ring| - 1].prev == ring[|ring| - 2] && ring[0].next == ring[1]
  {
    assert LinkedAt(ring, |ring| - 1) && LinkedAt(ring, 0);
    if |ring| > 1 {
      assert LinkedAt(ring, |ring| - 2);
    }
  }

  function Objs<T>(ring: seq<Node<T>>): seq<T> {
    seq(|ring|, i requires 0 <= i < |ring| => ring[i].obj)
  }

  /** linked_list.c:23-27 on a node just made: link it in before the first node, which is at the ring's end. */
  method LinkBefore<T>(node: Node<T>, first: Node<T>, ghost ring: seq<Node<T>>)
    requires Ring(ring) && ring != [] && ring[0] == first && node !in ring
    modifies node, ring
    ensures Ring(ring + [node])
  {
    Ends(ring);
    ghost var r, n := ring + [node], |ring|;
    node.prev := first.prev;
    node.next := first;
    first.prev.next := node;
    first.prev := node;
    forall i | 0 <= i <= n ensures LinkedAt(r, i) {
      if i < n - 1 {
        assert old(LinkedAt(ring, i));
        assert r[i] == ring[i] && r[i + 1] == ring[i + 1] && ring[i] != ring[n - 1] && ring[i + 1] != ring[0];
      }
    }
  }

  /** Take the last node out of a ring of at least two. */
  method Unlink<T>(node: Node<T>, ghost ring: seq<Node<T>>)
    requires Ring(ring) && |ring| > 1 && ring[|ring| - 1] == node
    modifies ring
    ensures Ring(ring[..|ring| - 1])
  {
    Ends(ring);
    ghost var r, n := ring[..|ring| - 1], |ring|;
    node.prev.next := node.next;
    node.next.prev := node.prev;
    forall i | 0 <= i < n - 1 ensures LinkedAt(r, i) {
      assert old(LinkedAt(ring, i));
      if i < n - 2 {
        assert r[i] == ring[i] && r[i + 1] == ring[i + 1] && ring[i] != ring[n - 2] && ring[i + 1] != ring[0];
      }
    }
  }

  type Comparator<!T> = (T, T, T) -> bool

  /** The object before position i, in the ring. */
  function Before<T>(s: seq<T>, i: nat): T
    requires i < |s|
  {
    if i > 0 then s[i - 1] else s[|s| - 1]
  }

  /** Where insert_with_compare puts x: before the first object at which the comparator agrees, else at the end. */
  function Place<T>(s: seq<T>, x: T, before: Comparator<T>, i: nat): (k: nat)
    requires i <= |s|
    ensures i <= k <= |s|
    ensures forall j :: i <= j < k ==> !before(Before(s, j), x, s[j])
    ensures k < |s| ==> before(Before(s, k), x, s[k])
    decreases |s| - i
  {
    if i == |s| || before(Before(s, i), x, s[i]) then i else Place(s, x, before, i + 1)
  }

  function Inserted<T>(s: seq<T>, x: T, before: Comparator<T>): seq<T> {
    var k := Place(s, x, before, 0);
    s[..k] + [x] + s[k..]
  }

  class List<T(==)> {
    var head: Node?<T>
    ghost var nodes: seq<Node<T>>

    constructor ()
      ensures Valid() && nodes == []
    {
      head, nodes := null, [];
    }

    ghost predicate Valid()
      reads this, nodes
    {
      Ring(nodes) && head == if nodes == [] then null else nodes[0]
    }

    ghost function Contents(): seq<T>
      reads this
    {
      Objs(nodes)
    }

    method PushBack(obj: T)
      requires Valid()
      modifies this, nodes
      ensures Valid() && Contents() == old(Contents()) + [obj]
      ensures fresh(nodes[|nodes| - 1]) && nodes == old(nodes) + [nodes[|nodes| - 1]]
    {
      var node := new Node(obj);
      if head == null {
        head := node;
        node.next := node;
        node.prev := node;
        nodes := [node];
        assert LinkedAt(nodes, 0);
      } else {
        LinkBefore(node, head, nodes);
        nodes := nodes + [node];
      }
    }

    method PushFront(obj: T)
      requires Valid()
      modifies this, nodes
      ensures Valid() && Contents() == [obj] + old(Contents())
      ensures fresh(nodes[0]) && nodes == [nodes[0]] + old(nodes)
    {
      ghost var s := Contents();
      PushBack(obj);
      ghost var n := nodes[|nodes| - 1];
      assert n.obj == Objs(nodes)[|nodes| - 1] == obj;
      assert Rotated(nodes, |nodes| - 1) == [n] + old(nodes);
      assert Objs([n] + old(nodes)) == [obj] + s;
      Ends(nodes);
      RotatedRing(nodes, |nodes| - 1);
      head := head.prev;
      nodes := Rotated(nodes, |nodes| - 1);
    }

    method PopBack() returns (obj: T)
      requires Valid() && nodes != []
      modifies this, nodes
      ensures Valid() && old(Contents()) == Contents() + [obj]
      ensures nodes == old(nodes)[..|old(nodes)| - 1]
    {
      Ends(nodes);
      obj := head.prev.obj;
      if head.next == head {
        assert Objs(nodes) == [obj];
        head := null;
        nodes := [];
        return;
      }
      var last := head.prev;
      assert Objs(nodes) == Objs(nodes[..|nodes| - 1]) + [obj];
      Unlink(last, nodes);
      nodes := nodes[..|nodes| - 1];
    }

    method PopFront() returns (obj: Option<T>)
      requires Valid()
      modifies this, nodes
      ensures Valid()
      ensures old(nodes) == [] ==> obj == None && nodes == []
      ensures old(nodes) != [] ==> obj.Some? && old(Contents()) == [obj.value] + Contents() && nodes == old(nodes)[1..]
    {
      if head == null {
        return None;
      }
      Ends(nodes);
      obj := Some(head.obj);
      if head.next == head {
        head := null;
        nodes := [];
        return;
      }
      var last := head;
      RotatedRing(nodes, 1);
      head := head.next;
      Unlink(last, Rotated(nodes, 1));
      assert Rotated(nodes, 1)[..|nodes| - 1] == nodes[1..];
      nodes := nodes[1..];
    }

    method Remove(obj: T)
      requires Valid() && nodes != []
      modifies this, nodes
      ensures Valid() && Contents() == Without(old(Contents()), obj)
      ensures forall n :: n in nodes ==> n in old(nodes)
    {
      var node := head;
      if node.obj == obj {
        WithoutAt(Contents(), obj, 0);
        var first := PopFront();
        return;
      }
      ghost var k := 0;
      while true
        invariant Valid() && nodes == old(nodes) && 0 <= k < |nodes| && node == nodes[k]
        invariant forall i :: 0 <= i < k ==> nodes[i].obj != obj
        decreases |nodes| - k
      {
        if node.obj == obj {
          WithoutAt(Contents(), obj, k);
          UnlinkAt(k, node);
          return;
        }
        assert LinkedAt(nodes, k);
        node := node.next;
        if node == head {
          WithoutAbsent(Contents(), obj);
          return;
        }
        k := k + 1;
      }
    }

    method UnlinkAt(ghost k: nat, node: Node<T>)
      requires Valid() && 0 < k < |nodes| && nodes[k] == node
      modifies this, nodes
      ensures Valid() && nodes == old(nodes)[..k] + old(nodes)[k + 1..]
    {
      hide Ring;
      ghost var r := Rotated(nodes, k + 1);
      RotatedRing(nodes, k + 1);
      CutOut(nodes, k);
      Unlink(node, r);
      RotatedRing(r[..|r| - 1], |nodes| - k - 1);
      nodes := nodes[..k] + nodes[k + 1..];
    }

    /** push_back(obj, &node) for a node that is not the list's first. */
    method InsertAt(ghost k: nat, node: Node<T>, obj: T)
      requires Valid() && 0 < k < |nodes| && nodes[k] == node
      modifies this, nodes
      ensures Valid() && |nodes| == |old(nodes)| + 1 && fresh(nodes[k]) && nodes[k].obj == obj
      ensures nodes == old(nodes)[..k] + [nodes[k]] + old(nodes)[k..]
    {
      hide Ring;
      var added := new Node(obj);
      ghost var r := Rotated(nodes, k);
      RotatedRing(nodes, k);
      PutIn(nodes, k, added);
      LinkBefore(added, node, r);
      RotatedRing(r + [added], |nodes| - k);
      nodes := nodes[..k] + [added] + nodes[k..];
    }

    method InsertWithCompare(obj: T, before: Comparator<T>)
      requires Valid()
      modifies this, nodes
      ensures Valid() && Contents() == Inserted(old(Contents()), obj, before)
      ensures forall n :: n in nodes ==> n in old(nodes) || fresh(n)
    {
      if head == null {
        PushBack(obj);
        return;
      }
      hide Place, Ring, Objs;
      ghost var s := Contents();
      ghost var place := Place(s, obj, before, 0);
      var node := head;
      ghost var k := 0;
      while true
        invariant Valid() && nodes == old(nodes) && Contents() == s
        invariant 0 <= k < |nodes| == |s| && node == nodes[k] && k <= place
        decreases |nodes| - k
      {
        PrevOf(k);
        if before(node.prev.obj, obj, node.obj) {
          assert place == k;
          InsertHere(k, node, obj);
          return;
        }
        node := node.next;
        if node == head {
          break;
        }
        k := k + 1;
      }
      PushBack(obj);
      assert s[..|s|] + [obj] + s[|s|..] == s + [obj];
    }

    /** linked_list.c:136-144: at the list's head or before another node. */
    method InsertHere(ghost k: nat, node: Node<T>, obj: T)
      requires Valid() && k < |nodes| && nodes[k] == node
      modifies this, nodes
      ensures Valid() && Contents() == old(Contents())[..k] + [obj] + old(Contents())[k..]
      ensures forall n :: n in nodes ==> n in old(nodes) || fresh(n)
    {
      hide Ring;
      ghost var s := Contents();
      PrevOf(k);
      if node == head {
        PushFront(obj);
        assert Contents() == s[..0] + [obj] + s[0..];
      } else {
        InsertAt(k, node, obj);
        assert Contents() == s[..k] + [obj] + s[k..];
      }
    }

    lemma PrevOf(k: nat)
      requires Valid() && k < |nodes|
      ensures |Contents()| == |nodes| && nodes[k].obj == Contents()[k]
      ensures nodes[k].prev != null && nodes[k].prev.obj == Before(Contents(), k)
      ensures nodes[k].next == nodes[Succ(k, |nodes|)] && (nodes[k].next == head <==> k + 1 == |nodes|)
      ensures nodes[k] == head <==> k == 0
    {
      Ends(nodes);
      assert LinkedAt(nodes, k);
      assert k > 0 ==> LinkedAt(nodes, k - 1);
    }
  }
}
