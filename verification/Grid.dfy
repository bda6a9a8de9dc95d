/** Object sizes, slab sizes and the grid of objects of a slab (kernel/modules/memory/kheap.c:56-94, 179-216). */
module Grid {
  import Bits
  import opened Pmm

  const SLAB_T := 20  // sizeof(slab_t)

  const SLAB_SIZES: seq<int> :=
    [4096, 4096, 4096, 4096, 4096, 8192, 8192, 8192, 16384, 16384, 32768, 32768]

  /** 8, 16, ... 16384: the sizes that have an entry in slab_sizes. */
  predicate IsObjSize(o: int) {
    || o == 8 || o == 16 || o == 32 || o == 64 || o == 128 || o == 256
    || o == 512 || o == 1024 || o == 2048 || o == 4096 || o == 8192 || o == 16384
  }

  function SlabSize(o: int): int {
    if o <= 128 then 4096 else if o <= 1024 then 8192 else if o <= 4096 then 16384 else 32768
  }

  /** size_order of cache_create: how often obj_size can be halved before it is 1. */
  function Order(size: nat): nat {
    if size <= 1 then 0 else 1 + Order(size / 2)
  }

  lemma {:induction false} OrderOfPower(k: nat)
    ensures Order(Bits.Shl1(k)) == k
  {
    if k > 0 {
      assert Bits.Shl1(k) / 2 == Bits.Shl1(k - 1);
      OrderOfPower(k - 1);
    }
  }

  lemma ShlValues()
    ensures Bits.Shl1(3) == 8 && Bits.Shl1(4) == 16 && Bits.Shl1(5) == 32 && Bits.Shl1(6) == 64
    ensures Bits.Shl1(7) == 128 && Bits.Shl1(8) == 256 && Bits.Shl1(9) == 512 && Bits.Shl1(10) == 1024
    ensures Bits.Shl1(11) == 2048 && Bits.Shl1(12) == 4096 && Bits.Shl1(13) == 8192 && Bits.Shl1(14) == 16384
  {
    assert Bits.Shl1(3) == 8;
    assert Bits.Shl1(6) == 8 * Bits.Shl1(3);
    assert Bits.Shl1(9) == 8 * Bits.Shl1(6);
    assert Bits.Shl1(12) == 8 * Bits.Shl1(9);
  }

  /** Position of an object size in the table. */
  function Class(o: int): nat {
    if o == 8 then 3 else if o == 16 then 4 else if o == 32 then 5 else if o == 64 then 6
    else if o == 128 then 7 else if o == 256 then 8 else if o == 512 then 9 else if o == 1024 then 10
    else if o == 2048 then 11 else if o == 4096 then 12 else if o == 8192 then 13 else 14
  }

  /** The table lookup of cache_create is in bounds and gives the slab size of the object size. */
  lemma SlabSizesTable(o: int)
    requires IsObjSize(o)
    ensures 0 <= Order(o) - 3 < |SLAB_SIZES| && SLAB_SIZES[Order(o) - 3] == SlabSize(o)
  {
    hide Order, Bits.Shl1;
    ShlValues();
    OrderOfPower(Class(o));
  }

  lemma {:induction false} AboveTable(k: nat)
    requires k >= 15
    ensures Bits.Shl1(k) > 16384
  {
    hide Bits.Shl1;
    ShlValues();
    if k > 15 {
      AboveTable(k - 1);
    }
    Doubles(k - 1);
  }

  lemma Doubles(k: nat)
    ensures Bits.Shl1(k + 1) == 2 * Bits.Shl1(k)
  {
  }

  /** Of the size classes kmalloc comes to, 8 and its doubles, exactly those up to 16384 have an entry in the table. */
  lemma TableExact(k: nat)
    requires k >= 3
    ensures 0 <= Order(Bits.Shl1(k)) - 3 < |SLAB_SIZES| <==> Bits.Shl1(k) <= 16384
  {
    hide Order, Bits.Shl1;
    OrderOfPower(k);
    ShlValues();
    if k >= 15 {
      AboveTable(k);
    }
  }

  /** The object sizes are the powers of two from 8 to 16384. */
  lemma SizesExact(o: int)
    ensures IsObjSize(o) <==> exists k :: 3 <= k <= 14 && o == Bits.Shl1(k)
  {
    hide Bits.Shl1;
    ShlValues();
    if IsObjSize(o) {
      assert o == Bits.Shl1(Class(o));
    }
  }

  /** The first object of a slab: behind the header if that lies in the slab. */
  function FirstObj(base: int, o: nat): int
    requires o > 0
  {
    if SlabSize(o) == 4096 then base + o * DivUp(SLAB_T, o) else base
  }

  /** The free count cache_grow gives a new slab. */
  function Capacity(base: int, o: nat): int
    requires o > 0
  {
    if SlabSize(o) == 4096 then (SlabSize(o) - FirstObj(base, o) % 4096) / o else SlabSize(o) / o
  }

  /** The addresses slab_init chains, from a up to the end of the slab. */
  function GridFrom(a: int, end: int, o: nat): seq<int>
    requires o > 0
    decreases end - a
  {
    if a >= end then [] else [a] + GridFrom(a + o, end, o)
  }

  lemma GridStep(a: int, end: int, o: nat)
    requires o > 0 && a < end
    ensures GridFrom(a, end, o) == [a] + GridFrom(a + o, end, o)
  {
  }

  function SlabGrid(base: int, o: nat): seq<int>
    requires o > 0
  {
    GridFrom(FirstObj(base, o), base + SlabSize(o), o)
  }

  /** Objects are one size apart. */
  lemma {:induction false} GridSpacing(a: int, end: int, o: nat, i: nat, j: nat)
    requires o > 0 && i < j < |GridFrom(a, end, o)|
    ensures GridFrom(a, end, o)[i] + o <= GridFrom(a, end, o)[j]
    decreases end - a
  {
    if i > 0 {
      GridSpacing(a + o, end, o, i - 1, j - 1);
    } else {
      GridBounds(a + o, end, o, j - 1);
    }
  }

  lemma {:induction false} GridBounds(a: int, end: int, o: nat, i: nat)
    requires o > 0 && i < |GridFrom(a, end, o)|
    ensures a <= GridFrom(a, end, o)[i] < end
    ensures (GridFrom(a, end, o)[i] - a) % o == 0
    decreases end - a
  {
    if i > 0 {
      GridBounds(a + o, end, o, i - 1);
      var x := GridFrom(a, end, o)[i];
      assert x == GridFrom(a + o, end, o)[i - 1];
      ModStep(x - a - o, o);
    } else {
      assert (a - a) % o == 0;
    }
  }

  lemma ModStep(x: int, o: nat)
    requires o > 0 && x % o == 0
    ensures (x + o) % o == 0
  {
    var q := x / o;
    assert x == o * q;
    assert x + o == o * (q + 1);
    Bits.RemainderUnique(x + o, o, q + 1, 0);
  }

  /** When the room is a whole number of objects, the grid has that many and fills it exactly. */
  lemma {:induction false} GridFills(a: int, end: int, o: nat, n: nat)
    requires o > 0 && end - a == n * o
    ensures |GridFrom(a, end, o)| == n
    ensures forall i :: 0 <= i < n ==> GridFrom(a, end, o)[i] + o <= end
    decreases n
  {
    if n > 0 {
      assert n * o == (n - 1) * o + o;
      Bits.MulAtLeast(o, n);
      GridFills(a + o, end, o, n - 1);
      assert (n - 1) * o >= 0;
    }
  }

  /** For every size class the room for objects is a whole number of them: the count cache_grow computes. */
  lemma RoomIsWhole(base: int, o: int)
    requires IsObjSize(o) && base % 4096 == 0
    ensures base + SlabSize(o) - FirstObj(base, o) == Capacity(base, o) * o && Capacity(base, o) >= 2
    ensures base <= FirstObj(base, o) && (SlabSize(o) == 4096 ==> base + SLAB_T <= FirstObj(base, o))
  {
  }

  /**
   The free count cache_grow computes is the length of the chain slab_init builds, and the objects stay inside
   the slab, behind its header.
   */
  lemma SlabGridCount(base: int, o: int)
    requires IsObjSize(o) && base % 4096 == 0
    ensures |SlabGrid(base, o)| == Capacity(base, o) >= 2
    ensures forall a :: a in SlabGrid(base, o) ==> base <= a && a + o <= base + SlabSize(o)
    ensures SlabSize(o) == 4096 ==> forall a :: a in SlabGrid(base, o) ==> base + SLAB_T <= a
  {
    RoomIsWhole(base, o);
    GridFills(FirstObj(base, o), base + SlabSize(o), o, Capacity(base, o));
    forall a | a in SlabGrid(base, o) ensures FirstObj(base, o) <= a && a + o <= base + SlabSize(o) {
      var i :| 0 <= i < |SlabGrid(base, o)| && SlabGrid(base, o)[i] == a;
      GridBounds(FirstObj(base, o), base + SlabSize(o), o, i);
    }
  }
}
