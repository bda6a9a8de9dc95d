/**
 map_io and unmap_io on the address space of module Space: pages are mapped to frames that the caller names,
 which may lie outside RAM and are never given back; only page tables come from the frame allocator.
 */
module IoSpace {
  import opened Sets
  import opened Space

  const PHYS_FRAMES := 0x10_0000  // a 32-bit physical address wraps at this frame

  /** map_io's loop over n pages from p on, with the frames from f on. */
  ghost function MapRun(s: Space, p: int, f: nat, n: nat): Space {
    if n == 0 then s else MapPage(MapRun(s, p, f, n - 1), p + n - 1, (f + n - 1) % PHYS_FRAMES)
  }

  /** unmap_io's loop. */
  ghost function UnmapRun(u: Space, p: int, n: nat): Space {
    if n == 0 then u
    else
      var v := UnmapRun(u, p, n - 1);
      if Mapped(v, p + n - 1) then UnmapPage(v, p + n - 1) else v
  }

  /** The frames that mapping n pages from p on takes: one a missing table. */
  ghost function Tables(s: Space, p: int, n: nat): nat {
    |Slots(p, n) - s.tables.Keys|
  }

  /** u comes from s by mapping pages and unmapping some of them: lo to hi are still mapped, the rest is as in s. */
  ghost predicate Around(s: Space, u: Space, lo: int, hi: int) {
    PagesAre(s, u, lo, hi) && u.free <= s.free && |u.free| + |u.tables| == |s.free| + |s.tables|
  }

  lemma MapStep(s: Space, u: Space, lo: int, hi: int, f: int)
    requires Around(s, u, lo, hi) && !Mapped(s, hi) && (hi / 1024 !in u.tables ==> u.free != {})
    ensures Around(s, MapPage(u, hi, f), lo, hi + 1)
  {
    var v, d := MapPage(u, hi, f), hi / 1024;
    MapConsistent(u, hi, f);
    TableFramesTaken(u);
    hide Consistent;
    assert PagesBetween(s, v, lo, hi + 1) by {
      forall q ensures Mapped(v, q) <==> q == hi || Mapped(u, q)
        ensures Mapped(u, q) && q != hi ==> Mapped(v, q) && Frame(v, q) == Frame(u, q)
      {
        MapPageExact(u, hi, f, q);
      }
      hide MapPage, Mapped;
    }
    MapPageTables(u, hi, f);
    hide MapPage, Mapped, PagesBetween;
  }

  lemma UnmapPages(s: Space, u: Space, lo: int, hi: int)
    requires lo < hi && PagesBetween(s, u, lo, hi) && Mapped(u, lo)
    ensures PagesBetween(s, UnmapPage(u, lo), lo + 1, hi)
  {
    var v := UnmapPage(u, lo);
    forall q ensures Mapped(v, q) <==> q != lo && Mapped(u, q)
      ensures Mapped(v, q) ==> Frame(v, q) == Frame(u, q)
    {
      UnmapPageExact(u, lo, q);
    }
    hide UnmapPage, Mapped;
  }

  lemma UnmapTables(s: Space, u: Space, lo: int)
    requires TablesBetween(s, u) && Mapped(u, lo) && u.free <= s.free
    requires lo / 1024 in s.tables ==> lo / 1024 in UnmapPage(u, lo).tables
    ensures TablesBetween(s, UnmapPage(u, lo)) && UnmapPage(u, lo).free <= s.free
  {
  }

  lemma UnmapStep(s: Space, u: Space, lo: int, hi: int)
    requires Around(s, u, lo, hi) && lo < hi
    ensures Mapped(u, lo) && Around(s, UnmapPage(u, lo), lo + 1, hi)
  {
    hide Consistent, UnmapPage, Mapped, TablesBetween;
    assert Mapped(u, lo);
    UnmapConsistent(u, lo);
    TableFramesTaken(u);
    OldTableStays(s, u, lo, u.free);
    assert u.(free := u.free) == u;
    UnmapPages(s, u, lo, hi);
    UnmapTables(s, u, lo);
    UnmapPageTables(u, lo);
  }

  /** Exactly one frame a missing table has been taken. */
  lemma TablesTaken(s: Space, u: Space, p: int, n: nat)
    requires Around(s, u, p, p + n)
    ensures |u.free| == |s.free| - Tables(s, p, n)
  {
    BackTables(s, u, p, n);
    hide Slots, PagesAre;
    SubsetSize(s.tables.Keys, u.tables.Keys);
    assert u.tables.Keys - s.tables.Keys == Slots(p, n) - s.tables.Keys;
  }

  lemma TablesStep(s: Space, p: int, n: nat)
    requires n > 0
    ensures Tables(s, p, n) >= Tables(s, p, n - 1)
            + if (p + n - 1) / 1024 in s.tables || (p + n - 1) / 1024 in Slots(p, n - 1) then 0 else 1
  {
    NeedStep(s, p, n);
  }

  lemma {:induction false} TablesMonotone(s: Space, p: int, k: nat, n: nat)
    requires k <= n
    ensures Tables(s, p, k) <= Tables(s, p, n)
  {
    hide Tables, Slots;
    if k < n {
      TablesStep(s, p, n);
      TablesMonotone(s, p, k, n - 1);
    }
  }

  /** With the frames for the missing tables free, the loop maps every page, and nothing else changes. */
  lemma {:induction false} MapRunAround(s: Space, p: int, f: nat, n: nat)
    requires Consistent(s) && Unmapped(s, p, n) && |s.free| >= Tables(s, p, n)
    ensures Around(s, MapRun(s, p, f, n), p, p + n)
    decreases n, 0
  {
    hide Consistent, MapPage, Tables, Slots, Around;
    if n == 0 {
      NoChange(s, p);
    } else {
      NextTable(s, p, f, n, n - 1);
      MapStep(s, MapRun(s, p, f, n - 1), p, p + n - 1, (f + n - 1) % PHYS_FRAMES);
    }
  }

  lemma NoChange(s: Space, p: int)
    requires Consistent(s)
    ensures Around(s, s, p, p)
  {
  }

  /** Before every turn of the loop the page is unmapped, and there is a frame for a table it may need. */
  lemma {:induction false} NextTable(s: Space, p: int, f: nat, n: nat, k: nat)
    requires Consistent(s) && Unmapped(s, p, n) && |s.free| >= Tables(s, p, n) && k < n
    ensures var u := MapRun(s, p, f, k);
            Around(s, u, p, p + k) && !Mapped(u, p + k) && ((p + k) / 1024 !in u.tables ==> u.free != {})
    decreases k, 1
  {
    hide Consistent, MapPage, Tables, Slots;
    var u := MapRun(s, p, f, k);
    TablesMonotone(s, p, k + 1, n);
    TablesStep(s, p, k + 1);
    MapRunAround(s, p, f, k);
    TablesTaken(s, u, p, k);
    BetweenSlots(s, u, p, p + k, (p + k) / 1024);
  }

  /** Every page leads to its own frame of the caller's range. */
  lemma {:induction false} MapRunFrames(s: Space, p: int, f: nat, n: nat, k: nat)
    requires k < n
    ensures Mapped(MapRun(s, p, f, n), p + k) && Frame(MapRun(s, p, f, n), p + k) == (f + k) % PHYS_FRAMES
  {
    hide MapPage, Mapped;
    MapPageExact(MapRun(s, p, f, n - 1), p + n - 1, (f + n - 1) % PHYS_FRAMES, p + k);
    if k < n - 1 {
      MapRunFrames(s, p, f, n - 1, k);
    }
  }

  /** After any part of unmap_io's loop the rest of the region is still mapped. */
  lemma {:induction false} UnmapRunAround(s: Space, u: Space, p: int, n: nat, k: nat)
    requires Around(s, u, p, p + n) && k <= n
    ensures Around(s, UnmapRun(u, p, k), p + k, p + n)
  {
    hide Around, Mapped, UnmapPage;
    if k > 0 {
      UnmapRunAround(s, u, p, n, k - 1);
      UnmapStep(s, UnmapRun(u, p, k - 1), p + k - 1, p + n);
    }
  }

  lemma AllUnmapped(s: Space, u: Space, p: int)
    requires Around(s, u, p, p)
    ensures u == s
  {
    forall d ensures d in u.tables <==> d in s.tables {
      BetweenSlots(s, u, p, p, d);
    }
    forall d | d in s.tables ensures u.tables[d] == s.tables[d] {
      SameTable(s, u, p, d);
    }
    assert u.tables == s.tables;
    assert u.tables.Keys == s.tables.Keys;
    SubsetSize(u.free, s.free);
    assert s.free - u.free == {};
  }

  /** Mapping a device and unmapping it restores the page tables, their frames and the address map. */
  lemma MapUnmap(s: Space, p: int, f: nat, n: nat)
    requires Consistent(s) && Unmapped(s, p, n) && |s.free| >= Tables(s, p, n)
    ensures UnmapRun(MapRun(s, p, f, n), p, n) == s
  {
    hide *;
    MapRunAround(s, p, f, n);
    UnmapRunAround(s, MapRun(s, p, f, n), p, n, n);
    AllUnmapped(s, UnmapRun(MapRun(s, p, f, n), p, n), p + n);
  }
}
