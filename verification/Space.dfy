/**
 The address space the page tables describe, as a value: which frames are free, which frame holds the
 table of each directory slot, and which frame each entry of it names. A page is a virtual address / 4096;
 page p is entry p % 1024 of the table of slot p / 1024.
 */
module Space {
  import opened Sets
  import opened Pmm

  datatype Table = Table(frame: int, entries: map<int, int>)

  datatype Space = Space(free: set<int>, tables: map<int, Table>)

  predicate Mapped(s: Space, p: int) {
    p / 1024 in s.tables && p % 1024 in s.tables[p / 1024].entries
  }

  function Frame(s: Space, p: int): int
    requires Mapped(s, p)
  {
    s.tables[p / 1024].entries[p % 1024]
  }

  ghost predicate TableOk(s: Space, d: int)
    requires d in s.tables
  {
    && s.tables[d].frame !in s.free && s.tables[d].entries != map[]
    && forall j :: j in s.tables[d].entries ==> 0 <= j < 1024
  }

  /** A slot has a table exactly when one of its pages is mapped; tables lie in distinct frames in use. */
  ghost predicate Consistent(s: Space) {
    && (forall d :: d in s.tables ==> TableOk(s, d))
    && (forall d, e :: d in s.tables && e in s.tables && d != e ==> s.tables[d].frame != s.tables[e].frame)
  }

  /** The frame alloc_page takes. */
  ghost function Min(free: set<int>): (f: int)
    ensures free != {} ==> Lowest(free, f)
  {
    if free == {} then 0 else LowestFrame(free)
  }

  ghost function LowestFrame(free: set<int>): (f: int)
    requires free != {}
    ensures Lowest(free, f)
  {
    SomeLowest(free);
    var f :| Lowest(free, f);
    f
  }

  lemma SomeLowest(free: set<int>)
    requires free != {}
    ensures exists f :: Lowest(free, f)
  {
    var f := LowestExists(free);
  }

  ghost function SetEntry(s: Space, p: int, f: int): Space
    requires p / 1024 in s.tables
  {
    var t := s.tables[p / 1024];
    s.(tables := s.tables[p / 1024 := t.(entries := t.entries[p % 1024 := f])])
  }

  /** map_page: one more page, and a table for its slot if it had none. */
  ghost function MapPage(s: Space, p: int, f: int): Space {
    if p / 1024 in s.tables then
      SetEntry(s, p, f)
    else
      var t := Min(s.free);
      Space(s.free - {t}, s.tables[p / 1024 := Table(t, map[p % 1024 := f])])
  }

  /** unmap_page: one page less, and its slot's table goes back if this was its last page. */
  ghost function UnmapPage(s: Space, p: int): Space
    requires Mapped(s, p)
  {
    var t := s.tables[p / 1024];
    if t.entries - {p % 1024} == map[] then
      Space(s.free + {t.frame}, s.tables - {p / 1024})
    else
      s.(tables := s.tables[p / 1024 := t.(entries := t.entries - {p % 1024})])
  }

  /** One turn of vmalloc's loop. */
  ghost function AllocMap(s: Space, p: int): Space {
    var f := Min(s.free);
    MapPage(s.(free := s.free - {f}), p, f)
  }

  /** One turn of vfree's loop. */
  ghost function FreeUnmap(s: Space, p: int): Space
    requires Mapped(s, p)
  {
    UnmapPage(s.(free := s.free + {Frame(s, p)}), p)
  }

  // ---- map_page and unmap_page change one page ----

  lemma MapPageExact(s: Space, p: int, f: int, q: int)
    ensures Mapped(MapPage(s, p, f), q) <==> q == p || Mapped(s, q)
    ensures Mapped(MapPage(s, p, f), p) && Frame(MapPage(s, p, f), p) == f
    ensures Mapped(s, q) && q != p ==> Mapped(MapPage(s, p, f), q) && Frame(MapPage(s, p, f), q) == Frame(s, q)
  {
  }

  lemma UnmapPageExact(s: Space, p: int, q: int)
    requires Mapped(s, p)
    ensures Mapped(UnmapPage(s, p), q) <==> q != p && Mapped(s, q)
    ensures Mapped(UnmapPage(s, p), q) ==> Frame(UnmapPage(s, p), q) == Frame(s, q)
  {
    if Mapped(s, q) && q != p && q / 1024 == p / 1024 {
      assert q % 1024 in s.tables[p / 1024].entries - {p % 1024};
    }
  }

  lemma MapConsistent(s: Space, p: int, f: int)
    requires Consistent(s)
    requires p / 1024 !in s.tables ==> s.free != {}
    ensures Consistent(MapPage(s, p, f))
  {
    var u := MapPage(s, p, f);
    var d, j := p / 1024, p % 1024;
    forall e | e in u.tables && e != d ensures TableOk(u, e) {
      assert TableOk(s, e);
    }
    assert u.tables[d].entries[j] == f;
    if d in s.tables {
      assert TableOk(s, d);
      assert u.tables[d].entries.Keys == s.tables[d].entries.Keys + {j};
    } else {
      assert u.tables[d].entries.Keys == {j};
    }
    assert TableOk(u, d);
  }

  lemma UnmapConsistent(s: Space, p: int)
    requires Consistent(s) && Mapped(s, p)
    ensures Consistent(UnmapPage(s, p))
  {
    var u := UnmapPage(s, p);
    forall d | d in u.tables ensures TableOk(u, d) {
      assert TableOk(s, d);
    }
  }

  // ---- vmalloc's and vfree's loops ----

  predicate Unmapped(s: Space, p: int, n: nat) {
    forall q :: p <= q < p + n ==> !Mapped(s, q)
  }

  /** vmalloc's loop over n pages from p on. */
  ghost function Back(s: Space, p: int, n: nat): Space {
    if n == 0 then s else AllocMap(Back(s, p, n - 1), p + n - 1)
  }

  /** vfree's loop. */
  ghost function Unback(u: Space, p: int, n: nat): Space {
    if n == 0 then u
    else
      var v := Unback(u, p, n - 1);
      if Mapped(v, p + n - 1) then FreeUnmap(v, p + n - 1) else v
  }

  /** The slots that n pages from p on touch. */
  ghost function Slots(p: int, n: nat): set<int> {
    if n == 0 then {} else Range(p / 1024, (p + n - 1) / 1024 - p / 1024 + 1)
  }

  /** The frames that backing n pages from p on takes: one a page and one a missing table. */
  ghost function Need(s: Space, p: int, n: nat): nat {
    n + |Slots(p, n) - s.tables.Keys|
  }

  /**
   u comes from s by backing pages and giving some of them back: those from lo to hi are still mapped, each
   to a frame of its own that was free in s; the rest is as in s.
   */
  ghost predicate Between(s: Space, u: Space, lo: int, hi: int) {
    Consistent(s) && Consistent(u) && Accounted(s, u, lo, hi)
  }

  ghost predicate Accounted(s: Space, u: Space, lo: int, hi: int) {
    && lo <= hi
    && PagesBetween(s, u, lo, hi) && FramesBetween(s, u, lo, hi) && TablesBetween(s, u)
    && u.free <= s.free
    && |u.free| + |u.tables| + (hi - lo) == |s.free| + |s.tables|
  }

  ghost predicate PagesBetween(s: Space, u: Space, lo: int, hi: int) {
    && (forall q :: Mapped(u, q) <==> Mapped(s, q) || lo <= q < hi)
    && (forall q :: Mapped(s, q) ==> Mapped(u, q) && Frame(u, q) == Frame(s, q) && !(lo <= q < hi))
  }

  /** Two consistent spaces that differ in the mapping of the pages from lo to hi only. */
  ghost predicate PagesAre(s: Space, u: Space, lo: int, hi: int) {
    lo <= hi && Consistent(s) && Consistent(u) && PagesBetween(s, u, lo, hi) && TablesBetween(s, u)
  }

  ghost predicate FramesBetween(s: Space, u: Space, lo: int, hi: int) {
    && (forall q :: lo <= q < hi && Mapped(u, q) ==> Frame(u, q) in s.free && Frame(u, q) !in u.free)
    && (forall q, d :: lo <= q < hi && Mapped(u, q) && d in u.tables ==> Frame(u, q) != u.tables[d].frame)
    && (forall q, r :: lo <= q < r < hi && Mapped(u, q) && Mapped(u, r) ==> Frame(u, q) != Frame(u, r))
  }

  ghost predicate TablesBetween(s: Space, u: Space) {
    && (forall d :: d in s.tables ==> d in u.tables && u.tables[d].frame == s.tables[d].frame)
    && (forall d :: d in u.tables && d !in s.tables ==> u.tables[d].frame in s.free)
  }

  /** v comes from u by mapping page hi to a frame that was free, perhaps with a new table. */
  ghost predicate Takes(u: Space, v: Space, hi: int) {
    && (forall q :: Mapped(v, q) <==> q == hi || Mapped(u, q))
    && (forall q :: Mapped(u, q) && q != hi ==> Mapped(v, q) && Frame(v, q) == Frame(u, q))
    && Frame(v, hi) in u.free && Frame(v, hi) !in v.free
    && (forall d :: d in u.tables ==> d in v.tables && v.tables[d].frame == u.tables[d].frame)
    && (forall d :: d in v.tables && d !in u.tables ==>
          v.tables[d].frame in u.free && v.tables[d].frame != Frame(v, hi))
    && (forall d :: d in u.tables ==> u.tables[d].frame !in u.free)
    && v.free <= u.free
    && |v.free| + |v.tables| + 1 == |u.free| + |u.tables|
  }

  lemma TakesAccounted(s: Space, u: Space, v: Space, lo: int, hi: int)
    requires Accounted(s, u, lo, hi) && !Mapped(s, hi) && Takes(u, v, hi)
    ensures Accounted(s, v, lo, hi + 1)
  {
    hide Mapped;
  }

  lemma TableFramesTaken(u: Space)
    requires Consistent(u)
    ensures forall d :: d in u.tables ==> u.tables[d].frame !in u.free
  {
    forall d | d in u.tables ensures u.tables[d].frame !in u.free {
      assert TableOk(u, d);
    }
  }

  lemma AllocMapTakes(u: Space, hi: int)
    requires Consistent(u) && !Mapped(u, hi)
    requires |u.free| >= if hi / 1024 in u.tables then 1 else 2
    ensures Takes(u, AllocMap(u, hi), hi)
  {
    hide Consistent;
    TableFramesTaken(u);
    var f := Min(u.free);
    var w, v := u.(free := u.free - {f}), AllocMap(u, hi);
    assert |w.free| == |u.free| - 1;
    forall q ensures Mapped(v, q) <==> q == hi || Mapped(u, q)
      ensures Mapped(u, q) && q != hi ==> Mapped(v, q) && Frame(v, q) == Frame(u, q)
    {
      MapPageExact(w, hi, f, q);
    }
    MapPageExact(w, hi, f, hi);
    MapPageTables(w, hi, f);
    hide Mapped, Frame, MapPage;
  }

  /** map_page keeps the old tables; a new one lies in the lowest free frame. */
  lemma MapPageTables(w: Space, p: int, f: int)
    requires p / 1024 !in w.tables ==> w.free != {}
    ensures var v, d := MapPage(w, p, f), p / 1024;
            && (forall e :: e in v.tables <==> e in w.tables || e == d)
            && (forall e :: e in w.tables ==> v.tables[e].frame == w.tables[e].frame)
            && (d !in w.tables ==> v.tables[d].frame == Min(w.free) && Min(w.free) in w.free)
            && v.free == (if d in w.tables then w.free else w.free - {Min(w.free)})
            && |v.free| + |v.tables| == |w.free| + |w.tables|
  {
    var v, d := MapPage(w, p, f), p / 1024;
    if d in w.tables {
      assert v.tables.Keys == w.tables.Keys;
    } else {
      assert v.tables.Keys == w.tables.Keys + {d};
      assert |v.free| == |w.free| - 1;
    }
  }

  /** v comes from u by unmapping page lo and freeing its frame, perhaps with its table. */
  ghost predicate Gives(u: Space, v: Space, lo: int) {
    && Mapped(u, lo) && lo / 1024 in u.tables
    && (forall q :: Mapped(v, q) <==> q != lo && Mapped(u, q))
    && (forall q :: Mapped(v, q) ==> Frame(v, q) == Frame(u, q))
    && (forall d :: d in v.tables ==> d in u.tables && v.tables[d].frame == u.tables[d].frame)
    && v.free <= u.free + {Frame(u, lo), u.tables[lo / 1024].frame}
    && (forall d :: d in u.tables && d !in v.tables ==> d == lo / 1024)
    && (u.tables[lo / 1024].frame in v.free ==> lo / 1024 !in v.tables)
    && |v.free| + |v.tables| == |u.free| + |u.tables| + 1
  }

  lemma GivesAccounted(s: Space, u: Space, v: Space, lo: int, hi: int)
    requires Accounted(s, u, lo, hi) && lo < hi && Gives(u, v, lo)
    requires lo / 1024 in s.tables ==> lo / 1024 in v.tables
    ensures Accounted(s, v, lo + 1, hi)
  {
    hide Mapped;
    assert PagesBetween(s, v, lo + 1, hi);
    assert FramesBetween(s, v, lo + 1, hi);
    assert TablesBetween(s, v);
    var f, t := Frame(u, lo), u.tables[lo / 1024].frame;
    if lo / 1024 in v.tables {
      assert v.free <= u.free + {f};
    } else {
      assert t in s.free;
    }
    assert v.free <= s.free;
  }

  lemma FreeUnmapGives(u: Space, lo: int)
    requires Consistent(u) && Mapped(u, lo) && Frame(u, lo) !in u.free
    requires forall d :: d in u.tables ==> u.tables[d].frame != Frame(u, lo)
    ensures Gives(u, FreeUnmap(u, lo), lo)
  {
    hide Consistent;
    TableFramesTaken(u);
    var f, v := Frame(u, lo), FreeUnmap(u, lo);
    forall q ensures Mapped(v, q) <==> q != lo && Mapped(u, q)
      ensures Mapped(v, q) ==> Frame(v, q) == Frame(u, q)
    {
      UnmapPageExact(u.(free := u.free + {f}), lo, q);
    }
    UnmapPageTables(u.(free := u.free + {f}), lo);
    hide Mapped, Frame, UnmapPage;
  }

  /** unmap_page keeps the other tables; the page's own goes back, if it goes. */
  lemma UnmapPageTables(u: Space, p: int)
    requires Mapped(u, p)
    ensures var v, d := UnmapPage(u, p), p / 1024;
            && d in u.tables && (forall e :: e in v.tables ==> e in u.tables && v.tables[e].frame == u.tables[e].frame)
            && (forall e :: e in u.tables && e !in v.tables ==> e == d)
            && v.free == (if d in v.tables then u.free else u.free + {u.tables[d].frame})
            && (u.tables[d].frame !in u.free ==> |v.free| + |v.tables| == |u.free| + |u.tables|)
  {
    var v, d := UnmapPage(u, p), p / 1024;
    if d in v.tables {
      assert v.tables.Keys == u.tables.Keys;
    } else {
      assert v.tables.Keys == u.tables.Keys - {d};
    }
  }

  // ---- one turn of either loop ----

  lemma MapStep(s: Space, u: Space, lo: int, hi: int)
    requires Between(s, u, lo, hi) && !Mapped(s, hi)
    requires |u.free| >= if hi / 1024 in u.tables then 1 else 2
    ensures Between(s, AllocMap(u, hi), lo, hi + 1)
  {
    hide Consistent, Mapped, Takes;
    NotYetMapped(s, u, lo, hi);
    AllocMapTakes(u, hi);
    TakesAccounted(s, u, AllocMap(u, hi), lo, hi);
    AllocMapConsistent(u, hi);
  }

  lemma BetweenPages(s: Space, u: Space, lo: int, hi: int)
    requires Between(s, u, lo, hi)
    ensures forall q :: Mapped(u, q) <==> Mapped(s, q) || lo <= q < hi
  {
    hide Consistent, Mapped;
  }

  lemma NotYetMapped(s: Space, u: Space, lo: int, hi: int)
    requires Between(s, u, lo, hi) && !Mapped(s, hi)
    ensures !Mapped(u, hi)
  {
    hide Consistent, Mapped;
  }

  lemma AllocMapConsistent(u: Space, hi: int)
    requires Consistent(u) && |u.free| >= if hi / 1024 in u.tables then 1 else 2
    ensures Consistent(AllocMap(u, hi))
  {
    var f := Min(u.free);
    var w := u.(free := u.free - {f});
    assert |w.free| == |u.free| - 1;
    assert Consistent(w) by {
      forall d | d in w.tables ensures TableOk(w, d) {
        assert TableOk(u, d);
      }
    }
    hide Consistent;
    MapConsistent(w, hi, f);
  }

  lemma FreeStep(s: Space, u: Space, lo: int, hi: int)
    requires Between(s, u, lo, hi) && lo < hi
    ensures Mapped(u, lo) && Between(s, FreeUnmap(u, lo), lo + 1, hi)
  {
    hide Consistent, Mapped, Gives;
    assert Mapped(u, lo);
    FreeUnmapGives(u, lo);
    OldTableStays(s, u, lo, u.free + {Frame(u, lo)});
    GivesAccounted(s, u, FreeUnmap(u, lo), lo, hi);
    FreeUnmapConsistent(u, lo);
  }

  lemma FreeUnmapConsistent(u: Space, lo: int)
    requires Consistent(u) && Mapped(u, lo) && Frame(u, lo) !in u.free
    requires forall d :: d in u.tables ==> u.tables[d].frame != Frame(u, lo)
    ensures Consistent(FreeUnmap(u, lo))
  {
    var w := u.(free := u.free + {Frame(u, lo)});
    assert Consistent(w) by {
      forall d | d in w.tables ensures TableOk(w, d) {
        assert TableOk(u, d);
      }
    }
    UnmapConsistent(w, lo);
  }

  /** A table of s is not given back with a page that s does not map: a page of s still uses it. */
  lemma OldTableStays(s: Space, u: Space, lo: int, free: set<int>)
    requires Consistent(s) && Mapped(u, lo) && !Mapped(s, lo) && forall q :: Mapped(s, q) ==> Mapped(u, q)
    ensures Mapped(u.(free := free), lo)
    ensures lo / 1024 in s.tables ==> lo / 1024 in UnmapPage(u.(free := free), lo).tables
  {
    var d := lo / 1024;
    if d in s.tables {
      assert TableOk(s, d);
      var j := Pick(s.tables[d].entries.Keys);
      var q := d * 1024 + j;
      assert q / 1024 == d && q % 1024 == j;
      assert Mapped(s, q);
      assert Mapped(u, q) && q != lo;
      assert j in u.tables[d].entries - {lo % 1024};
    }
  }

  // ---- the tables a region needs ----

  lemma SlotsAre(p: int, n: nat, d: int)
    ensures d in Slots(p, n) <==> n > 0 && p / 1024 <= d <= (p + n - 1) / 1024
  {
  }

  /** Tables appear exactly for the slots the pages touch. */
  lemma BetweenSlots(s: Space, u: Space, lo: int, hi: int, d: int)
    requires PagesAre(s, u, lo, hi)
    ensures d in u.tables <==> d in s.tables || d in Slots(lo, hi - lo)
  {
    hide Slots;
    SlotsAre(lo, hi - lo, d);
    if d in u.tables && d !in s.tables {
      assert TableOk(u, d);
      var j := Pick(u.tables[d].entries.Keys);
      var q := d * 1024 + j;
      assert q / 1024 == d && q % 1024 == j;
      assert Mapped(u, q);
      assert lo <= q < hi;
    } else if lo < hi && lo / 1024 <= d <= (hi - 1) / 1024 {
      var q := if lo / 1024 == d then lo else d * 1024;
      assert lo <= q < hi && q / 1024 == d;
      assert Mapped(u, q);
    }
  }

  /** The frames taken are exactly the needed ones. */
  lemma BackCount(s: Space, u: Space, p: int, n: nat)
    requires Between(s, u, p, p + n)
    ensures |u.free| == |s.free| - Need(s, p, n)
  {
    hide Slots, PagesBetween, FramesBetween, TablesBetween, Consistent;
    BackTables(s, u, p, n);
    var added := Slots(p, n) - s.tables.Keys;
    assert u.tables.Keys == s.tables.Keys + added;
    assert |s.tables.Keys + added| == |s.tables.Keys| + |added|;
  }

  lemma BackTables(s: Space, u: Space, p: int, n: nat)
    requires PagesAre(s, u, p, p + n)
    ensures u.tables.Keys == s.tables.Keys + Slots(p, n)
  {
    hide Slots, PagesAre;
    var all := s.tables.Keys + Slots(p, n);
    forall d ensures d in u.tables.Keys <==> d in all {
      BetweenSlots(s, u, p, p + n, d);
    }
    SameInts(u.tables.Keys, all);
  }

  /** A page more needs a frame more, and two if its slot has no table yet. */
  lemma NeedStep(s: Space, p: int, n: nat)
    requires n > 0
    ensures Need(s, p, n) >= Need(s, p, n - 1) +
            if (p + n - 1) / 1024 in s.tables || (p + n - 1) / 1024 in Slots(p, n - 1) then 1 else 2
  {
    var d := (p + n - 1) / 1024;
    var a, b := Slots(p, n - 1) - s.tables.Keys, Slots(p, n) - s.tables.Keys;
    assert a <= b;
    SubsetSize(a, b);
    if d !in s.tables && d !in Slots(p, n - 1) {
      assert d in b - a;
      SubsetSize({d}, b - a);
    }
  }

  /** With the needed frames free, vmalloc's loop backs every page with a frame of its own that was free. */
  lemma {:induction false} BackBetween(s: Space, p: int, n: nat)
    requires Consistent(s) && Unmapped(s, p, n) && |s.free| >= Need(s, p, n)
    ensures Between(s, Back(s, p, n), p, p + n)
    ensures |Back(s, p, n).free| == |s.free| - Need(s, p, n)
  {
    hide Consistent, Mapped, AllocMap, Slots, PagesBetween, FramesBetween, TablesBetween, Need;
    if n == 0 {
      NothingDone(s, p);
    } else {
      NeedStep(s, p, n);
      BackBetween(s, p, n - 1);
      var u := Back(s, p, n - 1);
      BetweenSlots(s, u, p, p + n - 1, (p + n - 1) / 1024);
      MapStep(s, u, p, p + n - 1);
    }
    BackCount(s, Back(s, p, n), p, n);
  }

  /** Before every turn of the loop there are frames for its page and for a table the page may need. */
  lemma NextFrames(s: Space, p: int, n: nat, k: nat)
    requires Consistent(s) && Unmapped(s, p, n) && |s.free| >= Need(s, p, n) && k < n
    ensures Between(s, Back(s, p, k), p, p + k) && !Mapped(Back(s, p, k), p + k)
    ensures |Back(s, p, k).free| >= if (p + k) / 1024 in Back(s, p, k).tables then 1 else 2
  {
    hide Consistent, AllocMap, Slots, PagesBetween, FramesBetween, TablesBetween, Need;
    NeedMonotone(s, p, k + 1, n);
    NeedStep(s, p, k + 1);
    assert Unmapped(s, p, k);
    BackBetween(s, p, k);
    BetweenSlots(s, Back(s, p, k), p, p + k, (p + k) / 1024);
    NotYetMapped(s, Back(s, p, k), p, p + k);
  }

  lemma {:induction false} NeedMonotone(s: Space, p: int, k: nat, n: nat)
    requires k <= n
    ensures Need(s, p, k) <= Need(s, p, n)
  {
    hide Need, Slots;
    if k < n {
      NeedStep(s, p, n);
      NeedMonotone(s, p, k, n - 1);
    }
  }

  lemma NothingDone(s: Space, p: int)
    requires Consistent(s)
    ensures Between(s, s, p, p)
  {
  }

  /** Halfway through vfree's loop the rest of the region is still backed. */
  lemma {:induction false} UnbackBetween(s: Space, u: Space, p: int, n: nat, k: nat)
    requires Between(s, u, p, p + n) && k <= n
    ensures Between(s, Unback(u, p, k), p + k, p + n)
  {
    hide Between, Mapped, FreeUnmap;
    if k > 0 {
      UnbackBetween(s, u, p, n, k - 1);
      FreeStep(s, Unback(u, p, k - 1), p + k - 1, p + n);
    }
  }

  lemma NothingLeft(s: Space, u: Space, p: int)
    requires Between(s, u, p, p)
    ensures u == s
  {
    forall d ensures d in u.tables <==> d in s.tables {
      BetweenSlots(s, u, p, p, d);
    }
    forall d | d in s.tables ensures u.tables[d] == s.tables[d] {
      SameTable(s, u, p, d);
    }
    assert u.tables == s.tables;
    assert u.tables.Keys == s.tables.Keys;
    SubsetSize(u.free, s.free);
    assert s.free - u.free == {};
  }

  lemma SameTable(s: Space, u: Space, p: int, d: int)
    requires PagesAre(s, u, p, p) && d in s.tables
    ensures d in u.tables && u.tables[d] == s.tables[d]
  {
    var a, b := s.tables[d].entries, u.tables[d].entries;
    assert TableOk(s, d) && TableOk(u, d);
    forall j ensures j in a <==> j in b
      ensures j in a && j in b ==> a[j] == b[j]
    {
      if j in a || j in b {
        var q := d * 1024 + j;
        assert q / 1024 == d && q % 1024 == j;
        assert Mapped(s, q) <==> Mapped(u, q);
      }
    }
    assert a == b;
  }

  /**
   Giving back everything that was backed restores the whole space: the free frames, the frames the page
   tables lie in and the address map.
   */
  lemma BackUnback(s: Space, p: int, n: nat)
    requires Consistent(s) && Unmapped(s, p, n) && |s.free| >= Need(s, p, n)
    ensures Unback(Back(s, p, n), p, n) == s
  {
    hide *;
    BackBetween(s, p, n);
    UnbackBetween(s, Back(s, p, n), p, n, n);
    NothingLeft(s, Unback(Back(s, p, n), p, n), p + n);
  }

  // ---- what vfree needs of the region it is given ----

  /** Pages lo to hi are mapped, each to a frame of RAM of its own that is in use and holds no table. */
  ghost predicate Backed(u: Space, lo: int, hi: int) {
    && (forall q :: lo <= q < hi ==> Mapped(u, q) && 0 < Frame(u, q) < FRAMES && Frame(u, q) !in u.free)
    && (forall q, d :: lo <= q < hi && Mapped(u, q) && d in u.tables ==> Frame(u, q) != u.tables[d].frame)
    && (forall q, r :: lo <= q < r < hi && Mapped(u, q) && Mapped(u, r) ==> Frame(u, q) != Frame(u, r))
  }

  lemma BetweenFrames(s: Space, u: Space, lo: int, hi: int)
    requires Between(s, u, lo, hi)
    ensures forall q :: lo <= q < hi && Mapped(u, q) ==> Frame(u, q) in s.free
  {
    hide Consistent, Mapped;
  }

  lemma BetweenBacked(s: Space, u: Space, lo: int, hi: int)
    requires Between(s, u, lo, hi) && forall f :: f in s.free ==> 0 < f < FRAMES
    ensures Backed(u, lo, hi)
  {
    hide Consistent, Mapped;
  }

  lemma BackedStep(u: Space, lo: int, hi: int)
    requires Consistent(u) && Backed(u, lo, hi) && lo < hi
    ensures Mapped(u, lo) && Backed(FreeUnmap(u, lo), lo + 1, hi) && Consistent(FreeUnmap(u, lo))
  {
    hide Consistent, Mapped, FreeUnmap;
    assert Mapped(u, lo);
    FreeUnmapGives(u, lo);
    FreeUnmapConsistent(u, lo);
  }
}
