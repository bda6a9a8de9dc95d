/**
 The page of heapinfo entries that set_heapinfo may have to back first
 (kernel/modules/memory/vheap.c:80-96): as meant, one frame; as written, two, of which one is mapped.
 */
module TagPages {
  import opened Space

  /** With the frame that line 86 takes also being the one mapped. */
  ghost function BackAsMeant(s: Space, p: int): Space {
    if Mapped(s, p) then s else AllocMap(s, p)
  }

  /** Line 86 takes a frame, line 91 takes another and maps that. */
  ghost function BackAsWritten(s: Space, p: int): Space {
    if Mapped(s, p) then s else AllocMap(s.(free := s.free - {Min(s.free)}), p)
  }

  ghost predicate HoldsPage(u: Space, f: int) {
    exists q :: Mapped(u, q) && Frame(u, q) == f
  }

  ghost predicate HoldsTable(u: Space, f: int) {
    exists d :: d in u.tables && u.tables[d].frame == f
  }

  /** From s to u no frame has been lost: those no longer free hold a page or a table. */
  ghost predicate NoneLost(s: Space, u: Space) {
    forall f :: f in s.free && f !in u.free ==> HoldsPage(u, f) || HoldsTable(u, f)
  }

  ghost predicate PagesTaken(s: Space) {
    forall q :: Mapped(s, q) ==> Frame(s, q) !in s.free
  }

  lemma MeantLosesNone(s: Space, p: int)
    requires Consistent(s) && (!Mapped(s, p) ==> |s.free| >= if p / 1024 in s.tables then 1 else 2)
    ensures NoneLost(s, BackAsMeant(s, p))
  {
    if Mapped(s, p) {
      return;
    }
    var u, f := BackAsMeant(s, p), Min(s.free);
    AllocMapTakes(s, p);
    forall g | g in s.free && g !in u.free ensures HoldsPage(u, g) || HoldsTable(u, g) {
      if g == f {
        MapPageExact(s.(free := s.free - {f}), p, f, p);
        assert Mapped(u, p) && Frame(u, p) == g;
      } else {
        assert p / 1024 in u.tables && u.tables[p / 1024].frame == g;
      }
    }
  }

  /** As written a frame is lost exactly when the page was not mapped: the one line 86 takes. */
  lemma WrittenLosesExactly(s: Space, p: int)
    requires Consistent(s) && PagesTaken(s) && (!Mapped(s, p) ==> |s.free| >= if p / 1024 in s.tables then 2 else 3)
    ensures NoneLost(s, BackAsWritten(s, p)) <==> Mapped(s, p)
    ensures Consistent(BackAsWritten(s, p)) && Mapped(BackAsWritten(s, p), p)
  {
    if Mapped(s, p) {
      return;
    }
    var f := Min(s.free);
    var w, u := s.(free := s.free - {f}), BackAsWritten(s, p);
    FewerFree(s, f);
    AllocMapTakes(w, p);
    AllocMapConsistent(w, p);
    hide Consistent, AllocMap, BackAsWritten;
    forall q | Mapped(u, q) ensures Frame(u, q) != f {
      assert q == p || Mapped(s, q);
    }
    TableFramesTaken(s);
    assert !HoldsPage(u, f) && !HoldsTable(u, f) && f in s.free && f !in u.free;
  }

  lemma TakenMore(s: Space, p: int)
    requires Consistent(s) && PagesTaken(s) && !Mapped(s, p) && |s.free| >= if p / 1024 in s.tables then 1 else 2
    ensures PagesTaken(AllocMap(s, p))
  {
    AllocMapTakes(s, p);
    hide Consistent, AllocMap, Mapped;
  }

  lemma StillTaken(s: Space, p: int)
    requires Consistent(s) && PagesTaken(s) && !Mapped(s, p) && |s.free| >= if p / 1024 in s.tables then 2 else 3
    ensures PagesTaken(BackAsWritten(s, p))
  {
    var f := Min(s.free);
    FewerFree(s, f);
    TakenMore(s.(free := s.free - {f}), p);
  }

  lemma FewerFree(s: Space, f: int)
    requires Consistent(s) && f in s.free
    ensures var w := s.(free := s.free - {f});
            && Consistent(w) && |w.free| == |s.free| - 1 && forall q :: Mapped(w, q) <==> Mapped(s, q)
  {
    var w := s.(free := s.free - {f});
    forall d | d in w.tables ensures TableOk(w, d) {
      assert TableOk(s, d);
    }
  }
}
