/** Who holds which frame: pages that own the frame behind them, address spaces that grow by such pages,
    and pages that are taken away again. The heap, the slabs and the areas share these notions. */
module Owners {
  import opened Kernel
  import Pmm
  import V = Vmm

  // ---------------------------------------------------------------- owning pages

  /** The frame behind a page, 0 if it is not mapped. */
  function FrameAt(m: V.Memory, dir: nat, page: int): int
    requires V.WellFormed(m) && dir < V.FRAMES && 0 <= page < V.WINDOW / PAGE
  {
    match V.Translate(m, dir, page)
    case Some(t) => t.frame
    case None => 0
  }

  ghost predicate NotATable(m: V.Memory, dir: nat, f: int)
    requires V.WellFormed(m) && dir < V.FRAMES
  {
    f != dir && forall i :: 0 <= i < V.RECURSIVE_SLOT && V.Present(m[dir][i]) ==> V.FrameOf(m[dir][i]) != f
  }

  /** The page is mapped to a managed frame that is neither free nor a table. */
  ghost predicate PageOwned(m: V.Memory, dir: nat, free: set<int>, total: int, page: int)
    requires V.WellFormed(m) && dir < V.FRAMES
  {
    && 0 <= page < V.WINDOW / PAGE && V.Translate(m, dir, page).Some?
    && 0 < FrameAt(m, dir, page) < total && FrameAt(m, dir, page) !in free
    && NotATable(m, dir, FrameAt(m, dir, page))
  }

  ghost predicate AllOwned(m: V.Memory, dir: nat, free: set<int>, total: int, pages: set<int>)
    requires V.WellFormed(m) && dir < V.FRAMES
  {
    && (forall p {:trigger p in pages} :: p in pages ==> PageOwned(m, dir, free, total, p))
    && (forall p, q {:trigger p in pages, q in pages} ::
          p in pages && q in pages && p != q ==> FrameAt(m, dir, p) != FrameAt(m, dir, q))
  }

  /** Every page of the set has a frame of its own. */
  ghost predicate Holds(m: V.Memory, dir: nat, free: set<int>, total: int, pages: set<int>)
    requires V.WellFormed(m) && dir < V.FRAMES
  {
    OwnersSeal(m, dir, free, total, pages).Intact?
  }

  ghost function OwnersSeal(m: V.Memory, dir: nat, free: set<int>, total: int, pages: set<int>): Seal
    requires V.WellFormed(m) && dir < V.FRAMES
  {
    if forall k {:trigger Open(TheOwners, k)} :: Open(TheOwners, k) ==> AllOwned(m, dir, free, total, pages)
    then Intact else Broken
  }

  lemma HoldsNothing(m: V.Memory, dir: nat, free: set<int>, total: int)
    requires V.WellFormed(m) && dir < V.FRAMES
    ensures Holds(m, dir, free, total, {})
  {}

  lemma HoldsPart(m: V.Memory, dir: nat, free: set<int>, total: int, pages: set<int>, part: set<int>)
    requires V.WellFormed(m) && dir < V.FRAMES && Holds(m, dir, free, total, pages) && part <= pages
    ensures Holds(m, dir, free, total, part)
  {
    assert Open(TheOwners, 0);
  }

  lemma HoldsPage(m: V.Memory, dir: nat, free: set<int>, total: int, pages: set<int>, page: int)
    requires V.WellFormed(m) && dir < V.FRAMES && Holds(m, dir, free, total, pages) && page in pages
    ensures PageOwned(m, dir, free, total, page)
  {
    assert Open(TheOwners, 0);
  }

  /** Two pages of the set never share a frame. */
  lemma HoldsApart(m: V.Memory, dir: nat, free: set<int>, total: int, pages: set<int>, p: int, q: int)
    requires V.WellFormed(m) && dir < V.FRAMES && Holds(m, dir, free, total, pages)
    requires p in pages && q in pages && p != q
    ensures 0 <= p < V.WINDOW / PAGE && 0 <= q < V.WINDOW / PAGE
    ensures FrameAt(m, dir, p) != FrameAt(m, dir, q)
  {
    assert Open(TheOwners, 0);
    assert PageOwned(m, dir, free, total, p) && PageOwned(m, dir, free, total, q);
  }

  /** The page is mapped already, to another frame than the one the allocator hands out next, and paging
      is on: vmm_map_page refuses. */
  ghost predicate Occupied(m: V.Memory, dir: nat, free: set<int>, page: nat, paging: bool)
    requires V.WellFormed(m) && dir < V.FRAMES && page < V.WINDOW / PAGE
  {
    paging && V.Translate(m, dir, page).Some? && !Pmm.Lowest(free, FrameAt(m, dir, page))
  }

  // ---------------------------------------------------------------- growing

  /** Page p was given a frame that had been free. */
  ghost predicate NewlyOwned(m': V.Memory, dir: nat, free: set<int>, free': set<int>, total: int, p: int)
    requires V.WellFormed(m') && dir < V.FRAMES && 0 <= p < V.WINDOW / PAGE
  {
    && V.Translate(m', dir, p).Some? && FrameAt(m', dir, p) in free && FrameAt(m', dir, p) !in free'
    && 0 < FrameAt(m', dir, p) < total && NotATable(m', dir, FrameAt(m', dir, p))
  }

  ghost predicate GrewOk(m: V.Memory, m': V.Memory, dir: nat, free: set<int>, free': set<int>, total: int, lo: int,
                         hi: int)
    requires V.WellFormed(m) && V.WellFormed(m') && dir < V.FRAMES && 0 <= lo <= hi <= V.WINDOW / PAGE
  {
    && free' <= free && V.TablesFrom(m, m', dir, free) && V.SameExcept(m, m', dir, lo, hi)
    && (forall p {:trigger NewlyOwned(m', dir, free, free', total, p)} ::
          lo <= p < hi ==> NewlyOwned(m', dir, free, free', total, p))
    && (forall p, q {:trigger FrameAt(m', dir, p), FrameAt(m', dir, q)} ::
          lo <= p < q < hi ==> FrameAt(m', dir, p) != FrameAt(m', dir, q))
  }

  /** The pages of [lo, hi) were mapped to frames of their own that had been free; other frames that are
      no longer free have become tables, and every other translation is as before. */
  ghost predicate Grew(m: V.Memory, m': V.Memory, dir: nat, free: set<int>, free': set<int>, total: int, lo: int,
                       hi: int)
    requires V.WellFormed(m) && V.WellFormed(m') && dir < V.FRAMES && 0 <= lo <= hi <= V.WINDOW / PAGE
  {
    GrowthSeal(m, m', dir, free, free', total, lo, hi).Intact?
  }

  ghost function GrowthSeal(m: V.Memory, m': V.Memory, dir: nat, free: set<int>, free': set<int>, total: int,
                            lo: int, hi: int): Seal
    requires V.WellFormed(m) && V.WellFormed(m') && dir < V.FRAMES && 0 <= lo <= hi <= V.WINDOW / PAGE
  {
    if forall k {:trigger Open(TheGrowth, k)} :: Open(TheGrowth, k) ==> GrewOk(m, m', dir, free, free', total, lo, hi)
    then Intact else Broken
  }

  /** Tables that a step installs come from frames that were free. */
  lemma StillNotATable(m: V.Memory, m': V.Memory, dir: nat, free: set<int>, f: int)
    requires V.WellFormed(m) && V.WellFormed(m') && dir < V.FRAMES
    requires NotATable(m, dir, f) && V.TablesFrom(m, m', dir, free) && f !in free
    ensures NotATable(m', dir, f)
  {}

  lemma FreeIsNoTable(m: V.Memory, dir: nat, free: set<int>, p: int)
    requires V.WellFormed(m) && dir < V.FRAMES && V.Owned(m, dir, free) && p in free
    ensures NotATable(m, dir, p)
  {}

  /** A page outside the grown range keeps its owner. */
  lemma OwnerStays(m: V.Memory, m': V.Memory, dir: nat, free: set<int>, free': set<int>, total: int, lo: int, hi: int,
                   p: int)
    requires V.WellFormed(m) && V.WellFormed(m') && dir < V.FRAMES && 0 <= lo <= hi <= V.WINDOW / PAGE
    requires GrewOk(m, m', dir, free, free', total, lo, hi) && PageOwned(m, dir, free, total, p) && !(lo <= p < hi)
    ensures PageOwned(m', dir, free', total, p) && FrameAt(m', dir, p) == FrameAt(m, dir, p)
  {
    assert V.Translate(m', dir, p) == V.Translate(m, dir, p);
    StillNotATable(m, m', dir, free, FrameAt(m, dir, p));
  }

  /** Growth keeps every owner, whoever it is, and adds the new pages to them. */
  lemma GrewHolds(m: V.Memory, m': V.Memory, dir: nat, free: set<int>, free': set<int>, total: int,
                  lo: int, hi: int, pages: set<int>)
    requires V.WellFormed(m) && V.WellFormed(m') && dir < V.FRAMES && 0 <= lo <= hi <= V.WINDOW / PAGE
    requires Grew(m, m', dir, free, free', total, lo, hi) && Holds(m, dir, free, total, pages)
    requires forall p :: p in pages ==> !(lo <= p < hi)
    ensures Holds(m', dir, free', total, pages + Range(lo, hi))
  {
    assert Open(TheGrowth, 0) && Open(TheOwners, 0);
    forall p | p in pages ensures PageOwned(m', dir, free', total, p) && FrameAt(m', dir, p) == FrameAt(m, dir, p) {
      OwnerStays(m, m', dir, free, free', total, lo, hi, p);
    }
    forall p | lo <= p < hi ensures PageOwned(m', dir, free', total, p) && FrameAt(m', dir, p) in free {
      assert NewlyOwned(m', dir, free, free', total, p);
    }
    forall p, q | p in pages + Range(lo, hi) && q in pages + Range(lo, hi) && p != q
      ensures FrameAt(m', dir, p) != FrameAt(m', dir, q)
    {
      assert p in pages ==> PageOwned(m, dir, free, total, p);
      assert q in pages ==> PageOwned(m, dir, free, total, q);
    }
  }

  lemma GrewSame(m: V.Memory, m': V.Memory, dir: nat, free: set<int>, free': set<int>, total: int, lo: int, hi: int)
    requires V.WellFormed(m) && V.WellFormed(m') && dir < V.FRAMES && 0 <= lo <= hi <= V.WINDOW / PAGE
    requires Grew(m, m', dir, free, free', total, lo, hi)
    ensures V.SameExcept(m, m', dir, lo, hi) && free' <= free
  {
    assert Open(TheGrowth, 0);
  }

  /** A step that maps no page. */
  lemma NoGrowth(m: V.Memory, m': V.Memory, dir: nat, free: set<int>, free': set<int>, total: int, lo: int)
    requires V.WellFormed(m) && V.WellFormed(m') && dir < V.FRAMES && 0 <= lo <= V.WINDOW / PAGE
    requires V.StepKept(m, m', dir, free, free') && V.SameExcept(m, m', dir, 0, 0)
    ensures Grew(m, m', dir, free, free', total, lo, lo)
  {
    assert Open(TheStep, 0);
  }

  lemma GrewNothing(m: V.Memory, dir: nat, free: set<int>, total: int, lo: int)
    requires V.WellFormed(m) && dir < V.FRAMES && 0 <= lo <= V.WINDOW / PAGE
    ensures Grew(m, m, dir, free, free, total, lo, lo)
  {
    assert V.TablesFrom(m, m, dir, free);
  }

  /** A frame of the data that a step leaves alone: its owner is new. */
  lemma NewOwner(m: V.Memory, m': V.Memory, dir: nat, free: set<int>, data: set<int>, free': set<int>, total: int,
                 p: int)
    requires V.WellFormed(m) && V.WellFormed(m') && dir < V.FRAMES && 0 <= p < V.WINDOW / PAGE
    requires V.Owned(m, dir, free) && V.Kept(m, m', dir, free - data, free') && data <= free
    requires V.Translate(m', dir, p).Some? && FrameAt(m', dir, p) in data && 0 < FrameAt(m', dir, p) < total
    ensures NewlyOwned(m', dir, free, free', total, p)
  {
    FreeIsNoTable(m, dir, free, FrameAt(m', dir, p));
    StillNotATable(m, m', dir, free - data, FrameAt(m', dir, p));
  }

  /** A range mapped onto consecutive frames, as vmm_map_pages does it. */
  lemma RangeGrew(m: V.Memory, m': V.Memory, dir: nat, free: set<int>, free': set<int>, total: int,
                  lo: nat, n: nat, phys: V.Word, flags: nat)
    requires V.WellFormed(m) && V.WellFormed(m') && dir < V.FRAMES && lo + n <= V.WINDOW / PAGE
    requires phys % PAGE == 0 && phys + n * PAGE <= TWO32 && flags % 2 == 1
    requires 0 < phys / PAGE && phys / PAGE + n <= total && V.Owned(m, dir, free)
    requires Range(phys / PAGE, phys / PAGE + n) <= free
    requires V.StepKept(m, m', dir, free - Range(phys / PAGE, phys / PAGE + n), free')
    requires V.SameExcept(m, m', dir, lo, lo + n) && V.MappedRange(m', dir, lo, phys, n, flags)
    ensures Grew(m, m', dir, free, free', total, lo, lo + n)
  {
    assert Open(TheStep, 0);
    var data := Range(phys / PAGE, phys / PAGE + n);
    forall p | lo <= p < lo + n
      ensures V.Translate(m', dir, p).Some? && FrameAt(m', dir, p) == phys / PAGE + (p - lo)
      ensures NewlyOwned(m', dir, free, free', total, p)
    {
      FrameInRange(phys, p - lo);
      assert V.Translate(m', dir, p) == V.MappingFor(phys + (p - lo) * PAGE, flags);
      NewOwner(m, m', dir, free, data, free', total, p);
    }
    MoreTables(m, m', dir, free - data, free);
  }

  lemma FrameInRange(phys: V.Word, k: nat)
    requires phys % PAGE == 0 && phys + k * PAGE < TWO32
    ensures V.FrameOf(phys + k * PAGE) == phys / PAGE + k
  {}

  lemma MoreTables(m: V.Memory, m': V.Memory, dir: nat, part: set<int>, free: set<int>)
    requires V.WellFormed(m) && V.WellFormed(m') && dir < V.FRAMES && V.TablesFrom(m, m', dir, part) && part <= free
    ensures V.TablesFrom(m, m', dir, free)
  {}

  /** One page mapped to frame f. */
  lemma PageGrew(m: V.Memory, m': V.Memory, dir: nat, free: set<int>, f: int, free': set<int>, total: int, page: nat,
                 paging: bool)
    requires V.WellFormed(m) && V.WellFormed(m') && dir < V.FRAMES && page < V.WINDOW / PAGE
    requires V.TablesSeal(m, dir, free, paging).Intact? && f in free && 0 < f < total
    requires V.StepKept(m, m', dir, free - {f}, free') && V.SameExcept(m, m', dir, page, page + 1)
    requires V.Translate(m', dir, page).Some? && V.Translate(m', dir, page).value.frame == f
    ensures Grew(m, m', dir, free, free', total, page, page + 1)
  {
    assert Open(TheTables, 0) && Open(TheStep, 0);
    NewOwner(m, m', dir, free, {f}, free', total, page);
    MoreTables(m, m', dir, free - {f}, free);
  }

  /** Two growths in a row. */
  lemma GrewTwice(m: V.Memory, m1: V.Memory, m2: V.Memory, dir: nat, f: set<int>, f1: set<int>, f2: set<int>,
                  total: int, lo: int, mid: int, hi: int)
    requires V.WellFormed(m) && V.WellFormed(m1) && V.WellFormed(m2) && dir < V.FRAMES
    requires 0 <= lo <= mid <= hi <= V.WINDOW / PAGE
    requires Grew(m, m1, dir, f, f1, total, lo, mid) && Grew(m1, m2, dir, f1, f2, total, mid, hi)
    ensures Grew(m, m2, dir, f, f2, total, lo, hi)
  {
    assert Open(TheGrowth, 0);
    forall p | lo <= p < hi
      ensures NewlyOwned(m2, dir, f, f2, total, p)
      ensures p < mid ==> FrameAt(m2, dir, p) == FrameAt(m1, dir, p) && FrameAt(m2, dir, p) !in f1
      ensures mid <= p ==> FrameAt(m2, dir, p) in f1
    {
      if p < mid {
        assert NewlyOwned(m1, dir, f, f1, total, p);
        assert V.Translate(m2, dir, p) == V.Translate(m1, dir, p);
        StillNotATable(m1, m2, dir, f1, FrameAt(m1, dir, p));
      } else {
        assert NewlyOwned(m2, dir, f1, f2, total, p);
      }
    }
    TablesTwice(m, m1, m2, dir, f, f1);
  }

  lemma TablesTwice(m: V.Memory, m1: V.Memory, m2: V.Memory, dir: nat, f: set<int>, f1: set<int>)
    requires V.WellFormed(m) && V.WellFormed(m1) && V.WellFormed(m2) && dir < V.FRAMES && f1 <= f
    requires V.TablesFrom(m, m1, dir, f) && V.TablesFrom(m1, m2, dir, f1)
    ensures V.TablesFrom(m, m2, dir, f)
  {}

  // ---------------------------------------------------------------- giving a page back

  /** A page is unmapped and its frame becomes free: all other owners stay. */
  lemma ReleaseHolds(m: V.Memory, m': V.Memory, dir: nat, free: set<int>, total: int, pages: set<int>, page: int)
    requires V.WellFormed(m) && V.WellFormed(m') && dir < V.FRAMES && 0 <= page < V.WINDOW / PAGE
    requires Holds(m, dir, free, total, pages) && page in pages
    requires m'[dir] == m[dir] && V.SameExcept(m, m', dir, page, page + 1)
    ensures Holds(m', dir, free + {FrameAt(m, dir, page)}, total, pages - {page})
  {
    assert Open(TheOwners, 0);
    var f := FrameAt(m, dir, page);
    forall p | p in pages - {page}
      ensures PageOwned(m', dir, free + {f}, total, p) && FrameAt(m', dir, p) == FrameAt(m, dir, p)
    {
      assert PageOwned(m, dir, free, total, p);
      assert V.Translate(m', dir, p) == V.Translate(m, dir, p);
    }
  }

  /** The tables stay out of the free frames when an owned frame becomes free. */
  lemma ReleaseTables(m: V.Memory, m': V.Memory, dir: nat, free: set<int>, total: int, pages: set<int>, page: int,
                      paging: bool)
    requires V.WellFormed(m) && V.WellFormed(m') && dir < V.FRAMES && 0 <= page < V.WINDOW / PAGE
    requires Holds(m, dir, free, total, pages) && page in pages && m'[dir] == m[dir]
    requires V.TablesSeal(m', dir, free, paging).Intact?
    ensures V.TablesSeal(m', dir, free + {FrameAt(m, dir, page)}, paging).Intact?
  {
    assert Open(TheOwners, 0) && Open(TheTables, 0);
    assert PageOwned(m, dir, free, total, page);
  }

  // ---------------------------------------------------------------- unmapping

  /** The pages of the set are unmapped, and every other translation is as before. */
  ghost predicate Wiped(m: V.Memory, m': V.Memory, dir: nat, pages: set<int>)
    requires V.WellFormed(m) && V.WellFormed(m') && dir < V.FRAMES
  {
    WipeSeal(m, m', dir, pages).Intact?
  }

  ghost function WipeSeal(m: V.Memory, m': V.Memory, dir: nat, pages: set<int>): Seal
    requires V.WellFormed(m) && V.WellFormed(m') && dir < V.FRAMES
  {
    if forall k {:trigger Open(TheWiping, k)} :: Open(TheWiping, k) ==>
      forall page :: 0 <= page < V.WINDOW / PAGE ==>
        V.Translate(m', dir, page) == if page in pages then None else V.Translate(m, dir, page)
    then Intact else Broken
  }

  lemma WipedMeans(m: V.Memory, m': V.Memory, dir: nat, pages: set<int>, page: nat)
    requires V.WellFormed(m) && V.WellFormed(m') && dir < V.FRAMES && Wiped(m, m', dir, pages) && page < V.WINDOW / PAGE
    ensures V.Translate(m', dir, page) == if page in pages then None else V.Translate(m, dir, page)
  {
    assert Open(TheWiping, 0);
  }

  lemma NothingWiped(m: V.Memory, dir: nat)
    requires V.WellFormed(m) && dir < V.FRAMES
    ensures Wiped(m, m, dir, {})
  {}

  lemma OneWiped(m: V.Memory, m1: V.Memory, m2: V.Memory, dir: nat, pages: set<int>, page: nat)
    requires V.WellFormed(m) && V.WellFormed(m1) && V.WellFormed(m2) && dir < V.FRAMES && page < V.WINDOW / PAGE
    requires Wiped(m, m1, dir, pages) && V.SameExcept(m1, m2, dir, page, page + 1)
    requires V.Translate(m2, dir, page) == None
    ensures Wiped(m, m2, dir, pages + {page})
  {
    assert Open(TheWiping, 0);
  }

  lemma WipedTwice(m: V.Memory, m1: V.Memory, m2: V.Memory, dir: nat, pages: set<int>, more: set<int>)
    requires V.WellFormed(m) && V.WellFormed(m1) && V.WellFormed(m2) && dir < V.FRAMES
    requires Wiped(m, m1, dir, pages) && Wiped(m1, m2, dir, more)
    ensures Wiped(m, m2, dir, pages + more)
  {
    assert Open(TheWiping, 0);
    forall page | 0 <= page < V.WINDOW / PAGE
      ensures V.Translate(m2, dir, page) == if page in pages + more then None else V.Translate(m, dir, page)
    {
      assert V.Translate(m2, dir, page) == if page in more then None else V.Translate(m1, dir, page);
    }
  }
}
