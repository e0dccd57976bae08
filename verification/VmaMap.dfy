/** The VM_MAP_IMMEDIATE part of mmap_anonymous, src/mm/vma.c: a frame and a mapping for every page. */
module VmaMap {
  import opened Kernel
  import opened Owners
  import Pmm
  import V = Vmm

  /** The state in which the page loop starts, and its first page. */
  datatype Start = Start(m: V.Memory, dir: nat, free: set<int>, total: int, paging: bool, page: nat)

  ghost predicate Fits(c: Start, n: nat) {
    V.WellFormed(c.m) && c.dir < V.FRAMES && c.page + n <= V.WINDOW / PAGE
  }

  // ---------------------------------------------------------------- what can be served

  /** Frames page i needs: one for itself, and one for a table when it is the first of its slot and the
      slot has none. */
  ghost function Cost(c: Start, i: nat): nat
    requires Fits(c, i + 1)
  {
    if V.Present(c.m[c.dir][(c.page + i) / V.ENTRIES]) || (0 < i && (c.page + i) % V.ENTRIES != 0) then 1 else 2
  }

  /** Frames the first n pages need. */
  ghost function Need(c: Start, n: nat): nat
    requires Fits(c, n)
  {
    if n == 0 then 0 else Need(c, n - 1) + Cost(c, n - 1)
  }

  /** That is, one for each page and one for each missing table. */
  lemma {:induction false} NeedIs(c: Start, n: nat)
    requires Fits(c, n)
    ensures Need(c, n) == n + |V.Missing(c.m, c.dir, c.page, n)|
  {
    if n == 0 {
      assert V.Slots(c.page, 0) == {};
      assert V.Missing(c.m, c.dir, c.page, 0) == {};
    } else {
      NeedIs(c, n - 1);
      MissingMore(c, n - 1);
    }
  }

  lemma MissingMore(c: Start, i: nat)
    requires Fits(c, i + 1)
    ensures |V.Missing(c.m, c.dir, c.page, i + 1)| == |V.Missing(c.m, c.dir, c.page, i)| + Cost(c, i) - 1
  {
    SlotSeen(c.page, i);
    TableAt(c, i);
    MissingOne(c.m, c.dir, c.page, i, i + 1, (c.page + i) / V.ENTRIES);
  }

  lemma MissingOne(m: V.Memory, dir: nat, page: nat, i: nat, next: nat, slot: int)
    requires V.WellFormed(m) && dir < V.FRAMES && next == i + 1 && slot == (page + i) / V.ENTRIES
    ensures |V.Missing(m, dir, page, next)| ==
            |V.Missing(m, dir, page, i)| + if slot in V.Slots(page, i) || slot in V.Tables(m, dir) then 0 else 1
  {
    var old', new' := V.Missing(m, dir, page, i), V.Missing(m, dir, page, next);
    assert V.Slots(page, next) == V.Slots(page, i) + {slot};
    if slot in V.Slots(page, i) || slot in V.Tables(m, dir) {
      assert new' == old';
    } else {
      assert new' == old' + {slot} && slot !in old';
    }
  }

  lemma TableAt(c: Start, i: nat)
    requires Fits(c, i + 1)
    ensures var slot := (c.page + i) / V.ENTRIES;
            0 <= slot < V.RECURSIVE_SLOT && (slot in V.Tables(c.m, c.dir) <==> V.Present(c.m[c.dir][slot]))
  {}

  /** The slot of page i came up before exactly when page i is not the first of the slot. */
  lemma SlotSeen(page: nat, i: nat)
    ensures (page + i) / V.ENTRIES in V.Slots(page, i) <==> 0 < i && (page + i) % V.ENTRIES != 0
  {
    if 0 < i {
      V.SlotsAre(page, i);
      assert (page + i) / V.ENTRIES == (page + i - 1) / V.ENTRIES <==> (page + i) % V.ENTRIES != 0;
    }
  }

  /** Frame f is the one page i gets: frames go from the lowest up, and Need(c, i) have gone before. */
  ghost predicate Due(c: Start, i: nat, f: int)
    requires Fits(c, i)
  {
    f in c.free && Pmm.Rank(c.free, f) == Need(c, i)
  }

  /** Page i is mapped already, to another frame than the one it is due, and paging is on. */
  ghost predicate Blocked(c: Start, i: nat)
    requires Fits(c, i + 1)
  {
    c.paging && V.Translate(c.m, c.dir, c.page + i).Some? && !Due(c, i, FrameAt(c.m, c.dir, c.page + i))
  }

  /** The first n pages can be had, page by page; all of it can be told before the call. */
  ghost predicate Served(c: Start, n: nat)
    requires Fits(c, n)
  {
    n == 0 || (Served(c, n - 1) && Need(c, n) <= |c.free| && !Blocked(c, n - 1))
  }

  lemma {:induction false} ServedLess(c: Start, i: nat, n: nat)
    requires Fits(c, n) && i <= n && Served(c, n)
    ensures Served(c, i)
  {
    if i < n {
      ServedLess(c, i, n - 1);
    }
  }

  /** In other words: there are frames for all pages and missing tables, and no page is blocked. */
  lemma {:induction false} ServedIs(c: Start, n: nat)
    requires Fits(c, n)
    ensures Served(c, n) <==>
              Need(c, n) <= |c.free| && forall i {:trigger Blocked(c, i)} :: 0 <= i < n ==> !Blocked(c, i)
  {
    if n != 0 {
      ServedIs(c, n - 1);
    }
  }

  /** Nothing was mapped there: only the frames decide. */
  lemma ServedClear(c: Start, n: nat)
    requires Fits(c, n) && V.Clear(c.m, c.dir, c.page, n)
    ensures Served(c, n) <==> Need(c, n) <= |c.free|
  {
    ServedIs(c, n);
    forall i {:trigger Blocked(c, i)} | 0 <= i < n ensures !Blocked(c, i) {
      assert V.Translate(c.m, c.dir, c.page + i) == None;
    }
  }

  /** A call that fails and loses frames. */
  ghost predicate Lossy(c: Start, n: nat)
    requires Fits(c, n)
  {
    0 < n && Served(c, 1) && !Served(c, n)
  }

  lemma LossyIs(c: Start, n: nat, kept: nat)
    requires Fits(c, n) && kept < n && Served(c, kept) && !Served(c, kept + 1)
    ensures !Served(c, n) && (Lossy(c, n) <==> 0 < kept)
  {
    NotServed(c, kept + 1, n);
    if 0 < kept {
      ServedLess(c, 1, kept);
    }
  }

  lemma NotServed(c: Start, i: nat, n: nat)
    requires Fits(c, n) && i <= n && !Served(c, i)
    ensures !Served(c, n)
  {
    if Served(c, n) {
      ServedLess(c, i, n);
    }
  }

  /** Page i is mapped, writable, to the frame it is due. */
  ghost predicate Placed(c: Start, m': V.Memory, i: nat)
    requires Fits(c, i + 1) && V.WellFormed(m')
  {
    && V.Translate(m', c.dir, c.page + i).Some? && V.Translate(m', c.dir, c.page + i).value.flags == 3
    && Due(c, i, FrameAt(m', c.dir, c.page + i))
  }

  ghost predicate AllPlaced(c: Start, m': V.Memory, n: nat)
    requires Fits(c, n) && V.WellFormed(m')
  {
    forall i {:trigger Placed(c, m', i)} :: 0 <= i < n ==> Placed(c, m', i)
  }

  // ---------------------------------------------------------------- the page loop

  /** What the page loop knows after i pages: the frames, and the pages. */
  ghost predicate SoFar(c: Start, m': V.Memory, free': set<int>, i: nat)
    requires Fits(c, i) && V.WellFormed(m')
  {
    && Grew(c.m, m', c.dir, c.free, free', c.total, c.page, c.page + i)
    && V.FramesMoved(c.m, m', c.dir, c.free, free', i)
    && V.TablesCounted(c.m, m', c.dir, c.free, free', c.page, i, i)
    && Pmm.Skimmed(c.free, free') && PagesSeal(c, m', i).Intact?
  }

  ghost function PagesSeal(c: Start, m': V.Memory, i: nat): Seal
    requires Fits(c, i) && V.WellFormed(m')
  {
    if forall k {:trigger Open(TheRange, k)} :: Open(TheRange, k) ==> AllPlaced(c, m', i) && Served(c, i)
    then Intact else Broken
  }

  lemma SoFarStart(c: Start)
    requires Fits(c, 0)
    ensures SoFar(c, c.m, c.free, 0)
  {
    V.CountedStart(c.m, c.dir, c.free, c.page);
    GrewNothing(c.m, c.dir, c.free, c.total, c.page);
    Pmm.SkimNothing(c.free);
  }

  lemma SoFarMeans(c: Start, m': V.Memory, free': set<int>, i: nat)
    requires Fits(c, i) && V.WellFormed(m') && SoFar(c, m', free', i)
    ensures AllPlaced(c, m', i) && Served(c, i)
    ensures V.SameExcept(c.m, m', c.dir, c.page, c.page + i)
  {
    assert Open(TheRange, 0);
    GrewSame(c.m, m', c.dir, c.free, free', c.total, c.page, c.page + i);
  }

  /** The frames left and the frames page i asks for. */
  lemma NeedNow(c: Start, m': V.Memory, free': set<int>, i: nat)
    requires Fits(c, i + 1) && V.WellFormed(m') && V.TablesCounted(c.m, m', c.dir, c.free, free', c.page, i, i)
    ensures |free'| == |c.free| - Need(c, i)
    ensures Need(c, i + 1) == Need(c, i) + 1 + if (c.page + i) / V.ENTRIES in V.Tables(m', c.dir) then 0 else 1
  {
    V.CountedNext(c.m, m', c.dir, c.free, free', c.page, i, i);
    NeedIs(c, i);
    NeedIs(c, i + 1);
  }

  /** The frame due. */
  lemma DueNow(c: Start, free': set<int>, i: nat, f: int)
    requires Fits(c, i + 1) && Pmm.Skimmed(c.free, free') && |free'| == |c.free| - Need(c, i)
    ensures Due(c, i, f) <==> Pmm.Lowest(free', f)
  {
    Pmm.SkimRank(c.free, free', f);
  }

  lemma BlockedNow(c: Start, m': V.Memory, free': set<int>, i: nat)
    requires Fits(c, i + 1) && V.WellFormed(m') && Pmm.Skimmed(c.free, free') && |free'| == |c.free| - Need(c, i)
    requires V.SameExcept(c.m, m', c.dir, c.page, c.page + i)
    ensures Occupied(m', c.dir, free', c.page + i, c.paging) <==> Blocked(c, i)
  {
    assert V.Translate(m', c.dir, c.page + i) == V.Translate(c.m, c.dir, c.page + i);
    DueNow(c, free', i, FrameAt(c.m, c.dir, c.page + i));
  }

  /** The answer for page i in terms of the start. */
  lemma AnswerNow(c: Start, m': V.Memory, free': set<int>, i: nat)
    requires Fits(c, i + 1) && V.WellFormed(m') && SoFar(c, m', free', i)
    ensures Answer(m', c.dir, free', c.page + i, c.paging) ==
            if |c.free| < Need(c, i + 1) then OutOfMemory else if Blocked(c, i) then AlreadyMapped else Ok
    ensures Served(c, i + 1) <==> Answer(m', c.dir, free', c.page + i, c.paging) == Ok
  {
    GrewSame(c.m, m', c.dir, c.free, free', c.total, c.page, c.page + i);
    NeedNow(c, m', free', i);
    BlockedNow(c, m', free', i);
    ServedNext(c, m', i);
  }

  lemma ServedNext(c: Start, m': V.Memory, i: nat)
    requires Fits(c, i + 1) && V.WellFormed(m') && PagesSeal(c, m', i).Intact?
    ensures Served(c, i + 1) <==> !Blocked(c, i) && Need(c, i + 1) <= |c.free|
  {
    assert Open(TheRange, 0);
  }

  /** Page i could be had. */
  lemma SoFarStep(c: Start, m1: V.Memory, f1: set<int>, p: int, m2: V.Memory, f2: set<int>, i: nat)
    requires Fits(c, i + 1) && V.WellFormed(m1) && V.WellFormed(m2) && SoFar(c, m1, f1, i)
    requires PageAdded(m1, m2, c.dir, f1, p, f2, c.total, c.page + i, c.paging)
    ensures SoFar(c, m2, f2, i + 1)
  {
    FramesNext(c, m1, f1, p, m2, f2, i);
    TablesNext(c, m1, f1, p, m2, f2, i);
    AddedGrew(m1, m2, c.dir, f1, p, f2, c.total, c.page + i, c.paging);
    GrewTwice(c.m, m1, m2, c.dir, c.free, f1, f2, c.total, c.page, c.page + i, c.page + i + 1);
    Pmm.SkimTwice(c.free, f1, f2);
    PlacedNext(c, m1, f1, p, m2, f2, i);
  }

  lemma FramesNext(c: Start, m1: V.Memory, f1: set<int>, p: int, m2: V.Memory, f2: set<int>, i: nat)
    requires Fits(c, i + 1) && V.WellFormed(m1) && V.WellFormed(m2) && V.FramesMoved(c.m, m1, c.dir, c.free, f1, i)
    requires PageAdded(m1, m2, c.dir, f1, p, f2, c.total, c.page + i, c.paging)
    ensures V.FramesMoved(c.m, m2, c.dir, c.free, f2, i + 1)
  {
    AddedKept(m1, m2, c.dir, f1, p, f2, c.total, c.page + i, c.paging);
    MovedOne(c.m, m1, m2, c.dir, c.free, f1, p, f2, i);
  }

  lemma TablesNext(c: Start, m1: V.Memory, f1: set<int>, p: int, m2: V.Memory, f2: set<int>, i: nat)
    requires Fits(c, i + 1) && V.WellFormed(m1) && V.WellFormed(m2)
    requires V.TablesCounted(c.m, m1, c.dir, c.free, f1, c.page, i, i)
    requires PageAdded(m1, m2, c.dir, f1, p, f2, c.total, c.page + i, c.paging)
    ensures V.TablesCounted(c.m, m2, c.dir, c.free, f2, c.page, i + 1, i + 1)
  {
    AddedTables(m1, m2, c.dir, f1, p, f2, c.total, c.page + i, c.paging);
    CountedOne(c.m, m1, m2, c.dir, c.free, f1, p, f2, c.page, i);
  }

  /** The pages before i stay where they are, and page i gets the frame it is due. */
  lemma PlacedNext(c: Start, m1: V.Memory, f1: set<int>, p: int, m2: V.Memory, f2: set<int>, i: nat)
    requires Fits(c, i + 1) && V.WellFormed(m1) && V.WellFormed(m2) && SoFar(c, m1, f1, i)
    requires PageAdded(m1, m2, c.dir, f1, p, f2, c.total, c.page + i, c.paging)
    ensures PagesSeal(c, m2, i + 1).Intact?
  {
    AddedAt(m1, m2, c.dir, f1, p, f2, c.total, c.page + i, c.paging);
    AnswerNow(c, m1, f1, i);
    NeedNow(c, m1, f1, i);
    DueNow(c, f1, i, p);
    PlacedMore(c, m1, p, m2, i);
  }

  lemma MovedOne(m: V.Memory, m1: V.Memory, m2: V.Memory, dir: nat, f: set<int>, f1: set<int>, p: int, f2: set<int>,
                 i: nat)
    requires V.WellFormed(m) && V.WellFormed(m1) && V.WellFormed(m2) && dir < V.FRAMES
    requires V.FramesMoved(m, m1, dir, f, f1, i) && p in f1 && V.StepKept(m1, m2, dir, f1 - {p}, f2)
    ensures V.FramesMoved(m, m2, dir, f, f2, i + 1)
  {
    assert Open(TheStep, 0);
    assert |f1 - {p}| == |f1| - 1;
  }

  lemma CountedOne(m: V.Memory, m1: V.Memory, m2: V.Memory, dir: nat, f: set<int>, f1: set<int>, p: int, f2: set<int>,
                   page: nat, i: nat)
    requires V.WellFormed(m) && V.WellFormed(m1) && V.WellFormed(m2) && dir < V.FRAMES
    requires V.TablesCounted(m, m1, dir, f, f1, page, i, i) && p in f1
    requires V.TablesStep(m1, m2, dir, f1 - {p}, f2, (page + i) / V.ENTRIES, Ok)
    ensures V.TablesCounted(m, m2, dir, f, f2, page, i + 1, i + 1)
  {
    assert |f1 - {p}| == |f1| - 1;
    V.CountedStep(m, m1, m2, dir, f, f1, f2, page, i, i, 1);
  }

  lemma PlacedMore(c: Start, m1: V.Memory, p: int, m2: V.Memory, i: nat)
    requires Fits(c, i + 1) && V.WellFormed(m1) && V.WellFormed(m2) && PagesSeal(c, m1, i).Intact? && Due(c, i, p)
    requires V.SameExcept(m1, m2, c.dir, c.page + i, c.page + i + 1)
    requires 0 <= p && V.Translate(m2, c.dir, c.page + i) == Some(V.Mapping(p, 3))
    ensures AllPlaced(c, m2, i + 1)
  {
    assert Open(TheRange, 0);
    forall k {:trigger Placed(c, m2, k)} | 0 <= k < i + 1 ensures Placed(c, m2, k) {
      if k < i {
        assert Placed(c, m1, k);
        assert V.Translate(m2, c.dir, c.page + k) == V.Translate(m1, c.dir, c.page + k);
      }
    }
  }

  /** What one round answers: no frame for the page or its table, or a page that is taken. */
  ghost function Answer(m: V.Memory, dir: nat, free: set<int>, page: nat, paging: bool): Status
    requires V.WellFormed(m) && dir < V.FRAMES && page < V.WINDOW / PAGE
  {
    if |free| < 1 + (if page / V.ENTRIES in V.Tables(m, dir) then 0 else 1) then OutOfMemory
    else if Occupied(m, dir, free, page, paging) then AlreadyMapped
    else Ok
  }

  /** The page could be had: it got frame p, the lowest free one, and its slot a table. */
  ghost predicate PageAdded(m: V.Memory, m': V.Memory, dir: nat, free: set<int>, p: int, free': set<int>, total: int,
                            page: nat, paging: bool)
    requires V.WellFormed(m) && V.WellFormed(m') && dir < V.FRAMES && page < V.WINDOW / PAGE
  {
    AddedSeal(m, m', dir, free, p, free', total, page, paging).Intact?
  }

  ghost function AddedSeal(m: V.Memory, m': V.Memory, dir: nat, free: set<int>, p: int, free': set<int>, total: int,
                           page: nat, paging: bool): Seal
    requires V.WellFormed(m) && V.WellFormed(m') && dir < V.FRAMES && page < V.WINDOW / PAGE
  {
    if forall k {:trigger Open(TheFailure, k)} :: Open(TheFailure, k) ==>
      && Answer(m, dir, free, page, paging) == Ok
      && Pmm.Lowest(free, p) && 0 <= p && V.Translate(m', dir, page) == Some(V.Mapping(p, 3))
      && V.SameExcept(m, m', dir, page, page + 1) && Grew(m, m', dir, free, free', total, page, page + 1)
      && V.StepKept(m, m', dir, free - {p}, free') && V.TablesStep(m, m', dir, free - {p}, free', page / V.ENTRIES, Ok)
      && Pmm.Skimmed(free, free')
    then Intact else Broken
  }

  lemma AddedKept(m: V.Memory, m': V.Memory, dir: nat, free: set<int>, p: int, free': set<int>, total: int, page: nat,
                  paging: bool)
    requires V.WellFormed(m) && V.WellFormed(m') && dir < V.FRAMES && page < V.WINDOW / PAGE
    requires PageAdded(m, m', dir, free, p, free', total, page, paging)
    ensures p in free && V.StepKept(m, m', dir, free - {p}, free')
  {
    assert Open(TheFailure, 0);
  }

  lemma AddedTables(m: V.Memory, m': V.Memory, dir: nat, free: set<int>, p: int, free': set<int>, total: int, page: nat,
                    paging: bool)
    requires V.WellFormed(m) && V.WellFormed(m') && dir < V.FRAMES && page < V.WINDOW / PAGE
    requires PageAdded(m, m', dir, free, p, free', total, page, paging)
    ensures p in free && V.TablesStep(m, m', dir, free - {p}, free', page / V.ENTRIES, Ok)
  {
    assert Open(TheFailure, 0);
  }

  lemma AddedGrew(m: V.Memory, m': V.Memory, dir: nat, free: set<int>, p: int, free': set<int>, total: int, page: nat,
                  paging: bool)
    requires V.WellFormed(m) && V.WellFormed(m') && dir < V.FRAMES && page < V.WINDOW / PAGE
    requires PageAdded(m, m', dir, free, p, free', total, page, paging)
    ensures Grew(m, m', dir, free, free', total, page, page + 1) && Pmm.Skimmed(free, free')
  {
    assert Open(TheFailure, 0);
  }

  lemma AddedAt(m: V.Memory, m': V.Memory, dir: nat, free: set<int>, p: int, free': set<int>, total: int, page: nat,
                paging: bool)
    requires V.WellFormed(m) && V.WellFormed(m') && dir < V.FRAMES && page < V.WINDOW / PAGE
    requires PageAdded(m, m', dir, free, p, free', total, page, paging)
    ensures Answer(m, dir, free, page, paging) == Ok && Pmm.Lowest(free, p) && 0 <= p
    ensures V.Translate(m', dir, page) == Some(V.Mapping(p, 3)) && V.SameExcept(m, m', dir, page, page + 1)
  {
    assert Open(TheFailure, 0);
  }

  /** One page of the loop: a frame, and a mapping to it; a frame that cannot be used is given back. */
  method MapOne(vmm: V.AddressSpace, va: V.Word, ghost page: nat) returns (st: Status, ghost p: int)
    requires vmm.Valid() && va < V.WINDOW && va / PAGE == page < V.WINDOW / PAGE
    modifies vmm`mem, vmm.pmm`freePages, vmm.pmm`usedPages, vmm.pmm`taken, vmm.pmm.bits
    ensures vmm.Valid()
    ensures st == Answer(old(vmm.mem), vmm.dir, old(Pmm.FreeSet(vmm.pmm.taken)), page, vmm.paging)
    ensures st != Ok ==> vmm.mem == old(vmm.mem) && Pmm.FreeSet(vmm.pmm.taken) == old(Pmm.FreeSet(vmm.pmm.taken))
    ensures st == Ok ==> PageAdded(old(vmm.mem), vmm.mem, vmm.dir, old(Pmm.FreeSet(vmm.pmm.taken)), p,
                                   Pmm.FreeSet(vmm.pmm.taken), vmm.pmm.total, page, vmm.paging)
  {
    ghost var free := Pmm.FreeSet(vmm.pmm.taken);
    vmm.pmm.FreeIsBelow();
    var phys := vmm.pmm.AllocPage();
    p := phys / PAGE;
    if phys == 0 {
      return OutOfMemory, p;
    }
    st := MapFrame(vmm, va, phys, page, free, p);
  }

  /** The mapping, once the frame is there. */
  method MapFrame(vmm: V.AddressSpace, va: V.Word, phys: nat, ghost page: nat, ghost free: set<int>, ghost p: int)
      returns (st: Status)
    requires vmm.pmm.Valid() && V.WellFormed(vmm.mem) && vmm.dir < V.FRAMES
    requires V.TablesSeal(vmm.mem, vmm.dir, free, vmm.paging).Intact?
    requires va < V.WINDOW && va / PAGE == page < V.WINDOW / PAGE
    requires 0 < phys && phys % PAGE == 0 && phys / PAGE == p && 0 < p < vmm.pmm.total <= V.FRAMES
    requires Pmm.Lowest(free, p) && Pmm.FreeSet(vmm.pmm.taken) == free - {p}
    modifies vmm`mem, vmm.pmm`freePages, vmm.pmm`usedPages, vmm.pmm`taken, vmm.pmm.bits
    ensures vmm.Valid()
    ensures st == Answer(old(vmm.mem), vmm.dir, free, page, vmm.paging)
    ensures st != Ok ==> vmm.mem == old(vmm.mem) && Pmm.FreeSet(vmm.pmm.taken) == free
    ensures st == Ok ==>
              PageAdded(old(vmm.mem), vmm.mem, vmm.dir, free, p, Pmm.FreeSet(vmm.pmm.taken), vmm.pmm.total, page,
                                   vmm.paging)
  {
    ghost var m := vmm.mem;
    V.FewerFree(m, vmm.dir, free, free - {p}, vmm.paging);
    st := TryMap(vmm, va, phys, page);
    AnswerIs(m, vmm.dir, free, p, page, vmm.paging, st);
    if st != Ok {
      vmm.pmm.FreePage(phys);
      assert Pmm.FreeSet(vmm.pmm.taken) == free;
      return;
    }
    Added(m, vmm.mem, vmm.dir, free, p, Pmm.FreeSet(vmm.pmm.taken), vmm.pmm.total, page, vmm.paging);
  }

  /** vmm_map_page with PRESENT and RW. */
  method TryMap(vmm: V.AddressSpace, va: V.Word, phys: nat, ghost page: nat) returns (st: Status)
    requires vmm.Valid() && va < V.WINDOW && va / PAGE == page < V.WINDOW / PAGE && phys < TWO32
    modifies vmm`mem, vmm.pmm`freePages, vmm.pmm`usedPages, vmm.pmm`taken, vmm.pmm.bits
    ensures vmm.Valid() && (st == Ok || st == OutOfMemory || st == AlreadyMapped)
    ensures st == OutOfMemory <==>
              page / V.ENTRIES !in V.Tables(old(vmm.mem), vmm.dir) && old(Pmm.FreeSet(vmm.pmm.taken)) == {}
    ensures st == AlreadyMapped <==>
              vmm.paging && old(vmm.At(page)).Some? && FrameAt(old(vmm.mem), vmm.dir, page) != phys / PAGE
    ensures st != Ok ==> vmm.mem == old(vmm.mem) && Pmm.FreeSet(vmm.pmm.taken) == old(Pmm.FreeSet(vmm.pmm.taken))
    ensures st == Ok ==> vmm.At(page) == Some(V.Mapping(phys / PAGE, 3))
    ensures V.SameExcept(old(vmm.mem), vmm.mem, vmm.dir, page, page + 1)
    ensures V.StepKept(old(vmm.mem), vmm.mem, vmm.dir, old(Pmm.FreeSet(vmm.pmm.taken)), Pmm.FreeSet(vmm.pmm.taken))
    ensures V.TablesStep(old(vmm.mem), vmm.mem, vmm.dir, old(Pmm.FreeSet(vmm.pmm.taken)), Pmm.FreeSet(vmm.pmm.taken),
                         page / V.ENTRIES, st)
    ensures Pmm.Skimmed(old(Pmm.FreeSet(vmm.pmm.taken)), Pmm.FreeSet(vmm.pmm.taken))
  {
    ghost var t;
    st, t := vmm.MapPage(va, phys, 3);
  }

  lemma Added(m: V.Memory, m': V.Memory, dir: nat, free: set<int>, p: int, free': set<int>, total: int, page: nat,
              paging: bool)
    requires V.WellFormed(m) && V.WellFormed(m') && dir < V.FRAMES && page < V.WINDOW / PAGE
    requires V.TablesSeal(m, dir, free, paging).Intact? && Pmm.Lowest(free, p) && 0 < p < total
    requires V.StepKept(m, m', dir, free - {p}, free')
    requires V.TablesStep(m, m', dir, free - {p}, free', page / V.ENTRIES, Ok)
    requires V.SameExcept(m, m', dir, page, page + 1) && V.Translate(m', dir, page) == Some(V.Mapping(p, 3))
    requires Pmm.Skimmed(free - {p}, free') && Answer(m, dir, free, page, paging) == Ok
    ensures PageAdded(m, m', dir, free, p, free', total, page, paging)
  {
    PageGrew(m, m', dir, free, p, free', total, page, paging);
    Pmm.SkimLowest(free, p);
    Pmm.SkimTwice(free, free - {p}, free');
  }

  lemma AnswerIs(m: V.Memory, dir: nat, free: set<int>, p: int, page: nat, paging: bool, st: Status)
    requires V.WellFormed(m) && dir < V.FRAMES && page < V.WINDOW / PAGE && Pmm.Lowest(free, p)
    requires st == OutOfMemory <==> page / V.ENTRIES !in V.Tables(m, dir) && free - {p} == {}
    requires st == AlreadyMapped <==> paging && V.Translate(m, dir, page).Some? && FrameAt(m, dir, page) != p
    requires st == Ok || st == OutOfMemory || st == AlreadyMapped
    ensures st == Answer(m, dir, free, page, paging)
  {
    assert |free - {p}| == |free| - 1;
    assert free - {p} == {} <==> |free - {p}| == 0;
  }

  /** What a failure leaves: i pages could be served and no more; they are unmapped again, and their frames
      are lost. */
  ghost predicate Lost(c: Start, m': V.Memory, free': set<int>, st: Status, i: nat)
    requires Fits(c, i + 1) && V.WellFormed(m')
  {
    LostSeal(c, m', free', st, i).Intact?
  }

  ghost function LostSeal(c: Start, m': V.Memory, free': set<int>, st: Status, i: nat): Seal
    requires Fits(c, i + 1) && V.WellFormed(m')
  {
    if forall k {:trigger Open(TheFailure, k)} :: Open(TheFailure, k) ==> LostOk(c, m', free', st, i)
    then Intact else Broken
  }

  ghost predicate LostOk(c: Start, m': V.Memory, free': set<int>, st: Status, i: nat)
    requires Fits(c, i + 1) && V.WellFormed(m')
  {
    && V.SameExcept(c.m, m', c.dir, c.page, c.page + i) && V.Clear(m', c.dir, c.page, i)
    && V.FramesMoved(c.m, m', c.dir, c.free, free', i) && Served(c, i) && !Served(c, i + 1)
    && st == if |c.free| < Need(c, i + 1) then OutOfMemory else AlreadyMapped
  }

  lemma LostMeans(c: Start, m': V.Memory, free': set<int>, st: Status, i: nat, n: nat)
    requires Fits(c, n) && V.WellFormed(m') && i < n && Lost(c, m', free', st, i)
    ensures LostOk(c, m', free', st, i) && !Served(c, n) && (Lossy(c, n) <==> 0 < i)
    ensures V.Clear(c.m, c.dir, c.page, i) ==> V.SameExcept(c.m, m', c.dir, 0, 0)
  {
    assert Open(TheFailure, 0);
    LossyIs(c, n, i);
    if V.Clear(c.m, c.dir, c.page, i) {
      V.RolledBack(c.m, m', m', c.dir, c.page, i);
    }
  }

  /** Page i cannot be had. */
  lemma SoFarShort(c: Start, m1: V.Memory, f1: set<int>, st: Status, i: nat)
    requires Fits(c, i + 1) && V.WellFormed(m1) && SoFar(c, m1, f1, i)
    requires st != Ok && st == Answer(m1, c.dir, f1, c.page + i, c.paging)
    ensures Served(c, i) && !Served(c, i + 1)
    ensures st == if |c.free| < Need(c, i + 1) then OutOfMemory else AlreadyMapped
  {
    SoFarMeans(c, m1, f1, i);
    AnswerNow(c, m1, f1, i);
  }

  /** What the page loop comes to on n pages. It succeeds exactly when there are frames for all pages and
      missing tables and no page is mapped to another frame than the one it is due. A failure unmaps the
      `kept` pages before the one that could not be had, but their frames are not given back. */
  ghost predicate Outcome(c: Start, n: nat, st: Status, kept: nat, m': V.Memory, free': set<int>)
    requires Fits(c, n) && V.WellFormed(m')
  {
    && (st == Ok <==> Served(c, n))
    && (st == Ok ==>
          && kept == n && AllPlaced(c, m', n)
          && Grew(c.m, m', c.dir, c.free, free', c.total, c.page, c.page + n))
    && (st != Ok ==>
          && kept < n && Served(c, kept) && !Served(c, kept + 1)
          && st == (if |c.free| < Need(c, kept + 1) then OutOfMemory else AlreadyMapped)
          && V.Clear(m', c.dir, c.page, kept)
          && (V.Clear(c.m, c.dir, c.page, kept) ==> V.SameExcept(c.m, m', c.dir, 0, 0)))
    && V.SameExcept(c.m, m', c.dir, c.page, c.page + kept)
    && V.FramesMoved(c.m, m', c.dir, c.free, free', kept)
    && (st != Ok && 0 < kept <==> Lossy(c, n))
  }

  /** The page loop with its rollback. */
  method MapImmediate(vmm: V.AddressSpace, start: V.Word, pages: nat, ghost c: Start)
      returns (st: Status, ghost kept: nat)
    requires vmm.Valid() && start % PAGE == 0 && start + pages * PAGE <= V.WINDOW
    requires c == Start(vmm.mem, vmm.dir, Pmm.FreeSet(vmm.pmm.taken), vmm.pmm.total, vmm.paging, start / PAGE)
    modifies vmm`mem, vmm.pmm`freePages, vmm.pmm`usedPages, vmm.pmm`taken, vmm.pmm.bits
    ensures vmm.Valid() && Fits(c, pages)
    ensures Outcome(c, pages, st, kept, vmm.mem, Pmm.FreeSet(vmm.pmm.taken))
  {
    V.RangePages(start, pages);
    st, kept := MapEach(vmm, start, pages, c);
    if st == Ok {
      SoFarMeans(c, vmm.mem, Pmm.FreeSet(vmm.pmm.taken), pages);
    } else {
      LostMeans(c, vmm.mem, Pmm.FreeSet(vmm.pmm.taken), st, kept, pages);
    }
  }

  /** The loop itself. */
  method MapEach(vmm: V.AddressSpace, start: V.Word, pages: nat, ghost c: Start) returns (st: Status, ghost kept: nat)
    requires vmm.Valid() && V.RangeOk(start, 0, pages, c.page)
    requires c == Start(vmm.mem, vmm.dir, Pmm.FreeSet(vmm.pmm.taken), vmm.pmm.total, vmm.paging, c.page)
    modifies vmm`mem, vmm.pmm`freePages, vmm.pmm`usedPages, vmm.pmm`taken, vmm.pmm.bits
    ensures vmm.Valid() && Fits(c, pages) && (if st == Ok then kept == pages else kept < pages)
    ensures st == Ok ==> SoFar(c, vmm.mem, Pmm.FreeSet(vmm.pmm.taken), pages)
    ensures st != Ok ==> Lost(c, vmm.mem, Pmm.FreeSet(vmm.pmm.taken), st, kept)
  {
    SoFarStart(c);
    var i := 0;
    while i != pages
      invariant i <= pages && vmm.Valid() && SoFar(c, vmm.mem, Pmm.FreeSet(vmm.pmm.taken), i)
    {
      var next := i + 1;
      st := MapAnother(vmm, start, i, next, pages, c);
      if st != Ok {
        return st, i;
      }
      i := next;
    }
    st, kept := Ok, pages;
  }

  /** The body of the loop. */
  method MapAnother(vmm: V.AddressSpace, start: V.Word, i: nat, ghost next: nat, ghost pages: nat, ghost c: Start)
      returns (st: Status)
    requires vmm.Valid() && i < next == i + 1 <= pages && V.RangeOk(start, 0, pages, c.page) && Fits(c, pages)
    requires c.dir == vmm.dir && c.total == vmm.pmm.total && c.paging == vmm.paging
    requires SoFar(c, vmm.mem, Pmm.FreeSet(vmm.pmm.taken), i)
    modifies vmm`mem, vmm.pmm`freePages, vmm.pmm`usedPages, vmm.pmm`taken, vmm.pmm.bits
    ensures vmm.Valid()
    ensures st == Ok ==> SoFar(c, vmm.mem, Pmm.FreeSet(vmm.pmm.taken), next)
    ensures st != Ok ==> Lost(c, vmm.mem, Pmm.FreeSet(vmm.pmm.taken), st, i)
  {
    ghost var m0, free0 := vmm.mem, Pmm.FreeSet(vmm.pmm.taken);
    V.PageAt(start, 0, pages, c.page, i);
    ghost var p;
    st, p := MapOne(vmm, start + i * PAGE, c.page + i);
    if st == Ok {
      SoFarStep(c, m0, free0, p, vmm.mem, Pmm.FreeSet(vmm.pmm.taken), i);
    } else {
      SoFarShort(c, m0, free0, st, i);
      TakeBack(vmm, start, i, st, pages, c);
    }
  }

  /** The rollback: the pages are unmapped, their frames are not given back. */
  method TakeBack(vmm: V.AddressSpace, start: V.Word, i: nat, ghost st: Status, ghost pages: nat, ghost c: Start)
    requires vmm.Valid() && i < pages && V.RangeOk(start, 0, pages, c.page) && Fits(c, pages) && c.dir == vmm.dir
    requires SoFar(c, vmm.mem, Pmm.FreeSet(vmm.pmm.taken), i) && !Served(c, i + 1)
    requires st == if |c.free| < Need(c, i + 1) then OutOfMemory else AlreadyMapped
    modifies vmm`mem
    ensures vmm.Valid() && Lost(c, vmm.mem, Pmm.FreeSet(vmm.pmm.taken), st, i)
  {
    ghost var m0 := vmm.mem;
    SoFarMeans(c, m0, Pmm.FreeSet(vmm.pmm.taken), i);
    vmm.Rollback(start, i);
    TakenBack(c, m0, vmm.mem, Pmm.FreeSet(vmm.pmm.taken), st, i);
  }

  lemma TakenBack(c: Start, m0: V.Memory, m1: V.Memory, free': set<int>, st: Status, i: nat)
    requires Fits(c, i + 1) && V.WellFormed(m0) && V.WellFormed(m1) && m1[c.dir] == m0[c.dir]
    requires V.SameExcept(c.m, m0, c.dir, c.page, c.page + i) && V.SameExcept(m0, m1, c.dir, c.page, c.page + i)
    requires V.Clear(m1, c.dir, c.page, i) && V.FramesMoved(c.m, m0, c.dir, c.free, free', i)
    requires Served(c, i) && !Served(c, i + 1) && st == if |c.free| < Need(c, i + 1) then OutOfMemory else AlreadyMapped
    ensures Lost(c, m1, free', st, i)
  {
    TablesStay(c.m, m0, m1, c.dir, c.free, free', i);
  }

  lemma TablesStay(m: V.Memory, m0: V.Memory, m1: V.Memory, dir: nat, free: set<int>, free': set<int>, n: int)
    requires V.WellFormed(m) && V.WellFormed(m0) && V.WellFormed(m1) && dir < V.FRAMES && m1[dir] == m0[dir]
    requires V.FramesMoved(m, m0, dir, free, free', n)
    ensures V.FramesMoved(m, m1, dir, free, free', n)
  {
    assert Open(TheStep, 0);
    assert V.Tables(m1, dir) == V.Tables(m0, dir);
  }

  /** Two free frames and a slot without a table: mapping two pages under it fails and loses a frame. */
  lemma TwoFramesTwoPages(c: Start)
    requires Fits(c, 2) && |c.free| == 2
    requires c.page % V.ENTRIES == 0 && c.page / V.ENTRIES !in V.Tables(c.m, c.dir)
    ensures Lossy(c, 2)
  {
    var slot := c.page / V.ENTRIES;
    assert (c.page + 1) / V.ENTRIES == slot;
    assert 0 <= slot < V.RECURSIVE_SLOT && !V.Present(c.m[c.dir][slot]);
    assert Cost(c, 0) == 2 && Cost(c, 1) == 1;
    assert Need(c, 0) == 0;
    assert Need(c, 1) == 2;
    assert Need(c, 2) == 3;
    assert V.Clear(c.m, c.dir, c.page, 2);
    ServedClear(c, 1);
    ServedClear(c, 2);
  }
}
