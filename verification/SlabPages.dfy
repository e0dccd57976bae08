/** The pages behind the slabs of a cache: frames from the page allocator, mapped from SLAB_VIRT_START on. */
module SlabPages {
  import opened Kernel
  import opened SlabCache
  import opened Owners
  import Pmm
  import V = Vmm

  /** What new_slab gets: no frame when none is free; no mapping when the only free frame is needed for
      the slab and its page table is missing, or when the address is occupied. */
  ghost function AttemptOf(m: V.Memory, dir: nat, free: set<int>, page: nat, paging: bool): Attempt
    requires V.WellFormed(m) && dir < V.FRAMES && page < V.WINDOW / PAGE
  {
    if free == {} then NoFrame
    else if page / V.ENTRIES !in V.Tables(m, dir) && |free| == 1 then NoMapping
    else if Occupied(m, dir, free, page, paging) then NoMapping
    else NewSlab
  }

  /** pmm_alloc_page and vmm_map_page of new_slab: what it gets is decided by the free frames and the
      page at `virt`, and a frame it cannot use is given back. */
  method MapSlab(vmm: V.AddressSpace, virt: int, ghost page: nat) returns (a: Attempt)
    requires vmm.Valid() && 0 <= virt < V.WINDOW && virt / PAGE == page < V.WINDOW / PAGE
    modifies vmm`mem, vmm.pmm`freePages, vmm.pmm`usedPages, vmm.pmm`taken, vmm.pmm.bits
    ensures vmm.Valid()
    ensures a == AttemptOf(old(vmm.mem), vmm.dir, old(Pmm.FreeSet(vmm.pmm.taken)), page, vmm.paging)
    ensures a != NewSlab ==>
              vmm.mem == old(vmm.mem) && Pmm.FreeSet(vmm.pmm.taken) == old(Pmm.FreeSet(vmm.pmm.taken))
    ensures a == NewSlab ==> V.FramesMoved(old(vmm.mem), vmm.mem, vmm.dir, old(Pmm.FreeSet(vmm.pmm.taken)),
                                           Pmm.FreeSet(vmm.pmm.taken), 1)
    ensures a == NewSlab ==> Grew(old(vmm.mem), vmm.mem, vmm.dir, old(Pmm.FreeSet(vmm.pmm.taken)),
                                  Pmm.FreeSet(vmm.pmm.taken), vmm.pmm.total, page, page + 1)
  {
    ghost var free := Pmm.FreeSet(vmm.pmm.taken);
    vmm.pmm.FreeIsBelow();
    var phys := vmm.pmm.AllocPage();
    if phys == 0 {
      return NoFrame;
    }
    a := MapFrame(vmm, virt, phys, page, free);
  }

  /** The mapping, once the frame is there. */
  method MapFrame(vmm: V.AddressSpace, virt: int, phys: nat, ghost page: nat, ghost free: set<int>) returns (a: Attempt)
    requires vmm.pmm.Valid() && V.WellFormed(vmm.mem) && vmm.dir < V.FRAMES
    requires V.TablesSeal(vmm.mem, vmm.dir, free, vmm.paging).Intact?
    requires 0 <= virt < V.WINDOW && virt / PAGE == page < V.WINDOW / PAGE
    requires 0 < phys && phys % PAGE == 0 && 0 < phys / PAGE < vmm.pmm.total <= V.FRAMES
    requires Pmm.Lowest(free, phys / PAGE)
    requires Pmm.FreeSet(vmm.pmm.taken) == free - {phys / PAGE}
    modifies vmm`mem, vmm.pmm`freePages, vmm.pmm`usedPages, vmm.pmm`taken, vmm.pmm.bits
    ensures vmm.Valid()
    ensures a == AttemptOf(old(vmm.mem), vmm.dir, free, page, vmm.paging) && a != NoFrame
    ensures a != NewSlab ==> vmm.mem == old(vmm.mem) && Pmm.FreeSet(vmm.pmm.taken) == free
    ensures a == NewSlab ==> V.FramesMoved(old(vmm.mem), vmm.mem, vmm.dir, free, Pmm.FreeSet(vmm.pmm.taken), 1)
    ensures a == NewSlab ==> Grew(old(vmm.mem), vmm.mem, vmm.dir, free, Pmm.FreeSet(vmm.pmm.taken), vmm.pmm.total,
                                  page, page + 1)
  {
    ghost var m, f := vmm.mem, phys / PAGE;
    V.FewerFree(m, vmm.dir, free, free - {f}, vmm.paging);
    var ok := TryMap(vmm, virt, phys, page);
    AttemptIs(m, vmm.dir, free, f, page, vmm.paging, ok);
    if !ok {
      vmm.pmm.FreePage(phys);
      assert Pmm.FreeSet(vmm.pmm.taken) == free;
      return NoMapping;
    }
    PageGrew(m, vmm.mem, vmm.dir, free, f, Pmm.FreeSet(vmm.pmm.taken), vmm.pmm.total, page, vmm.paging);
    OneMoved(m, vmm.mem, vmm.dir, free, f, Pmm.FreeSet(vmm.pmm.taken));
    a := NewSlab;
  }

  /** vmm_map_page with PRESENT, RW and GLOBAL, of which PTE_FLAGS_MASK keeps two. */
  method TryMap(vmm: V.AddressSpace, virt: int, phys: nat, ghost page: nat) returns (ok: bool)
    requires vmm.Valid() && 0 <= virt < V.WINDOW && virt / PAGE == page < V.WINDOW / PAGE && phys < TWO32
    modifies vmm`mem, vmm.pmm`freePages, vmm.pmm`usedPages, vmm.pmm`taken, vmm.pmm.bits
    ensures vmm.Valid()
    ensures !ok <==>
              || (page / V.ENTRIES !in V.Tables(old(vmm.mem), vmm.dir) && old(Pmm.FreeSet(vmm.pmm.taken)) == {})
              || (vmm.paging && old(vmm.At(page)).Some? && FrameAt(old(vmm.mem), vmm.dir, page) != phys / PAGE)
    ensures !ok ==> vmm.mem == old(vmm.mem) && Pmm.FreeSet(vmm.pmm.taken) == old(Pmm.FreeSet(vmm.pmm.taken))
    ensures ok ==> vmm.At(page) == Some(V.Mapping(phys / PAGE, 3))
    ensures ok ==> V.SameExcept(old(vmm.mem), vmm.mem, vmm.dir, page, page + 1)
    ensures ok ==>
              V.StepKept(old(vmm.mem), vmm.mem, vmm.dir, old(Pmm.FreeSet(vmm.pmm.taken)), Pmm.FreeSet(vmm.pmm.taken))
  {
    var st;
    ghost var t;
    st, t := vmm.MapPage(virt, phys, 259);
    ok := st == Ok;
  }

  lemma AttemptIs(m: V.Memory, dir: nat, free: set<int>, f: int, page: nat, paging: bool, ok: bool)
    requires V.WellFormed(m) && dir < V.FRAMES && page < V.WINDOW / PAGE && Pmm.Lowest(free, f)
    requires !ok <==>
               || (page / V.ENTRIES !in V.Tables(m, dir) && free - {f} == {})
               || (paging && V.Translate(m, dir, page).Some? && FrameAt(m, dir, page) != f)
    ensures AttemptOf(m, dir, free, page, paging) == if ok then NewSlab else NoMapping
  {
    assert |free - {f}| == |free| - 1;
    assert free - {f} == {} <==> |free - {f}| == 0;
  }

  lemma OneMoved(m: V.Memory, m': V.Memory, dir: nat, free: set<int>, f: int, free': set<int>)
    requires V.WellFormed(m) && V.WellFormed(m') && dir < V.FRAMES && f in free
    requires V.StepKept(m, m', dir, free - {f}, free')
    ensures V.FramesMoved(m, m', dir, free, free', 1)
  {
    assert Open(TheStep, 0);
  }

  /** The three calls of kmem_cache_shrink for one slab: its page is unmapped and its frame is free again. */
  method ReleaseSlab(vmm: V.AddressSpace, s: int, ghost page: nat, ghost pages: set<int>)
    requires vmm.Valid() && 0 <= s < V.WINDOW && s % PAGE == 0 && s / PAGE == page < V.WINDOW / PAGE && page in pages
    requires Holds(vmm.mem, vmm.dir, Pmm.FreeSet(vmm.pmm.taken), vmm.pmm.total, pages)
    modifies vmm`mem, vmm.pmm`freePages, vmm.pmm`usedPages, vmm.pmm`taken, vmm.pmm.bits
    ensures vmm.Valid()
    ensures Pmm.FreeSet(vmm.pmm.taken) == old(Pmm.FreeSet(vmm.pmm.taken)) + {FrameAt(old(vmm.mem), vmm.dir, page)}
    ensures |Pmm.FreeSet(vmm.pmm.taken)| == old(|Pmm.FreeSet(vmm.pmm.taken)|) + 1
    ensures vmm.At(page) == None && V.SameExcept(old(vmm.mem), vmm.mem, vmm.dir, page, page + 1)
    ensures vmm.mem[vmm.dir] == old(vmm.mem)[vmm.dir]
    ensures Holds(vmm.mem, vmm.dir, Pmm.FreeSet(vmm.pmm.taken), vmm.pmm.total, pages - {page})
  {
    ghost var m, free := vmm.mem, Pmm.FreeSet(vmm.pmm.taken);
    HoldsPage(m, vmm.dir, free, vmm.pmm.total, pages, page);
    ghost var f := FrameAt(m, vmm.dir, page);
    var pa := vmm.GetPhysicalAddr(s);
    V.WalkIsTranslate(m, vmm.dir, s);
    var phys := AlignDown(pa, PAGE);
    assert phys == f * PAGE && phys / PAGE == f;
    var _ := vmm.UnmapPage(s);
    ReleaseHolds(m, vmm.mem, vmm.dir, free, vmm.pmm.total, pages, page);
    ReleaseTables(m, vmm.mem, vmm.dir, free, vmm.pmm.total, pages, page, vmm.paging);
    vmm.pmm.FreePage(phys);
    assert Pmm.FreeSet(vmm.pmm.taken) == free + {f};
  }
}
