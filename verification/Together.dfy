/** The kernel heap and a slab cache in one address space: neither takes a frame or a page from the other. */
module Together {
  import opened Kernel
  import opened Owners
  import opened HeapLayout
  import KernelHeap
  import Pmm
  import SlabCache
  import SlabLayout
  import Slab
  import V = Vmm

  /** The heap and the cache are valid, and their pages have frames of their own: no two of them share one,
      none is free and none is a page table. */
  ghost predicate Shared(heap: KernelHeap.Allocator, cache: Slab.KmemCache)
    reads heap, heap.vmm, heap.vmm.pmm, heap.vmm.pmm.bits
    reads cache, cache.lists, cache.vmm, cache.vmm.pmm, cache.vmm.pmm.bits
  {
    && heap.vmm == cache.vmm && heap.Valid() && cache.Valid()
    && Holds(heap.vmm.mem, heap.vmm.dir, Pmm.FreeSet(heap.vmm.pmm.taken), heap.vmm.pmm.total, Both(heap.end, cache.c))
  }

  /** The pages of both. */
  ghost function Both(end: int, c: SlabCache.Cache): set<int> {
    KernelHeap.HeapPages(end) + Slab.PagesOf(Slab.SlabSet(c))
  }

  // ---------------------------------------------------------------- where the pages are

  lemma SlabsAbove(g: SlabLayout.Geometry, c: SlabCache.Cache)
    requires SlabCache.Inv(g, c)
    ensures forall p :: p in Slab.PagesOf(Slab.SlabSet(c)) ==> HEAP_LIMIT / PAGE <= p
  {
    forall p | p in Slab.PagesOf(Slab.SlabSet(c)) ensures HEAP_LIMIT / PAGE <= p {
      var s :| s in Slab.SlabSet(c) && s / PAGE == p;
      assert c.Has(s);
    }
  }

  lemma BothGrown(end: int, end': int, c: SlabCache.Cache)
    requires HEAP_START <= end <= end'
    ensures Both(end', c) == Both(end, c) + Range(end / PAGE, end' / PAGE)
  {}

  /** The slabs after kmem_cache_alloc: those before, and perhaps a new one. */
  lemma AllocSlabs(g: SlabLayout.Geometry, c: SlabCache.Cache, a: SlabCache.Attempt)
    requires SlabCache.Inv(g, c)
    ensures 0 < g.align && 0 <= g.count
    ensures var c' := SlabCache.Alloc(g, c, a).0;
            Slab.PagesOf(Slab.SlabSet(c')) ==
            if c.partial == [] && c.free == [] && a == SlabCache.NewSlab
            then Slab.PagesOf(Slab.SlabSet(c)) + Range(c.next / PAGE, c.next / PAGE + 1)
            else Slab.PagesOf(Slab.SlabSet(c))
  {
    var none := c.partial == [] && c.free == [];
    Slab.AttemptSlabs(g, c, a);
    if none && a != SlabCache.NewSlab {
      assert Slab.SlabSet(c.(next := c.next + PAGE)) == Slab.SlabSet(c);
    } else if none {
      SlabCache.AddSlabKeeps(g, c);
      TakenSlabs(g, SlabCache.AddSlab(g, c));
    } else {
      TakenSlabs(g, c);
    }
  }

  lemma TakenSlabs(g: SlabLayout.Geometry, c: SlabCache.Cache)
    requires SlabCache.Inv(g, c) && (c.partial != [] || c.free != [])
    ensures Slab.SlabSet(SlabCache.AllocFrom(c).0) == Slab.SlabSet(c)
  {
    var fromPartial := c.partial != [];
    var s := if fromPartial then c.partial[0] else c.free[0];
    assert c.Has(s) && s !in c.full;
    Slab.PoppedSet(c, fromPartial);
  }

  // ---------------------------------------------------------------- the calls

  /** kmalloc, with a slab cache around. */
  method Kmalloc(heap: KernelHeap.Allocator, cache: Slab.KmemCache, size: nat) returns (r: int)
    requires Shared(heap, cache) && size + 2 * HDR + PAGE - 1 < TWO32
    requires size != 0 && !HasRoom(heap.layout, size) ==> heap.end + Growth(size) <= HEAP_LIMIT
    modifies heap`head, heap`end, heap`hdrs, heap`bytes, heap`layout,
             heap.vmm`mem, heap.vmm.pmm`freePages, heap.vmm.pmm`usedPages, heap.vmm.pmm`taken, heap.vmm.pmm.bits
    ensures Shared(heap, cache)
  {
    ghost var m, free, end := heap.vmm.mem, Pmm.FreeSet(heap.vmm.pmm.taken), heap.end;
    ghost var grew;
    SlabsAbove(cache.g, cache.c);
    r, grew := heap.Kmalloc(size);
    AfterGrowth(heap, cache, m, free, end);
  }

  lemma AfterGrowth(heap: KernelHeap.Allocator, cache: Slab.KmemCache, m: V.Memory, free: set<int>, end: int)
    requires heap.vmm == cache.vmm && heap.Valid() && cache.Sound() && V.WellFormed(m) && HEAP_START <= end <= heap.end
    requires KernelHeap.HeapGrew(m, heap.vmm.mem, heap.vmm.dir, free, Pmm.FreeSet(heap.vmm.pmm.taken),
                                 heap.vmm.pmm.total, end, heap.end)
    requires Holds(m, heap.vmm.dir, free, heap.vmm.pmm.total, Both(end, cache.c))
    ensures Shared(heap, cache)
  {
    SlabsAbove(cache.g, cache.c);
    BothGrown(end, heap.end, cache.c);
    GrewHolds(m, heap.vmm.mem, heap.vmm.dir, free, Pmm.FreeSet(heap.vmm.pmm.taken), heap.vmm.pmm.total,
              end / PAGE, heap.end / PAGE, Both(end, cache.c));
    HoldsPart(heap.vmm.mem, heap.vmm.dir, Pmm.FreeSet(heap.vmm.pmm.taken), heap.vmm.pmm.total,
              Both(heap.end, cache.c), Slab.PagesOf(Slab.SlabSet(cache.c)));
  }

  /** kmem_cache_alloc, with the heap around. */
  method CacheAlloc(heap: KernelHeap.Allocator, cache: Slab.KmemCache) returns (obj: int)
    requires Shared(heap, cache) && cache.nextVirt + PAGE <= V.WINDOW
    modifies cache`slabs, cache`words, cache`nextVirt, cache`c, cache.lists,
             heap.vmm`mem, heap.vmm.pmm`freePages, heap.vmm.pmm`usedPages, heap.vmm.pmm`taken, heap.vmm.pmm.bits
    ensures Shared(heap, cache)
  {
    ghost var m, free, c := heap.vmm.mem, Pmm.FreeSet(heap.vmm.pmm.taken), cache.c;
    ghost var a := cache.NextAttempt();
    AllocSlabs(cache.g, c, a);
    SlabsAbove(cache.g, c);
    Slab.NextPage(cache.g, c);
    obj := cache.KmemCacheAlloc();
    if c.partial == [] && c.free == [] && a == SlabCache.NewSlab {
      AfterSlab(heap, cache, m, free, c);
    }
  }

  lemma AfterSlab(heap: KernelHeap.Allocator, cache: Slab.KmemCache, m: V.Memory, free: set<int>, c: SlabCache.Cache)
    requires heap.vmm == cache.vmm && cache.Valid() && heap.Blocks() && V.WellFormed(m)
    requires KernelHeap.AheadSeal(m, heap.vmm.dir, heap.vmm.pmm.total, heap.vmm.paging, heap.end).Intact?
    requires SlabCache.Inv(cache.g, c) && c.next + PAGE <= V.WINDOW
    requires Slab.PagesOf(Slab.SlabSet(cache.c)) ==
             Slab.PagesOf(Slab.SlabSet(c)) + Range(c.next / PAGE, c.next / PAGE + 1)
    requires Slab.SlabMapped(m, heap.vmm.mem, heap.vmm.dir, free, Pmm.FreeSet(heap.vmm.pmm.taken), heap.vmm.pmm.total,
                             c.next)
    requires Holds(m, heap.vmm.dir, free, heap.vmm.pmm.total, Both(heap.end, c))
    ensures Shared(heap, cache)
  {
    var lo := c.next / PAGE;
    ghost var free' := Pmm.FreeSet(heap.vmm.pmm.taken);
    Slab.NextPage(cache.g, c);
    GrewSame(m, heap.vmm.mem, heap.vmm.dir, free, free', heap.vmm.pmm.total, lo, lo + 1);
    KernelHeap.StillAhead(m, heap.vmm.mem, heap.vmm.dir, heap.vmm.pmm.total, heap.vmm.paging, heap.end, heap.end, lo,
                          lo + 1);
    GrewHolds(m, heap.vmm.mem, heap.vmm.dir, free, free', heap.vmm.pmm.total, lo, lo + 1, Both(heap.end, c));
    assert Both(heap.end, cache.c) == Both(heap.end, c) + Range(lo, lo + 1);
    HoldsPart(heap.vmm.mem, heap.vmm.dir, free', heap.vmm.pmm.total, Both(heap.end, cache.c),
              KernelHeap.HeapPages(heap.end));
  }

  /** kmem_cache_free, with the heap around. */
  method CacheFree(heap: KernelHeap.Allocator, cache: Slab.KmemCache, obj: int)
    requires Shared(heap, cache) && (obj != 0 ==> SlabLayout.ObjToSlab(obj) in cache.slabs)
    requires obj != 0 && cache.slabs[SlabLayout.ObjToSlab(obj)].cache == cache.id ==>
               SlabCache.IsLive(cache.g, cache.c, obj)
    modifies cache`slabs, cache`words, cache`c, cache.lists
    ensures Shared(heap, cache)
  {
    ghost var c := cache.c;
    if obj != 0 && cache.slabs[SlabLayout.ObjToSlab(obj)].cache == cache.id {
      Slab.FreedSet(cache.g, c, obj);
    }
    cache.KmemCacheFree(obj);
  }

  /** kmem_cache_shrink, with the heap around. */
  method CacheShrink(heap: KernelHeap.Allocator, cache: Slab.KmemCache)
    requires Shared(heap, cache)
    modifies cache`c, cache.lists,
             heap.vmm`mem, heap.vmm.pmm`freePages, heap.vmm.pmm`usedPages, heap.vmm.pmm`taken, heap.vmm.pmm.bits
    ensures Shared(heap, cache)
  {
    ghost var m, c := heap.vmm.mem, cache.c;
    var released := cache.KmemCacheShrink(Both(heap.end, c));
    AfterShrink(heap, cache, m, c);
  }

  lemma AfterShrink(heap: KernelHeap.Allocator, cache: Slab.KmemCache, m: V.Memory, c: SlabCache.Cache)
    requires heap.vmm == cache.vmm && cache.Valid() && heap.Blocks() && V.WellFormed(m)
    requires KernelHeap.AheadSeal(m, heap.vmm.dir, heap.vmm.pmm.total, heap.vmm.paging, heap.end).Intact?
    requires SlabCache.Inv(cache.g, c) && cache.c == SlabCache.Shrink(c)
    requires Wiped(m, heap.vmm.mem, heap.vmm.dir, Slab.PagesIn(c.free))
    requires Holds(heap.vmm.mem, heap.vmm.dir, Pmm.FreeSet(heap.vmm.pmm.taken), heap.vmm.pmm.total,
                   Both(heap.end, c) - Slab.PagesIn(c.free))
    ensures Shared(heap, cache)
  {
    ghost var free' := Pmm.FreeSet(heap.vmm.pmm.taken);
    ghost var rest := Both(heap.end, c) - Slab.PagesIn(c.free);
    SlabsAbove(cache.g, c);
    ReleasedAbove(cache.g, c);
    Slab.SlabsAligned(cache.g, c);
    Slab.ShrunkPages(c, Both(heap.end, c));
    KernelHeap.AheadWiped(m, heap.vmm.mem, heap.vmm.dir, heap.vmm.pmm.total, heap.vmm.paging, heap.end,
                          Slab.PagesIn(c.free));
    assert Both(heap.end, cache.c) <= rest;
    HoldsPart(heap.vmm.mem, heap.vmm.dir, free', heap.vmm.pmm.total, rest, Both(heap.end, cache.c));
    HoldsPart(heap.vmm.mem, heap.vmm.dir, free', heap.vmm.pmm.total, rest, KernelHeap.HeapPages(heap.end));
  }

  lemma ReleasedAbove(g: SlabLayout.Geometry, c: SlabCache.Cache)
    requires SlabCache.Inv(g, c)
    ensures forall p :: p in Slab.PagesIn(c.free) ==> HEAP_LIMIT / PAGE <= p
  {
    forall p | p in Slab.PagesIn(c.free) ensures HEAP_LIMIT / PAGE <= p {
      var s :| s in c.free && s / PAGE == p;
      assert c.Has(s);
    }
  }
}
