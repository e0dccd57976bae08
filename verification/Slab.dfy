/** The slab allocator of src/mm/slab.c: slab headers, free objects threaded through their first
    words, and the three slab lists of a cache. */
module Slab {
  import opened Kernel
  import opened SlabLayout
  import opened SlabCache
  import opened SlabPages
  import opened Owners
  import L = Lists
  import Pmm
  import V = Vmm

  /** cache, freelist and inuse of a struct slab. */
  datatype Header = Header(cache: int, freelist: int, inuse: int)

  /** Offset of the list node in struct slab, and of the list heads in struct kmem_cache. */
  const NODE := 12
  const FULL := 24
  const PARTIAL := 32
  const FREE := 40

  function Nodes(ns: seq<int>): seq<int> {
    seq(|ns|, i requires 0 <= i < |ns| => ns[i] + NODE)
  }

  function FirstOf(chain: seq<int>): int {
    if chain == [] then 0 else chain[0]
  }

  // ---------------------------------------------------------------- freelists in memory

  ghost predicate WordAt(w: map<int, int>, chain: seq<int>, i: nat) {
    i < |chain| ==> chain[i] in w && w[chain[i]] == if i + 1 < |chain| then chain[i + 1] else 0
  }

  /** The first word of every free object links to the next. */
  ghost predicate Threaded(w: map<int, int>, chain: seq<int>) {
    forall i {:trigger WordAt(w, chain, i)} :: 0 <= i < |chain| ==> WordAt(w, chain, i)
  }

  lemma ThreadedFrame(w: map<int, int>, w': map<int, int>, chain: seq<int>)
    requires Threaded(w, chain) && forall o :: o in chain && o in w ==> o in w' && w'[o] == w[o]
    ensures Threaded(w', chain)
  {
    forall i | 0 <= i < |chain| ensures WordAt(w', chain, i) {
      assert WordAt(w, chain, i);
      var o := chain[i];
      assert o in chain && o in w;
      assert o in w' && w'[o] == w[o];
    }
  }

  lemma ThreadedPush(w: map<int, int>, chain: seq<int>, o: int)
    requires Threaded(w, chain) && o !in chain
    ensures Threaded(w[o := FirstOf(chain)], [o] + chain)
  {
    var w', t := w[o := FirstOf(chain)], [o] + chain;
    forall i | 0 <= i < |t| ensures WordAt(w', t, i) {
      if 0 < i {
        assert WordAt(w, chain, i - 1) && chain[i - 1] in chain;
        assert t[i] == chain[i - 1] && (i < |chain| ==> t[i + 1] == chain[i]);
      }
    }
  }

  lemma ThreadedPop(w: map<int, int>, chain: seq<int>)
    requires Threaded(w, chain) && chain != []
    ensures chain[0] in w && w[chain[0]] == FirstOf(chain[1..]) && Threaded(w, chain[1..])
  {
    assert WordAt(w, chain, 0);
    var t := chain[1..];
    forall i | 0 <= i < |t| ensures WordAt(w, t, i) {
      assert WordAt(w, chain, i + 1);
    }
  }

  /** Slab s has its header and its freelist. */
  ghost predicate SlabAt(g: Geometry, id: int, c: Cache, hs: map<int, Header>, w: map<int, int>, s: int) {
    && s in hs && s in c.chains
    && hs[s] == Header(id, FirstOf(c.chains[s]), g.count - |c.chains[s]|)
    && Threaded(w, c.chains[s])
  }

  ghost predicate SlabsOk(g: Geometry, id: int, c: Cache, hs: map<int, Header>, w: map<int, int>) {
    forall s {:trigger SlabAt(g, id, c, hs, w, s)} :: c.Has(s) ==> SlabAt(g, id, c, hs, w, s)
  }

  /** Writing the first word of an object of slab s, and s's header, leaves the other slabs alone. */
  lemma OtherSlabs(g: Geometry, id: int, c: Cache, hs: map<int, Header>, w: map<int, int>,
                   c': Cache, hs': map<int, Header>, w': map<int, int>, s: int)
    requires Inv(g, c) && SlabsOk(g, id, c, hs, w)
    requires forall x :: c'.Has(x) ==> c.Has(x) || x == s
    requires c'.chains - {s} == c.chains - {s} && hs' - {s} == hs - {s}
    requires forall o :: o in w && ObjToSlab(o) != s ==> o in w' && w'[o] == w[o]
    requires SlabAt(g, id, c', hs', w', s)
    ensures SlabsOk(g, id, c', hs', w')
  {
    forall x | c'.Has(x) ensures SlabAt(g, id, c', hs', w', x) {
      if x != s {
        assert SlabAt(g, id, c, hs, w, x);
        assert x in c'.chains - {s} && x in hs' - {s};
        assert c'.chains[x] == (c'.chains - {s})[x] && c.chains[x] == (c.chains - {s})[x];
        assert hs'[x] == (hs' - {s})[x] && hs[x] == (hs - {s})[x];
        forall o | o in c.chains[x] ensures ObjToSlab(o) == x {
          SlabOf(g, x, o);
        }
        ThreadedFrame(w, w', c.chains[x]);
      }
    }
  }

  // ---------------------------------------------------------------- the three lists

  ghost predicate Rings(k: L.Links, id: int, full: seq<int>, partial: seq<int>, free: seq<int>) {
    && L.Ring(k, id + FULL, Nodes(full))
    && L.Ring(k, id + PARTIAL, Nodes(partial))
    && L.Ring(k, id + FREE, Nodes(free))
  }

  /** A list of slabs lies above the cache descriptor. */
  ghost predicate Above(id: int, ns: seq<int>) {
    forall s :: s in ns ==> id + 56 <= s
  }

  lemma NodeIn(ns: seq<int>, s: int)
    ensures s + NODE in Nodes(ns) <==> s in ns
  {
    if s in ns {
      var i :| 0 <= i < |ns| && ns[i] == s;
      assert Nodes(ns)[i] == s + NODE;
    }
  }

  lemma RingsApart(id: int, h: int, a: seq<int>, h2: int, b: seq<int>)
    requires Above(id, a) && Above(id, b) && SlabCache.Apart(a, b)
    requires id < h < id + 56 && id < h2 < id + 56 && h != h2
    ensures ({h} + L.Set(Nodes(a))) !! ({h2} + L.Set(Nodes(b)))
  {
    forall n | n in Nodes(a) ensures n !in Nodes(b) && n >= id + 56 {
      assert n == n - NODE + NODE;
      NodeIn(a, n - NODE);
      NodeIn(b, n - NODE);
    }
    forall n | n in Nodes(b) ensures n >= id + 56 {
      assert n == n - NODE + NODE;
      NodeIn(b, n - NODE);
    }
  }

  /** A ring survives changes confined to another one. */
  lemma KeepRing(k: L.Links, k': L.Links, h: int, a: seq<int>, s: set<int>)
    requires L.Ring(k, h, Nodes(a)) && L.Untouched(k, k', s) && ({h} + L.Set(Nodes(a))) !! s
    ensures L.Ring(k', h, Nodes(a))
  {
    L.HeadLinks(k, h, Nodes(a));
    L.RingFrame(k, k', h, Nodes(a));
  }

  lemma NodesWithout(ns: seq<int>, i: nat)
    requires i < |ns|
    ensures Nodes(L.Without(ns, i)) == L.Without(Nodes(ns), i)
  {}

  lemma NodesAppend(ns: seq<int>, s: int)
    ensures Nodes(ns + [s]) == Nodes(ns) + [s + NODE]
  {}

  // ---------------------------------------------------------------- the code

  class KmemCache {
    /** The address of the struct kmem_cache. */
    const id: int
    const g: Geometry
    const lists: L.ListStore
    const vmm: V.AddressSpace
    var slabs: map<int, Header>
    var words: map<int, int>
    var nextVirt: int
    ghost var c: Cache

    /** The lists, headers and freelists agree with the abstract cache. */
    ghost predicate Sound()
      reads this, lists
    {
      SoundBut(nextVirt)
    }

    /** The same, with `next` for next_slab_virt. */
    ghost predicate SoundBut(next: int)
      reads this, lists
    {
      && Inv(g, c) && c.next == next && 0 < id && id + 56 <= SLAB_VIRT_START
      && Rings(lists.links, id, c.full, c.partial, c.free)
      && SlabsOk(g, id, c, slabs, words)
    }

    /** The lists, headers and freelists are sound, and every slab has its own mapped frame. */
    ghost predicate Valid()
      reads this, lists, vmm, vmm.pmm, vmm.pmm.bits
    {
      && Sound() && vmm.Valid()
      && Holds(vmm.mem, vmm.dir, Pmm.FreeSet(vmm.pmm.taken), vmm.pmm.total, PagesOf(SlabSet(c)))
    }

    /** The list set-up at the end of kmem_cache_create. */
    constructor (id: int, g: Geometry, lists: L.ListStore, vmm: V.AddressSpace)
      requires GeometryOk(g) && 0 < id && id + 56 <= SLAB_VIRT_START
      requires vmm.Valid()
      modifies lists
      ensures this.id == id && this.g == g && this.lists == lists && this.vmm == vmm && Valid() && c == Empty()
      ensures nextVirt == SLAB_VIRT_START
    {
      this.id, this.g, this.lists, this.vmm := id, g, lists, vmm;
      slabs, words, nextVirt := map[], map[], SLAB_VIRT_START;
      c := Empty();
      new;
      InitRings(lists, id);
      StartsValid();
    }

    lemma StartsValid()
      requires GeometryOk(g) && 0 < id && id + 56 <= SLAB_VIRT_START && Rings(lists.links, id, [], [], [])
      requires c == Empty() && nextVirt == SLAB_VIRT_START && vmm.Valid()
      ensures Valid()
    {
      EmptySound(g, id, slabs, words);
      HoldsNothing(vmm.mem, vmm.dir, Pmm.FreeSet(vmm.pmm.taken), vmm.pmm.total);
      assert PagesOf({}) == {};
    }

    lemma ListsAbove(next: int)
      requires SoundBut(next)
      ensures Above(id, c.full) && Above(id, c.partial) && Above(id, c.free)
    {
      forall s | c.Has(s) ensures id + 56 <= s {}
    }

    /** The free list of a new slab, linked in LIFO order. */
    method BuildFreelist(virt: int) returns (prev: int)
      requires GeometryOk(g) && virt % PAGE == 0
      modifies this`words
      ensures prev == FirstOf(Built(g, virt, g.count)) && Threaded(words, Built(g, virt, g.count))
      ensures forall o :: o in old(words) && ObjToSlab(o) != virt ==> o in words && words[o] == old(words)[o]
    {
      var off := AlignUp(virt + SLAB_HDR, g.align);
      prev := 0;
      for i := 0 to g.count
        invariant prev == FirstOf(Built(g, virt, i)) && Threaded(words, Built(g, virt, i))
        invariant forall o :: o in old(words) && ObjToSlab(o) != virt ==> o in words && words[o] == old(words)[o]
      {
        var obj := off + i * g.size;
        BuiltFacts(g, virt, i);
        NotYetBuilt(g, virt, i);
        ThreadedPush(words, Built(g, virt, i), obj);
        ObjectFacts(g, virt, i);
        words := words[obj := prev];
        prev := obj;
      }
    }

    /** new_slab; what it gets is decided by the free frames and the page at next_slab_virt. */
    method AddNewSlab() returns (a: Attempt)
      requires Valid() && nextVirt + PAGE <= V.WINDOW
      modifies this`slabs, this`words, this`nextVirt, this`c, lists,
               vmm`mem, vmm.pmm`freePages, vmm.pmm`usedPages, vmm.pmm`taken, vmm.pmm.bits
      ensures Valid() && a == old(NextAttempt()) && c == AfterAttempt(g, old(c), a)
      ensures a != NewSlab ==>
                vmm.mem == old(vmm.mem) && Pmm.FreeSet(vmm.pmm.taken) == old(Pmm.FreeSet(vmm.pmm.taken))
      ensures a == NewSlab ==> SlabMapped(old(vmm.mem), vmm.mem, vmm.dir, old(Pmm.FreeSet(vmm.pmm.taken)),
                                          Pmm.FreeSet(vmm.pmm.taken), vmm.pmm.total, old(nextVirt))
    {
      var virt := nextVirt;
      a := MapNext(virt);
      if a != NoFrame {
        nextVirt := nextVirt + PAGE;
      }
      EnterSlab(virt, a);
    }

    /** The frame and the mapping for the next slab. */
    method MapNext(virt: int) returns (a: Attempt)
      requires Valid() && virt == nextVirt && nextVirt + PAGE <= V.WINDOW
      modifies vmm`mem, vmm.pmm`freePages, vmm.pmm`usedPages, vmm.pmm`taken, vmm.pmm.bits
      ensures vmm.Valid() && 0 <= nextVirt && a == old(NextAttempt())
      ensures a != NewSlab ==>
                vmm.mem == old(vmm.mem) && Pmm.FreeSet(vmm.pmm.taken) == old(Pmm.FreeSet(vmm.pmm.taken))
      ensures a == NewSlab ==> SlabMapped(old(vmm.mem), vmm.mem, vmm.dir, old(Pmm.FreeSet(vmm.pmm.taken)),
                                          Pmm.FreeSet(vmm.pmm.taken), vmm.pmm.total, nextVirt)
      ensures Holds(vmm.mem, vmm.dir, Pmm.FreeSet(vmm.pmm.taken), vmm.pmm.total,
                    PagesOf(SlabSet(AfterAttempt(g, c, a))))
    {
      NextPage(g, c);
      AttemptSlabs(g, c, NextAttempt());
      a := MapOwned(vmm, virt, virt / PAGE, PagesOf(SlabSet(c)));
    }

    /** What new_slab would get now. */
    ghost function NextAttempt(): Attempt
      reads this, vmm, vmm.pmm
      requires V.WellFormed(vmm.mem) && vmm.dir < V.FRAMES && 0 <= nextVirt && nextVirt + PAGE <= V.WINDOW
    {
      AttemptOf(vmm.mem, vmm.dir, Pmm.FreeSet(vmm.pmm.taken), nextVirt / PAGE, vmm.paging)
    }

    /** The part of new_slab behind the mapping: header, freelist and list node. */
    method EnterSlab(virt: int, a: Attempt)
      requires SoundBut(virt) && virt + PAGE <= TWO32 && nextVirt == if a == NoFrame then virt else virt + PAGE
      modifies this`slabs, this`words, this`c, lists
      ensures Sound() && c == AfterAttempt(g, old(c), a)
    {
      ghost var hs, w := slabs, words;
      ListsAbove(virt);
      FreshSlab(g, c);
      if a == NoFrame {
        return;
      }
      if a == NoMapping {
        AddressUsedUp(g, id, c, slabs, words);
        c := c.(next := c.next + PAGE);
        return;
      }
      AddSlabKeeps(g, c);
      var first := BuildFreelist(virt);
      slabs := slabs[virt := Header(id, first, 0)];
      AddedSlab(g, id, c, hs, w, words);
      NewNode(virt);
      c := AddSlab(g, c);
    }

    /** INIT_LIST_HEAD and list_add_tail for the node of a new slab. */
    method NewNode(virt: int)
      requires Rings(lists.links, id, c.full, c.partial, c.free)
      requires Above(id, c.full) && Above(id, c.partial) && Above(id, c.free) && id + 56 <= virt
      requires SlabCache.Apart(c.full, c.partial) && SlabCache.Apart(c.full, c.free)
      requires SlabCache.Apart(c.partial, c.free)
      requires virt !in c.full && virt !in c.partial && virt !in c.free
      modifies lists
      ensures Rings(lists.links, id, c.full, c.partial + [virt], c.free)
    {
      var node := virt + NODE;
      ghost var k := lists.links;
      NodeIn(c.full, virt);
      NodeIn(c.partial, virt);
      NodeIn(c.free, virt);
      lists.InitListHead(node);
      KeepRing(k, lists.links, id + FULL, c.full, {node});
      KeepRing(k, lists.links, id + PARTIAL, c.partial, {node});
      KeepRing(k, lists.links, id + FREE, c.free, {node});
      AddNode(virt, id + PARTIAL, c.full, c.partial, c.free);
    }

    /** list_add_tail of the node of slab s to the partial or the free list. */
    method AddNode(s: int, h: int, ghost full: seq<int>, ghost partial: seq<int>, ghost free: seq<int>)
      requires Rings(lists.links, id, full, partial, free) && (h == id + PARTIAL || h == id + FREE)
      requires Above(id, full) && Above(id, partial) && Above(id, free) && id + 56 <= s
      requires SlabCache.Apart(full, partial) && SlabCache.Apart(full, free) && SlabCache.Apart(partial, free)
      requires s !in full && s !in partial && s !in free && s + NODE in lists.links
      modifies lists
      ensures h == id + PARTIAL ==> Rings(lists.links, id, full, partial + [s], free)
      ensures h == id + FREE ==> Rings(lists.links, id, full, partial, free + [s])
    {
      ghost var k, ns := lists.links, if h == id + PARTIAL then partial else free;
      var node := s + NODE;
      NodeIn(full, s);
      NodeIn(partial, s);
      NodeIn(free, s);
      RingsApart(id, id + FULL, full, id + PARTIAL, partial);
      RingsApart(id, id + FULL, full, id + FREE, free);
      RingsApart(id, id + PARTIAL, partial, id + FREE, free);
      NodesAppend(ns, s);
      lists.ListAddTail(node, h, Nodes(ns));
      ghost var touched := {h, node} + L.Set(Nodes(ns));
      KeepRing(k, lists.links, id + FULL, full, touched);
      if h == id + PARTIAL {
        KeepRing(k, lists.links, id + FREE, free, touched);
      } else {
        KeepRing(k, lists.links, id + PARTIAL, partial, touched);
      }
    }

    /** kmem_cache_alloc. NULL exactly when neither list has a slab with room and a new one cannot be had. */
    method KmemCacheAlloc() returns (obj: int)
      requires Valid() && nextVirt + PAGE <= V.WINDOW
      modifies this`slabs, this`words, this`nextVirt, this`c, lists,
               vmm`mem, vmm.pmm`freePages, vmm.pmm`usedPages, vmm.pmm`taken, vmm.pmm.bits
      ensures Valid() && (c, obj) == Alloc(g, old(c), old(NextAttempt()))
      ensures obj == 0 <==> old(c).partial == [] && old(c).free == [] && old(NextAttempt()) != NewSlab
      ensures old(c).partial != [] || old(c).free != [] || old(NextAttempt()) != NewSlab ==>
                vmm.mem == old(vmm.mem) && Pmm.FreeSet(vmm.pmm.taken) == old(Pmm.FreeSet(vmm.pmm.taken))
      ensures old(c).partial == [] && old(c).free == [] && old(NextAttempt()) == NewSlab ==>
                SlabMapped(old(vmm.mem), vmm.mem, vmm.dir, old(Pmm.FreeSet(vmm.pmm.taken)),
                           Pmm.FreeSet(vmm.pmm.taken), vmm.pmm.total, old(nextVirt))
    {
      var none, fromPartial := ChooseList();
      AllocNull(NextAttempt());
      if none {
        var attempt := AddNewSlab();
        if attempt != NewSlab {
          return 0;
        }
        fromPartial := true;
      }
      obj := TakeFrom(fromPartial);
    }

    /** The choice between the partial and the free list. */
    method ChooseList() returns (none: bool, fromPartial: bool)
      requires Sound()
      ensures none <==> c.partial == [] && c.free == []
      ensures fromPartial <==> c.partial != []
    {
      var noPartial := lists.ListEmpty(id + PARTIAL, Nodes(c.partial));
      fromPartial := !noPartial;
      none := false;
      if noPartial {
        none := lists.ListEmpty(id + FREE, Nodes(c.free));
      }
    }

    lemma AllocNull(a: Attempt)
      requires Sound()
      ensures 0 < g.align && 0 <= g.count
      ensures Alloc(g, c, a).1 == 0 <==> c.partial == [] && c.free == [] && a != NewSlab
    {
      AllocKeeps(g, c, a);
    }

    /** The second half of kmem_cache_alloc; the set of slabs stays the same. */
    method TakeFrom(fromPartial: bool) returns (obj: int)
      requires Valid() && (fromPartial <==> c.partial != []) && (c.partial != [] || c.free != [])
      modifies this`slabs, this`words, this`c, lists
      ensures Valid() && (c, obj) == AllocFrom(old(c))
    {
      ghost var c1 := c;
      obj := TakeFirst(fromPartial);
      PoppedSet(c1, fromPartial);
    }

    /** The second half of kmem_cache_alloc: pop an object of the first slab on the chosen list. */
    method TakeFirst(fromPartial: bool) returns (obj: int)
      requires Sound() && if fromPartial then c.partial != [] else c.free != []
      modifies this`slabs, this`words, this`c, lists
      ensures Sound()
      ensures var s := if fromPartial then old(c).partial[0] else old(c).free[0];
              && s in old(c).chains && old(c).chains[s] != [] && obj == old(c).chains[s][0]
              && c == Popped(old(c), fromPartial)
    {
      PoppedKeeps(g, c, fromPartial);
      PoppedSlabs(g, id, c, slabs, words, fromPartial);
      ListsAbove(nextVirt);
      var h := if fromPartial then id + PARTIAL else id + FREE;
      var node := lists.First(h, Nodes(if fromPartial then c.partial else c.free));
      var s := node - NODE;
      obj := PopObject(s);
      assert obj != 0;
      if slabs[s].inuse == g.count {
        MoveToFull(s, fromPartial);
      }
      c := Popped(c, fromPartial);
    }

    /** Pop the freelist of slab s and clear the object's first word. */
    method PopObject(s: int) returns (obj: int)
      requires s in slabs && slabs[s].freelist in words
      modifies this`slabs, this`words
      ensures obj == old(slabs)[s].freelist && words == old(words)[obj := 0]
      ensures slabs == old(slabs)[s := old(slabs)[s].(freelist := old(words)[obj], inuse := old(slabs)[s].inuse + 1)]
    {
      obj := slabs[s].freelist;
      slabs := slabs[s := slabs[s].(freelist := words[obj])];
      slabs := slabs[s := slabs[s].(inuse := slabs[s].inuse + 1)];
      words := words[obj := 0];
    }

    /** Push an object onto the freelist of slab s; false when the slab has none in use. */
    method PushObject(s: int, obj: int) returns (ok: bool)
      requires s in slabs
      modifies this`slabs, this`words
      ensures ok <==> old(slabs)[s].inuse != 0
      ensures words == old(words)[obj := old(slabs)[s].freelist]
      ensures ok ==> slabs == old(slabs)[s := old(slabs)[s].(freelist := obj, inuse := old(slabs)[s].inuse - 1)]
    {
      words := words[obj := slabs[s].freelist];
      slabs := slabs[s := slabs[s].(freelist := obj)];
      if slabs[s].inuse == 0 {
        return false;
      }
      slabs := slabs[s := slabs[s].(inuse := slabs[s].inuse - 1)];
      ok := true;
    }

    /** list_move_tail of the first slab of the partial or free list to the full list. */
    method MoveToFull(s: int, fromPartial: bool)
      requires Rings(lists.links, id, c.full, c.partial, c.free)
      requires Above(id, c.full) && Above(id, c.partial) && Above(id, c.free)
      requires SlabCache.Apart(c.full, c.partial) && SlabCache.Apart(c.full, c.free)
      requires SlabCache.Apart(c.partial, c.free)
      requires if fromPartial then c.partial != [] && c.partial[0] == s else c.free != [] && c.free[0] == s
      modifies lists
      ensures fromPartial ==> Rings(lists.links, id, c.full + [s], L.Without(c.partial, 0), c.free)
      ensures !fromPartial ==> Rings(lists.links, id, c.full + [s], c.partial, L.Without(c.free, 0))
    {
      ghost var k, h, ns := lists.links, id + FREE, c.free;
      if fromPartial {
        h, ns := id + PARTIAL, c.partial;
      }
      RingsApart(id, h, ns, id + FULL, c.full);
      RingsApart(id, id + FULL, c.full, id + PARTIAL, c.partial);
      RingsApart(id, id + FULL, c.full, id + FREE, c.free);
      RingsApart(id, id + PARTIAL, c.partial, id + FREE, c.free);
      NodesWithout(ns, 0);
      NodesAppend(c.full, s);
      lists.ListMoveTail(s + NODE, id + FULL, h, Nodes(ns), 0, Nodes(c.full));
      ghost var touched := {h} + L.Set(Nodes(ns)) + {id + FULL} + L.Set(Nodes(c.full));
      if fromPartial {
        KeepRing(k, lists.links, id + FREE, c.free, touched);
      } else {
        KeepRing(k, lists.links, id + PARTIAL, c.partial, touched);
      }
    }

    /** A client writes the first word of an object it holds. */
    method ClientWrite(obj: int, w: int)
      requires Valid() && IsLive(g, c, obj)
      modifies this`words
      ensures Valid() && c == old(c)
    {
      var s := ObjToSlab(obj);
      assert SlabAt(g, id, c, slabs, words, s);
      ThreadedFrame(words, words[obj := w], c.chains[s]);
      OtherSlabs(g, id, c, slabs, words, c, slabs, words[obj := w], s);
      words := words[obj := w];
    }

    /** kmem_cache_free of NULL or an object of some slab page; one of another cache is left alone. */
    method KmemCacheFree(obj: int)
      requires Valid() && (obj != 0 ==> ObjToSlab(obj) in slabs)
      requires obj != 0 && slabs[ObjToSlab(obj)].cache == id ==> IsLive(g, c, obj)
      modifies this`slabs, this`words, this`c, lists
      ensures Valid()
      ensures c == if obj != 0 && old(slabs)[ObjToSlab(obj)].cache == id then FreeObject(g, old(c), obj) else old(c)
      ensures var s := ObjToSlab(obj);
              obj != 0 && old(slabs)[s].cache == id ==>
                && (s in c.free <==> AllFree(g, c, s)) && (s in c.partial <==> !AllFree(g, c, s)) && s !in c.full
                && OthersStay(old(c), c, s)
    {
      if obj == 0 {
        return;
      }
      var s := ObjToSlab(obj);
      if slabs[s].cache != id {
        return;
      }
      ghost var c0 := c;
      FreeLive(obj);
      FreedSet(g, c0, obj);
      FreeLists(g, c0, obj);
    }

    /** The part of kmem_cache_free behind its checks. */
    method FreeLive(obj: int)
      requires Sound() && ObjToSlab(obj) in slabs && IsLive(g, c, obj)
      modifies this`slabs, this`words, this`c, lists
      ensures Sound() && c == FreeObject(g, old(c), obj)
    {
      var s := ObjToSlab(obj);
      FreeKeeps(g, c, obj);
      FreedSlabs(g, id, c, slabs, words, obj);
      ListsAbove(nextVirt);
      var ok := PushObject(s, obj);
      assert ok;
      Relink(s, if slabs[s].inuse == 0 then id + FREE else id + PARTIAL);
      c := FreeObject(g, c, obj);
    }

    /** list_del_init from whichever list holds the slab, then list_add_tail to another. */
    method Relink(s: int, h: int)
      requires Rings(lists.links, id, c.full, c.partial, c.free) && (h == id + PARTIAL || h == id + FREE)
      requires Above(id, c.full) && Above(id, c.partial) && Above(id, c.free)
      requires SlabCache.Apart(c.full, c.partial) && SlabCache.Apart(c.full, c.free)
      requires SlabCache.Apart(c.partial, c.free)
      requires Unique(c.full) && Unique(c.partial) && Unique(c.free) && c.Has(s)
      modifies lists
      ensures h == id + PARTIAL ==>
                Rings(lists.links, id, Remove(c.full, s), Remove(c.partial, s) + [s], Remove(c.free, s))
      ensures h == id + FREE ==>
                Rings(lists.links, id, Remove(c.full, s), Remove(c.partial, s), Remove(c.free, s) + [s])
    {
      Detach(s);
      RemoveFacts(c.full, s);
      RemoveFacts(c.partial, s);
      RemoveFacts(c.free, s);
      AddNode(s, h, Remove(c.full, s), Remove(c.partial, s), Remove(c.free, s));
    }

    method Detach(s: int)
      requires Rings(lists.links, id, c.full, c.partial, c.free)
      requires Above(id, c.full) && Above(id, c.partial) && Above(id, c.free)
      requires SlabCache.Apart(c.full, c.partial) && SlabCache.Apart(c.full, c.free)
      requires SlabCache.Apart(c.partial, c.free)
      requires c.Has(s)
      modifies lists
      ensures Rings(lists.links, id, Remove(c.full, s), Remove(c.partial, s), Remove(c.free, s))
      ensures s + NODE in lists.links
    {
      ghost var k, h, ns := lists.links, id + FREE, c.free;
      if s in c.full {
        h, ns := id + FULL, c.full;
      } else if s in c.partial {
        h, ns := id + PARTIAL, c.partial;
      }
      RingsApart(id, id + FULL, c.full, id + PARTIAL, c.partial);
      RingsApart(id, id + FULL, c.full, id + FREE, c.free);
      RingsApart(id, id + PARTIAL, c.partial, id + FREE, c.free);
      ghost var i := IndexIn(ns, s);
      NodesWithout(ns, i);
      lists.ListDelInit(s + NODE, h, Nodes(ns), i);
      ghost var touched := {h} + L.Set(Nodes(ns));
      if h != id + FULL {
        KeepRing(k, lists.links, id + FULL, c.full, touched);
      }
      if h != id + PARTIAL {
        KeepRing(k, lists.links, id + PARTIAL, c.partial, touched);
      }
      if h != id + FREE {
        KeepRing(k, lists.links, id + FREE, c.free, touched);
      }
    }

    /** kmem_cache_shrink; `released` are the slab pages it unmaps, in order, and no other page. Their frames
        are free again, one for each. All other owners of frames, in `all`, keep theirs. */
    method KmemCacheShrink(ghost all: set<int>) returns (released: seq<int>)
      requires Valid() && PagesOf(SlabSet(c)) <= all
      requires Holds(vmm.mem, vmm.dir, Pmm.FreeSet(vmm.pmm.taken), vmm.pmm.total, all)
      modifies this`c, lists, vmm`mem, vmm.pmm`freePages, vmm.pmm`usedPages, vmm.pmm`taken, vmm.pmm.bits
      ensures Valid() && c == Shrink(old(c)) && released == old(c).free
      ensures Wiped(old(vmm.mem), vmm.mem, vmm.dir, PagesIn(released))
      ensures |Pmm.FreeSet(vmm.pmm.taken)| == old(|Pmm.FreeSet(vmm.pmm.taken)|) + |released|
      ensures old(Pmm.FreeSet(vmm.pmm.taken)) <= Pmm.FreeSet(vmm.pmm.taken)
      ensures Holds(vmm.mem, vmm.dir, Pmm.FreeSet(vmm.pmm.taken), vmm.pmm.total, all - PagesIn(released))
    {
      ghost var c0 := c;
      ShrinkExact(g, c);
      ListsAbove(nextVirt);
      SlabsAligned(g, c);
      released := ReleaseAll(c0, all);
      RestDone(lists.links, id, c0);
      ShrunkSlabs(g, id, c0, slabs, words);
      ShrunkPages(c0, all);
      HoldsPart(vmm.mem, vmm.dir, Pmm.FreeSet(vmm.pmm.taken), vmm.pmm.total, all - PagesIn(released),
                PagesOf(SlabSet(Shrink(c0))));
      c := Shrink(c);
    }

    /** The loop of kmem_cache_shrink. */
    method ReleaseAll(ghost c0: Cache, ghost all: set<int>) returns (released: seq<int>)
      requires vmm.Valid() && RestSeal(lists.links, id, c0, c0.free).Intact?
      requires PagesOf(SlabSet(c0)) <= all && OnPages(c0) && Unique(c0.free)
      requires Holds(vmm.mem, vmm.dir, Pmm.FreeSet(vmm.pmm.taken), vmm.pmm.total, all)
      modifies lists, vmm`mem, vmm.pmm`freePages, vmm.pmm`usedPages, vmm.pmm`taken, vmm.pmm.bits
      ensures vmm.Valid() && released == c0.free && RestSeal(lists.links, id, c0, []).Intact?
      ensures Wiped(old(vmm.mem), vmm.mem, vmm.dir, PagesIn(released))
      ensures Holds(vmm.mem, vmm.dir, Pmm.FreeSet(vmm.pmm.taken), vmm.pmm.total, all - PagesIn(released))
      ensures |Pmm.FreeSet(vmm.pmm.taken)| == old(|Pmm.FreeSet(vmm.pmm.taken)|) + |released|
      ensures old(Pmm.FreeSet(vmm.pmm.taken)) <= Pmm.FreeSet(vmm.pmm.taken)
    {
      released := [];
      ghost var rest, m, free := c0.free, vmm.mem, Pmm.FreeSet(vmm.pmm.taken);
      NothingWiped(m, vmm.dir);
      assert PagesIn([]) == {} && all - {} == all;
      var empty := RestEmpty(c0, rest);
      while !empty
        invariant RestSeal(lists.links, id, c0, rest).Intact?
        invariant released + rest == c0.free && empty == (rest == [])
        invariant vmm.Valid() && Wiped(m, vmm.mem, vmm.dir, PagesIn(released))
        invariant Holds(vmm.mem, vmm.dir, Pmm.FreeSet(vmm.pmm.taken), vmm.pmm.total, all - PagesIn(released))
        invariant free <= Pmm.FreeSet(vmm.pmm.taken) && |Pmm.FreeSet(vmm.pmm.taken)| == |free| + |released|
        decreases |rest|
      {
        ghost var rest', page := rest[1..], rest[0] / PAGE;
        RestPage(c0, released, rest, all);
        var s := ReleaseNext(c0, rest, rest', all - PagesIn(released), page, m, PagesIn(released));
        released := released + [s];
        rest := rest';
        empty := RestEmpty(c0, rest);
      }
    }

    /** list_empty of the free list. */
    method RestEmpty(ghost c0: Cache, ghost rest: seq<int>) returns (empty: bool)
      requires RestSeal(lists.links, id, c0, rest).Intact?
      ensures empty <==> rest == []
    {
      assert Open(TheList, 0);
      empty := lists.ListEmpty(id + FREE, Nodes(rest));
    }

    /** The body of that loop. */
    method ReleaseNext(ghost c0: Cache, ghost rest: seq<int>, ghost rest': seq<int>, ghost left: set<int>,
                       ghost page: int, ghost m: V.Memory, ghost gone: set<int>) returns (s: int)
      requires vmm.Valid() && RestSeal(lists.links, id, c0, rest).Intact? && rest != [] && rest' == rest[1..]
      requires 0 <= rest[0] && rest[0] % PAGE == 0 && rest[0] / PAGE == page && page in left
      requires Holds(vmm.mem, vmm.dir, Pmm.FreeSet(vmm.pmm.taken), vmm.pmm.total, left)
      requires V.WellFormed(m) && Wiped(m, vmm.mem, vmm.dir, gone)
      modifies lists, vmm`mem, vmm.pmm`freePages, vmm.pmm`usedPages, vmm.pmm`taken, vmm.pmm.bits
      ensures vmm.Valid() && s == rest[0] && RestSeal(lists.links, id, c0, rest').Intact?
      ensures Holds(vmm.mem, vmm.dir, Pmm.FreeSet(vmm.pmm.taken), vmm.pmm.total, left - {page})
      ensures Wiped(m, vmm.mem, vmm.dir, gone + {page})
      ensures old(Pmm.FreeSet(vmm.pmm.taken)) <= Pmm.FreeSet(vmm.pmm.taken)
      ensures |Pmm.FreeSet(vmm.pmm.taken)| == old(|Pmm.FreeSet(vmm.pmm.taken)|) + 1
    {
      ghost var m0 := vmm.mem;
      s := ReleaseFirst(c0, rest, rest');
      HoldsPage(vmm.mem, vmm.dir, Pmm.FreeSet(vmm.pmm.taken), vmm.pmm.total, left, page);
      BelowWindow(s);
      ReleaseSlab(vmm, s, page, left);
      OneWiped(m, m0, vmm.mem, vmm.dir, gone, page);
    }

    /** list_del of the first slab on what is left of the free list. */
    method ReleaseFirst(ghost c0: Cache, ghost rest: seq<int>, ghost rest': seq<int>) returns (s: int)
      requires RestSeal(lists.links, id, c0, rest).Intact? && rest != [] && rest' == rest[1..]
      modifies lists
      ensures s == rest[0] && RestSeal(lists.links, id, c0, rest').Intact?
    {
      assert Open(TheList, 0);
      ghost var k := lists.links;
      var node := lists.First(id + FREE, Nodes(rest));
      s := node - NODE;
      RingsApart(id, id + FULL, c0.full, id + FREE, rest);
      RingsApart(id, id + PARTIAL, c0.partial, id + FREE, rest);
      assert L.Without(rest, 0) == rest';
      ShrinkStep(id, c0, rest);
      NodesWithout(rest, 0);
      lists.ListDel(s + NODE, id + FREE, Nodes(rest), 0);
      KeepRing(k, lists.links, id + FULL, c0.full, {id + FREE} + L.Set(Nodes(rest)));
      KeepRing(k, lists.links, id + PARTIAL, c0.partial, {id + FREE} + L.Set(Nodes(rest)));
    }
  }

  lemma FreshSlab(g: Geometry, c: Cache)
    requires Inv(g, c)
    ensures !c.Has(c.next) && c.next % PAGE == 0 && SLAB_VIRT_START <= c.next
  {}

  /** What TakeFirst does to the header and the freelist. */
  lemma PoppedSlabs(g: Geometry, id: int, c: Cache, hs: map<int, Header>, w: map<int, int>, fromPartial: bool)
    requires Inv(g, c) && SlabsOk(g, id, c, hs, w) && if fromPartial then c.partial != [] else c.free != []
    ensures var s := if fromPartial then c.partial[0] else c.free[0];
            && s in hs && s in c.chains && c.chains[s] != [] && hs[s].freelist == c.chains[s][0] && c.chains[s][0] != 0
            && c.chains[s][0] in w && (hs[s].inuse + 1 == g.count <==> c.chains[s][1..] == [])
            && SlabsOk(g, id, Popped(c, fromPartial),
                       hs[s := hs[s].(freelist := w[c.chains[s][0]], inuse := hs[s].inuse + 1)], w[c.chains[s][0] := 0])
  {
    PoppedKeeps(g, c, fromPartial);
    PoppedLive(g, c, fromPartial);
    var s := if fromPartial then c.partial[0] else c.free[0];
    assert c.Has(s) && SlabAt(g, id, c, hs, w, s);
    var chain := c.chains[s];
    var obj, c' := chain[0], Popped(c, fromPartial);
    ThreadedPop(w, chain);
    ChainTail(g, s, chain);
    var w' := w[obj := 0];
    ThreadedFrame(w, w', chain[1..]);
    var hs' := hs[s := hs[s].(freelist := w[obj], inuse := hs[s].inuse + 1)];
    assert c'.chains - {s} == c.chains - {s} && hs' - {s} == hs - {s};
    if chain[1..] == [] {
      WithoutFacts(if fromPartial then c.partial else c.free, 0);
    }
    OtherSlabs(g, id, c, hs, w, c', hs', w', s);
  }

  /** What KmemCacheFree does to the header and the freelist. */
  lemma FreedSlabs(g: Geometry, id: int, c: Cache, hs: map<int, Header>, w: map<int, int>, obj: int)
    requires Inv(g, c) && SlabsOk(g, id, c, hs, w) && IsLive(g, c, obj)
    ensures var s := ObjToSlab(obj);
            && s in hs && s in c.chains && 0 < hs[s].inuse && (hs[s].inuse - 1 == 0 <==> |c.chains[s]| + 1 == g.count)
            && SlabsOk(g, id, FreeObject(g, c, obj), hs[s := hs[s].(freelist := obj, inuse := hs[s].inuse - 1)],
                       w[obj := hs[s].freelist])
  {
    FreeKeeps(g, c, obj);
    var s := ObjToSlab(obj);
    assert SlabAt(g, id, c, hs, w, s);
    var chain, c' := c.chains[s], FreeObject(g, c, obj);
    ThreadedPush(w, chain, obj);
    var hs', w' := hs[s := hs[s].(freelist := obj, inuse := hs[s].inuse - 1)], w[obj := hs[s].freelist];
    assert c'.chains - {s} == c.chains - {s} && hs' - {s} == hs - {s};
    RemoveFacts(c.full, s);
    RemoveFacts(c.partial, s);
    RemoveFacts(c.free, s);
    OtherSlabs(g, id, c, hs, w, c', hs', w', s);
  }

  lemma ShrunkSlabs(g: Geometry, id: int, c: Cache, hs: map<int, Header>, w: map<int, int>)
    requires SlabsOk(g, id, c, hs, w)
    ensures SlabsOk(g, id, Shrink(c), hs, w)
  {
    var c' := Shrink(c);
    forall s | c'.Has(s) ensures SlabAt(g, id, c', hs, w, s) {
      assert SlabAt(g, id, c, hs, w, s);
    }
  }

  lemma AddressUsedUp(g: Geometry, id: int, c: Cache, hs: map<int, Header>, w: map<int, int>)
    requires Inv(g, c) && SlabsOk(g, id, c, hs, w)
    ensures var c' := c.(next := c.next + PAGE); Inv(g, c') && SlabsOk(g, id, c', hs, w)
  {
    var c' := c.(next := c.next + PAGE);
    assert forall s :: c'.Has(s) <==> c.Has(s);
    forall s | c'.Has(s) ensures SlabAt(g, id, c', hs, w, s) {
      assert SlabAt(g, id, c, hs, w, s);
    }
  }

  lemma AddedSlab(g: Geometry, id: int, c: Cache, hs: map<int, Header>, w: map<int, int>, w': map<int, int>)
    requires Inv(g, c) && SlabsOk(g, id, c, hs, w)
    requires Threaded(w', Built(g, c.next, g.count))
    requires forall o :: o in w && ObjToSlab(o) != c.next ==> o in w' && w'[o] == w[o]
    ensures SlabsOk(g, id, AddSlab(g, c), hs[c.next := Header(id, FirstOf(Built(g, c.next, g.count)), 0)], w')
  {
    var s, c' := c.next, AddSlab(g, c);
    var hs' := hs[s := Header(id, FirstOf(Built(g, s, g.count)), 0)];
    BuiltFacts(g, s, g.count);
    assert c'.chains - {s} == c.chains - {s} && hs' - {s} == hs - {s};
    assert forall x :: c'.Has(x) ==> c.Has(x) || x == s;
    OtherSlabs(g, id, c, hs, w, c', hs', w', s);
  }

  lemma {:induction false} NotYetBuilt(g: Geometry, virt: int, n: nat)
    requires 0 < g.align && 0 < g.size && n <= g.count
    ensures Object(g, virt, n) !in Built(g, virt, n)
    ensures Built(g, virt, n + 1) == [Object(g, virt, n)] + Built(g, virt, n)
  {
    BuiltFacts(g, virt, n);
    forall k | 0 <= k < n ensures Built(g, virt, n)[k] != Object(g, virt, n) {
      ObjectsDisjoint(g, virt, n - 1 - k, n);
    }
  }

  /** The three INIT_LIST_HEAD calls of kmem_cache_create. */
  method InitRings(lists: L.ListStore, id: int)
    modifies lists
    ensures Rings(lists.links, id, [], [], [])
  {
    lists.InitListHead(id + FULL);
    L.InitRing(old(lists.links), id + FULL);
    ghost var k1 := lists.links;
    lists.InitListHead(id + PARTIAL);
    L.InitRing(k1, id + PARTIAL);
    ghost var k2 := lists.links;
    lists.InitListHead(id + FREE);
    L.InitRing(k2, id + FREE);
    assert Nodes([]) == [];
    L.RingFrame(k1, k2, id + FULL, []);
    L.RingFrame(k2, lists.links, id + FULL, []);
    L.RingFrame(k2, lists.links, id + PARTIAL, []);
  }

  lemma EmptySound(g: Geometry, id: int, hs: map<int, Header>, w: map<int, int>)
    requires GeometryOk(g)
    ensures Inv(g, Empty()) && SlabsOk(g, id, Empty(), hs, w) && SlabSet(Empty()) == {}
  {
    assert forall s :: !Empty().Has(s);
    assert forall s :: s !in SlabSet(Empty());
  }

  // ---------------------------------------------------------------- the slabs of a cache, as a set

  ghost function SlabSet(c: Cache): (r: set<int>)
    ensures forall s {:trigger s in r} :: s in r <==> c.Has(s)
  {
    (set s | s in c.full) + (set s | s in c.partial) + (set s | s in c.free)
  }

  /** The pages of a set of slabs. */
  ghost function PagesOf(slabs: set<int>): set<int> {
    set s | s in slabs :: s / PAGE
  }

  ghost function PagesIn(slabs: seq<int>): set<int> {
    set s | s in slabs :: s / PAGE
  }

  /** A slab is a page. */
  ghost predicate OnPages(c: Cache) {
    forall s :: c.Has(s) ==> 0 <= s && s % PAGE == 0
  }

  lemma SlabsAligned(g: Geometry, c: Cache)
    requires Inv(g, c)
    ensures OnPages(c) && Unique(c.free)
  {}

  lemma BelowWindow(s: int)
    requires s % PAGE == 0 && s / PAGE < V.WINDOW / PAGE
    ensures s < V.WINDOW
  {}

  lemma PageOfSlab(s: int, t: int)
    requires s % PAGE == 0 && t % PAGE == 0 && s / PAGE == t / PAGE
    ensures s == t
  {}

  /** The page of a new slab, seen from the pages the slabs have. */
  method MapOwned(vmm: V.AddressSpace, virt: int, ghost page: nat, ghost pages: set<int>) returns (a: Attempt)
    requires vmm.Valid() && 0 <= virt && virt + PAGE <= V.WINDOW && virt / PAGE == page < V.WINDOW / PAGE
    requires Holds(vmm.mem, vmm.dir, Pmm.FreeSet(vmm.pmm.taken), vmm.pmm.total, pages)
    requires forall p :: p in pages ==> !(page <= p < page + 1)
    modifies vmm`mem, vmm.pmm`freePages, vmm.pmm`usedPages, vmm.pmm`taken, vmm.pmm.bits
    ensures vmm.Valid()
    ensures a == AttemptOf(old(vmm.mem), vmm.dir, old(Pmm.FreeSet(vmm.pmm.taken)), page, vmm.paging)
    ensures a != NewSlab ==>
              vmm.mem == old(vmm.mem) && Pmm.FreeSet(vmm.pmm.taken) == old(Pmm.FreeSet(vmm.pmm.taken))
    ensures a == NewSlab ==> SlabMapped(old(vmm.mem), vmm.mem, vmm.dir, old(Pmm.FreeSet(vmm.pmm.taken)),
                                        Pmm.FreeSet(vmm.pmm.taken), vmm.pmm.total, virt)
    ensures Holds(vmm.mem, vmm.dir, Pmm.FreeSet(vmm.pmm.taken), vmm.pmm.total,
                  if a == NewSlab then pages + Range(page, page + 1) else pages)
  {
    ghost var m, free := vmm.mem, Pmm.FreeSet(vmm.pmm.taken);
    a := MapSlab(vmm, virt, page);
    if a == NewSlab {
      GrewHolds(m, vmm.mem, vmm.dir, free, Pmm.FreeSet(vmm.pmm.taken), vmm.pmm.total, page, page + 1, pages);
    }
  }

  /** What a new slab does to frames and translations. */
  ghost predicate SlabMapped(m: V.Memory, m': V.Memory, dir: nat, free: set<int>, free': set<int>, total: int,
                             virt: int)
    requires V.WellFormed(m) && V.WellFormed(m') && dir < V.FRAMES && 0 <= virt && virt + PAGE <= V.WINDOW
  {
    && V.FramesMoved(m, m', dir, free, free', 1)
    && Grew(m, m', dir, free, free', total, virt / PAGE, virt / PAGE + 1)
  }

  /** The next slab gets a page that no slab has. */
  lemma NextPage(g: Geometry, c: Cache)
    requires Inv(g, c) && c.next + PAGE <= V.WINDOW
    ensures 0 <= c.next < V.WINDOW && c.next / PAGE < V.WINDOW / PAGE
    ensures forall p :: p in PagesOf(SlabSet(c)) ==> !(c.next / PAGE <= p < c.next / PAGE + 1)
  {
    forall p | p in PagesOf(SlabSet(c)) ensures p != c.next / PAGE {
      var s :| c.Has(s) && s / PAGE == p;
      assert s % PAGE == 0 && s < c.next;
    }
  }

  /** The next slab to be released still has its page. */
  lemma RestPage(c: Cache, released: seq<int>, rest: seq<int>, all: set<int>)
    requires released + rest == c.free && rest != [] && OnPages(c) && Unique(c.free) && PagesOf(SlabSet(c)) <= all
    ensures rest[0] % PAGE == 0 && 0 <= rest[0] && rest[0] / PAGE in all - PagesIn(released)
    ensures PagesIn(released + [rest[0]]) == PagesIn(released) + {rest[0] / PAGE}
    ensures all - PagesIn(released + [rest[0]]) == (all - PagesIn(released)) - {rest[0] / PAGE}
  {
    var s, n := rest[0], |released|;
    assert c.free[n] == s && c.Has(s);
    assert s in SlabSet(c);
    assert forall t :: t in released + [s] <==> t in released || t == s;
    forall t | t in released ensures t / PAGE != s / PAGE {
      var i :| 0 <= i < n && released[i] == t;
      assert c.free[i] == t && c.Has(t);
      if t / PAGE == s / PAGE {
        PageOfSlab(s, t);
      }
    }
    PagesMore(released, s);
  }

  lemma PagesMore(slabs: seq<int>, s: int)
    ensures PagesIn(slabs + [s]) == PagesIn(slabs) + {s / PAGE}
  {
    forall p | p in PagesIn(slabs) + {s / PAGE} ensures p in PagesIn(slabs + [s]) {
      if p in PagesIn(slabs) {
        var t :| t in slabs && t / PAGE == p;
        assert t in slabs + [s];
      } else {
        assert s in slabs + [s];
      }
    }
  }

  /** The slabs that stay are on pages that stay. */
  lemma ShrunkPages(c: Cache, all: set<int>)
    requires OnPages(c) && PagesOf(SlabSet(c)) <= all && SlabCache.Apart(c.full, c.free)
    requires SlabCache.Apart(c.partial, c.free)
    ensures PagesOf(SlabSet(Shrink(c))) <= all - PagesIn(c.free)
  {
    forall p | p in PagesOf(SlabSet(Shrink(c))) ensures p in all && p !in PagesIn(c.free) {
      var s :| s in SlabSet(Shrink(c)) && s / PAGE == p;
      assert Shrink(c).full == c.full && Shrink(c).partial == c.partial && Shrink(c).free == [];
      assert s in c.full || s in c.partial;
      assert s in SlabSet(c);
      forall t | t in c.free ensures t / PAGE != p {
        assert c.Has(t);
        if t / PAGE == p {
          PageOfSlab(s, t);
        }
      }
    }
  }

  /** The cache after an attempt to get a new slab. */
  function AfterAttempt(g: Geometry, c: Cache, a: Attempt): Cache
    requires 0 < g.align && 0 <= g.count
  {
    match a
    case NoFrame => c
    case NoMapping => c.(next := c.next + PAGE)
    case NewSlab => AddSlab(g, c)
  }

  lemma AttemptSlabs(g: Geometry, c: Cache, a: Attempt)
    requires 0 < g.align && 0 <= g.count
    ensures PagesOf(SlabSet(AfterAttempt(g, c, a))) ==
            if a == NewSlab then PagesOf(SlabSet(c)) + Range(c.next / PAGE, c.next / PAGE + 1) else PagesOf(SlabSet(c))
  {
    var n := SlabSet(AfterAttempt(g, c, a));
    if a == NewSlab {
      assert n == SlabSet(c) + {c.next};
    } else {
      assert n == SlabSet(c);
    }
  }

  lemma PoppedSet(c: Cache, fromPartial: bool)
    requires if fromPartial then c.partial != [] && c.partial[0] in c.chains && c.chains[c.partial[0]] != []
             else c.free != [] && c.free[0] in c.chains && c.chains[c.free[0]] != []
    ensures SlabSet(Popped(c, fromPartial)) == SlabSet(c)
  {
    var ns := if fromPartial then c.partial else c.free;
    var c' := Popped(c, fromPartial);
    forall s ensures s in ns <==> s == ns[0] || s in L.Without(ns, 0) {
      assert L.Without(ns, 0) == ns[1..];
      assert ns == [ns[0]] + ns[1..];
    }
    assert forall s :: c'.Has(s) <==> c.Has(s);
  }

  lemma FreedSet(g: Geometry, c: Cache, obj: int)
    requires Inv(g, c) && IsLive(g, c, obj)
    ensures SlabSet(FreeObject(g, c, obj)) == SlabSet(c)
  {
    var s, c' := ObjToSlab(obj), FreeObject(g, c, obj);
    RemoveFacts(c.full, s);
    RemoveFacts(c.partial, s);
    RemoveFacts(c.free, s);
    assert forall x :: c'.Has(x) <==> c.Has(x);
  }

  /** What is left of the free list, while its slabs are released. */
  ghost predicate Releasable(id: int, c: Cache, rest: seq<int>) {
    && Above(id, c.full) && Above(id, c.partial) && Above(id, rest) && Unique(rest)
    && SlabCache.Apart(c.full, c.partial) && SlabCache.Apart(c.full, rest) && SlabCache.Apart(c.partial, rest)
  }

  ghost function RestSeal(k: L.Links, id: int, c: Cache, rest: seq<int>): Seal {
    if forall i {:trigger Open(TheList, i)} :: Open(TheList, i) ==>
      Rings(k, id, c.full, c.partial, rest) && Releasable(id, c, rest)
    then Intact else Broken
  }

  lemma RestDone(k: L.Links, id: int, c: Cache)
    requires RestSeal(k, id, c, []).Intact?
    ensures Rings(k, id, c.full, c.partial, [])
  {
    assert Open(TheList, 0);
  }

  /** One slab less on the free list. */
  lemma ShrinkStep(id: int, c: Cache, rest: seq<int>)
    requires rest != [] && Releasable(id, c, rest)
    ensures Releasable(id, c, rest[1..]) && rest[0] !in c.full && rest[0] !in c.partial
  {
    assert rest[0] in rest;
    forall s | s in rest[1..] ensures s in rest {}
  }
}
