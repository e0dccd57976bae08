/** The linked list of vm_area_structs in src/mm/vma.c, by address: a store of nodes, the head
    pointer mm->mmap and map_count. 0 stands for NULL. */
module Vma {
  import opened Kernel
  import opened VmaList
  import opened Owners
  import Lists
  import V = Vmm
  import Pmm
  import P = VmaMap

  datatype Node = Node(area: Area, next: int)

  // ---------------------------------------------------------------- sequences

  function With<T>(s: seq<T>, i: nat, x: T): seq<T>
    requires i <= |s|
  {
    seq(|s| + 1, j requires 0 <= j < |s| + 1 => if j < i then s[j] else if j == i then x else s[j - 1])
  }

  lemma WithIs<T>(s: seq<T>, i: nat, x: T)
    requires i <= |s|
    ensures With(s, i, x) == s[..i] + [x] + s[i..]
  {}

  lemma WithoutIs<T>(s: seq<T>, i: nat)
    requires i < |s|
    ensures Lists.Without(s, i) == s[..i] + s[i + 1..]
  {}

  // ---------------------------------------------------------------- lists in memory

  function PtrAt(ps: seq<int>, i: int): int {
    if 0 <= i < |ps| then ps[i] else 0
  }

  /** Node i, if there is one, holds area i and links to node i + 1. */
  ghost predicate NodeAt(st: map<int, Node>, ps: seq<int>, s: Areas, i: nat) {
    i < |ps| == |s| ==> ps[i] in st && st[ps[i]] == Node(s[i], PtrAt(ps, i + 1)) && ps[i] != 0
  }

  ghost predicate Linked(st: map<int, Node>, ps: seq<int>, s: Areas) {
    && |ps| == |s|
    && (forall i {:trigger NodeAt(st, ps, s, i)} :: 0 <= i < |ps| ==> NodeAt(st, ps, s, i))
    && (forall i, j :: 0 <= i < j < |ps| ==> ps[i] != ps[j])
  }

  /** A node linked in after node i - 1. */
  lemma LinkAfter(st: map<int, Node>, ps: seq<int>, s: Areas, i: nat, p: int, a: Area)
    requires Linked(st, ps, s) && 0 < i <= |ps| && p != 0 && p !in ps
    ensures ps[i - 1] in st && st[ps[i - 1]].next == PtrAt(ps, i)
    ensures var prev := ps[i - 1];
            Linked(st[p := Node(a, st[prev].next)][prev := st[prev].(next := p)], With(ps, i, p), With(s, i, a))
  {
    var prev := ps[i - 1];
    assert NodeAt(st, ps, s, i - 1);
    var st' := st[p := Node(a, st[prev].next)][prev := st[prev].(next := p)];
    var ps', s' := With(ps, i, p), With(s, i, a);
    forall j | 0 <= j < |ps'| ensures NodeAt(st', ps', s', j) {
      if j < i {
        assert NodeAt(st, ps, s, j);
      } else if i < j {
        assert NodeAt(st, ps, s, j - 1);
      }
    }
  }

  /** A node linked in before all others. */
  lemma LinkHead(st: map<int, Node>, ps: seq<int>, s: Areas, p: int, a: Area)
    requires Linked(st, ps, s) && p != 0 && p !in ps
    ensures Linked(st[p := Node(a, PtrAt(ps, 0))], With(ps, 0, p), With(s, 0, a))
  {
    var st', ps', s' := st[p := Node(a, PtrAt(ps, 0))], With(ps, 0, p), With(s, 0, a);
    forall j | 0 <= j < |ps'| ensures NodeAt(st', ps', s', j) {
      if 0 < j {
        assert NodeAt(st, ps, s, j - 1);
      }
    }
  }

  /** Changing the area of node i in place. */
  lemma SetArea(st: map<int, Node>, ps: seq<int>, s: Areas, i: nat, a: Area)
    requires Linked(st, ps, s) && i < |ps|
    ensures ps[i] in st && Linked(st[ps[i] := st[ps[i]].(area := a)], ps, s[i := a])
  {
    assert NodeAt(st, ps, s, i);
    var st', s' := st[ps[i] := st[ps[i]].(area := a)], s[i := a];
    forall j | 0 <= j < |ps| ensures NodeAt(st', ps, s', j) {
      assert NodeAt(st, ps, s, j);
      assert j != i ==> ps[j] != ps[i];
    }
  }

  /** Node i unlinked from node i - 1 and freed. */
  lemma UnlinkAfter(st: map<int, Node>, ps: seq<int>, s: Areas, i: nat)
    requires Linked(st, ps, s) && 0 < i < |ps|
    ensures ps[i - 1] in st && ps[i] in st
    ensures Linked(st[ps[i - 1] := st[ps[i - 1]].(next := st[ps[i]].next)] - {ps[i]}, Lists.Without(ps, i),
                   Lists.Without(s, i))
  {
    assert NodeAt(st, ps, s, i - 1) && NodeAt(st, ps, s, i);
    var st' := st[ps[i - 1] := st[ps[i - 1]].(next := st[ps[i]].next)] - {ps[i]};
    var ps', s' := Lists.Without(ps, i), Lists.Without(s, i);
    forall j | 0 <= j < |ps'| ensures NodeAt(st', ps', s', j) {
      var k := if j < i then j else j + 1;
      assert NodeAt(st, ps, s, k) && ps[k] != ps[i] && (k != i - 1 ==> ps[k] != ps[i - 1]);
    }
  }

  /** Everything up to node i dropped from the front and node i freed. */
  lemma DropThrough(st: map<int, Node>, ps: seq<int>, s: Areas, i: nat)
    requires Linked(st, ps, s) && i < |ps|
    ensures ps[i] in st && st[ps[i]].next == PtrAt(ps[i + 1..], 0)
    ensures Linked(st - {ps[i]}, ps[i + 1..], s[i + 1..])
  {
    assert NodeAt(st, ps, s, i);
    var st', ps', s' := st - {ps[i]}, ps[i + 1..], s[i + 1..];
    forall j | 0 <= j < |ps'| ensures NodeAt(st', ps', s', j) {
      assert NodeAt(st, ps, s, j + i + 1);
      assert ps'[j] == ps[j + i + 1] && s'[j] == s[j + i + 1];
    }
  }

  // ---------------------------------------------------------------- the invariant

  ghost function ListSeal(mmap: int, st: map<int, Node>, ps: seq<int>, s: Areas): Seal {
    if forall k {:trigger Open(TheList, k)} :: Open(TheList, k) ==> mmap == PtrAt(ps, 0) && Linked(st, ps, s)
    then Intact else Broken
  }

  /** What a walk of the list finds at position i. */
  lemma ListAt(mmap: int, st: map<int, Node>, ps: seq<int>, s: Areas, i: nat)
    requires ListSeal(mmap, st, ps, s).Intact? && i <= |ps|
    ensures |ps| == |s| && mmap == PtrAt(ps, 0)
    ensures PtrAt(ps, i) == 0 <==> i == |ps|
    ensures NodeAt(st, ps, s, i)
  {
    assert Open(TheList, 0);
    assert i < |ps| ==> NodeAt(st, ps, s, i);
  }

  lemma HeadSealed(mmap: int, st: map<int, Node>, ps: seq<int>, s: Areas, p: int, a: Area)
    requires ListSeal(mmap, st, ps, s).Intact? && p != 0 && p !in ps
    ensures ListSeal(p, st[p := Node(a, mmap)], With(ps, 0, p), With(s, 0, a)).Intact?
  {
    assert Open(TheList, 0);
    LinkHead(st, ps, s, p, a);
  }

  lemma AfterSealed(mmap: int, st: map<int, Node>, ps: seq<int>, s: Areas, i: nat, p: int, a: Area)
    requires ListSeal(mmap, st, ps, s).Intact? && 0 < i <= |ps| && p != 0 && p !in ps
    ensures ps[i - 1] in st
    ensures var prev := ps[i - 1];
            && i <= |s|
            && ListSeal(mmap, st[p := Node(a, st[prev].next)][prev := st[prev].(next := p)],
                        With(ps, i, p), With(s, i, a)).Intact?
  {
    assert Open(TheList, 0);
    LinkAfter(st, ps, s, i, p, a);
  }

  /** split_vma_at in one step. */
  lemma SplitSealed(mmap: int, st: map<int, Node>, ps: seq<int>, s: Areas, i: nat, addr: int, up: int)
    requires ListSeal(mmap, st, ps, s).Intact? && i < |ps| == |s| && ps[i] in st && st[ps[i]].area == s[i] && up != 0
    requires up !in st
    ensures var p, a := ps[i], s[i];
            var st1 := st[p := st[p].(area := Lower(a, addr))];
            var st2 := st1[up := Node(Upper(a, addr), st1[p].next)];
            p in st2 && ListSeal(mmap, st2[p := st2[p].(next := up)], With(ps, i + 1, up), SplitAt(s, i, addr)).Intact?
  {
    assert Open(TheList, 0);
    var p, a := ps[i], s[i];
    NewNode(st, ps, s, up);
    SetArea(st, ps, s, i, Lower(a, addr));
    LinkAfter(st[p := st[p].(area := Lower(a, addr))], ps, s[i := Lower(a, addr)], i + 1, up, Upper(a, addr));
    SplitIsWith(s, i, addr);
  }

  lemma UnlinkSealed(mmap: int, st: map<int, Node>, ps: seq<int>, s: Areas, i: nat)
    requires ListSeal(mmap, st, ps, s).Intact? && 0 < i < |ps| == |s|
    ensures ps[i - 1] in st && ps[i] in st
    ensures ListSeal(mmap, st[ps[i - 1] := st[ps[i - 1]].(next := st[ps[i]].next)] - {ps[i]},
                     Lists.Without(ps, i), Lists.Without(s, i)).Intact?
  {
    assert Open(TheList, 0);
    UnlinkAfter(st, ps, s, i);
  }

  lemma DropSealed(mmap: int, st: map<int, Node>, ps: seq<int>, s: Areas, i: nat)
    requires ListSeal(mmap, st, ps, s).Intact? && i < |ps| == |s|
    ensures ps[i] in st && ListSeal(st[ps[i]].next, st - {ps[i]}, ps[i + 1..], s[i + 1..]).Intact?
  {
    assert Open(TheList, 0);
    DropThrough(st, ps, s, i);
  }

  /** Nodes outside the list come and go. */
  lemma OutsideSealed(mmap: int, st: map<int, Node>, ps: seq<int>, s: Areas, p: int, n: Node)
    requires ListSeal(mmap, st, ps, s).Intact?
    ensures p !in st ==> p !in ps
    ensures p !in ps ==> ListSeal(mmap, st[p := n], ps, s).Intact? && ListSeal(mmap, st - {p}, ps, s).Intact?
  {
    assert Open(TheList, 0);
    if p !in st {
      NewNode(st, ps, s, p);
    }
    if p !in ps {
      FreshStore(st, ps, s, p, n);
      DropNode(st, ps, s, p);
    }
  }

  /** A node is at one place only. */
  lemma SamePlace(mmap: int, st: map<int, Node>, ps: seq<int>, s: Areas, i: nat, j: nat)
    requires ListSeal(mmap, st, ps, s).Intact? && i < |ps| && j < |ps| && ps[i] == ps[j]
    ensures i == j
  {
    assert Open(TheList, 0);
  }

  /** The first node taken off the list and kept aside. */
  lemma HeadAside(mmap: int, st: map<int, Node>, ps: seq<int>, s: Areas, n: Node)
    requires ListSeal(mmap, st, ps, s).Intact? && 0 < |ps| == |s|
    ensures ps[0] in st && ps[0] !in Lists.Without(ps, 0)
    ensures ListSeal(st[ps[0]].next, st[ps[0] := n], Lists.Without(ps, 0), Lists.Without(s, 0)).Intact?
  {
    var p := ps[0];
    DropSealed(mmap, st, ps, s, 0);
    OutsideSealed(st[p].next, st - {p}, ps[1..], s[1..], p, n);
    assert (st - {p})[p := n] == st[p := n];
    assert Lists.Without(ps, 0) == ps[1..] && Lists.Without(s, 0) == s[1..];
  }

  /** Another node taken off the list and kept aside. */
  lemma NodeAside(mmap: int, st: map<int, Node>, ps: seq<int>, s: Areas, i: nat, n: Node)
    requires ListSeal(mmap, st, ps, s).Intact? && 0 < i < |ps| == |s|
    ensures ps[i - 1] in st && ps[i] in st && ps[i] !in Lists.Without(ps, i)
    ensures ListSeal(mmap, st[ps[i - 1] := st[ps[i - 1]].(next := st[ps[i]].next)][ps[i] := n],
                     Lists.Without(ps, i), Lists.Without(s, i)).Intact?
  {
    UnlinkSealed(mmap, st, ps, s, i);
    var st' := st[ps[i - 1] := st[ps[i - 1]].(next := st[ps[i]].next)];
    OutsideSealed(mmap, st' - {ps[i]}, Lists.Without(ps, i), Lists.Without(s, i), ps[i], n);
    assert (st' - {ps[i]})[ps[i] := n] == st'[ps[i] := n];
  }

  lemma WithoutWith<T>(s: seq<T>, i: nat, x: T)
    requires i <= |s|
    ensures Lists.Without(With(s, i, x), i) == s
  {}

  // ---------------------------------------------------------------- the code

  /** VM_MAP_IMMEDIATE, bit 16 of the flags. */
  const IMMEDIATE := 0x1_0000

  predicate Immediate(flags: nat) {
    flags / IMMEDIATE % 2 == 1
  }

  /** vma_pages. */
  function PagesIn(a: Area): nat
    requires Aligned(a)
  {
    (a.end - a.start) / PAGE
  }

  class Mm {
    const vmm: V.AddressSpace
    var mmap: int
    var mapCount: int
    var store: map<int, Node>
    ghost var ptrs: seq<int>
    ghost var areas: Areas

    /** mm_create. */
    constructor (vmm: V.AddressSpace)
      ensures this.vmm == vmm && Valid() && areas == []
    {
      this.vmm := vmm;
      mmap, mapCount, store := 0, 0, map[];
      ptrs, areas := [], [];
    }

    /** The list from mm->mmap holds exactly the areas. */
    ghost predicate Listed()
      reads this
    {
      |ptrs| == |areas| && ListSeal(mmap, store, ptrs, areas).Intact?
    }

    ghost predicate Valid()
      reads this
    {
      Listed() && Sorted(areas) && mapCount == |areas|
    }

    /** What kmalloc answers to vm_area_alloc: NULL, or an address no node uses. */
    ghost predicate Answers(node: int)
      reads this
    {
      node == 0 || node !in store
    }

    /** The list reaches its end exactly at NULL, and node i is what it should be. */
    lemma Here(i: nat)
      requires Listed() && i <= |ptrs|
      ensures mmap == PtrAt(ptrs, 0) && (PtrAt(ptrs, i) == 0 <==> i == |ptrs|)
      ensures NodeAt(store, ptrs, areas, i)
    {
      ListAt(mmap, store, ptrs, areas, i);
    }

    /** find_vma. */
    method FindVma(addr: int) returns (r: int)
      requires Listed()
      ensures r == PtrAt(ptrs, VmaList.FindVma(areas, addr))
    {
      var v := mmap;
      ghost var i := 0;
      Here(0);
      while v != 0
        invariant i <= |ptrs| && v == PtrAt(ptrs, i) && NodeAt(store, ptrs, areas, i) && (v != 0 <==> i < |ptrs|)
        invariant forall j :: 0 <= j < i ==> areas[j].end <= addr
        decreases |ptrs| - i
      {
        if store[v].area.end > addr {
          assert i == VmaList.FindVma(areas, addr);
          return v;
        }
        v := store[v].next;
        i := i + 1;
        Here(i);
      }
      assert i == VmaList.FindVma(areas, addr);
      r := 0;
    }

    /** find_vma_prev: the first area that ends after addr, and the one before it. */
    method FindVmaPrev(addr: int) returns (r: int, prev: int)
      requires Listed()
      ensures r == PtrAt(ptrs, VmaList.FindVma(areas, addr))
      ensures prev == PtrAt(ptrs, VmaList.FindVma(areas, addr) - 1)
    {
      prev := 0;
      var v := mmap;
      ghost var i := 0;
      Here(0);
      while v != 0
        invariant i <= |ptrs| && v == PtrAt(ptrs, i) && NodeAt(store, ptrs, areas, i) && (v != 0 <==> i < |ptrs|)
        invariant prev == PtrAt(ptrs, i - 1)
        invariant forall j :: 0 <= j < i ==> areas[j].end <= addr
        decreases |ptrs| - i
      {
        if store[v].area.end > addr {
          assert i == VmaList.FindVma(areas, addr);
          return v, prev;
        }
        prev := v;
        v := store[v].next;
        i := i + 1;
        Here(i);
      }
      assert i == VmaList.FindVma(areas, addr);
      r := 0;
    }

    /** insert_vm_struct. It succeeds exactly for a proper interval that overlaps nothing and does not
        go before the head of a non-empty list; there it links the area and still answers -1. */
    method InsertVm(p: int) returns (rc: int)
      requires Listed() && Sorted(areas) && p in store && p != 0 && p !in ptrs
      modifies this`mmap, this`mapCount, this`store, this`ptrs, this`areas
      ensures Listed() && (rc == 0 || rc == -1)
      ensures var v := old(store)[p].area;
              rc == 0 <==> v.start < v.end && !Overlaps(old(areas), v) && !BeforeHead(old(areas), v)
      ensures rc == 0 ==> areas == Inserted(old(areas), old(store)[p].area) && mapCount == old(mapCount) + 1
      ensures rc == 0 ==> ptrs == With(old(ptrs), InsertPos(old(areas), old(store)[p].area.start), p)
      ensures rc != 0 ==> mapCount == old(mapCount)
      ensures var v := old(store)[p].area;
              rc != 0 && !(v.start < v.end && BeforeHead(old(areas), v) && !Overlaps(old(areas), v)) ==>
                mmap == old(mmap) && store == old(store) && ptrs == old(ptrs) && areas == old(areas)
      ensures var v := old(store)[p].area;
              rc != 0 && v.start < v.end && BeforeHead(old(areas), v) && !Overlaps(old(areas), v) ==>
                mmap == p && areas == [v] + old(areas)
      ensures p in store && store[p].area == old(store)[p].area
    {
      var v := store[p].area;
      if v.start >= v.end {
        return -1;
      }
      Here(0);
      if mmap == 0 {
        assert With(areas, 0, v) == Inserted(areas, v);
        InsertHead(p);
        mapCount := mapCount + 1;
        return 0;
      }
      NeighboursSuffice(areas, v);
      var cur, prev;
      ghost var i;
      cur, prev, i := FindSlot(v.start);
      if prev != 0 && store[prev].area.end > v.start {
        return -1;
      }
      if cur != 0 && v.end > store[cur].area.start {
        return -1;
      }
      if prev == 0 {
        WithIs(areas, 0, v);
        InsertHead(p);
        if v.end > store[mmap].area.start {
          return -1;
        }
        rc := 0;
      } else {
        WithIs(areas, i, v);
        InsertAfter(prev, p, i);
        mapCount := mapCount + 1;
        rc := 0;
      }
    }

    /** The node is linked in front of the list. */
    method InsertHead(p: int)
      requires Listed() && p in store && p != 0 && p !in ptrs
      modifies this`mmap, this`store, this`ptrs, this`areas
      ensures Listed() && mmap == p && areas == With(old(areas), 0, old(store)[p].area) && ptrs == With(old(ptrs), 0, p)
      ensures p in store && store[p].area == old(store)[p].area
    {
      HeadSealed(mmap, store, ptrs, areas, p, store[p].area);
      ptrs, areas := With(ptrs, 0, p), With(areas, 0, store[p].area);
      store := store[p := Node(store[p].area, mmap)];
      mmap := p;
    }

    /** The node is linked in behind node i - 1. */
    method InsertAfter(prev: int, p: int, ghost i: nat)
      requires Listed() && p in store && p != 0 && p !in ptrs && 0 < i <= |ptrs| && prev == ptrs[i - 1] && prev in store
      modifies this`store, this`ptrs, this`areas
      ensures Listed() && areas == With(old(areas), i, old(store)[p].area) && ptrs == With(old(ptrs), i, p)
      ensures p in store && store[p].area == old(store)[p].area
    {
      AfterSealed(mmap, store, ptrs, areas, i, p, store[p].area);
      ptrs, areas := With(ptrs, i, p), With(areas, i, store[p].area);
      store := store[p := Node(store[p].area, store[prev].next)];
      store := store[prev := store[prev].(next := p)];
    }

    /** The search loop of insert_vm_struct: the neighbours of the place where an area from `start` belongs. */
    method FindSlot(start: int) returns (cur: int, prev: int, ghost i: nat)
      requires Listed()
      ensures i == InsertPos(areas, start)
      ensures cur == PtrAt(ptrs, i) && NodeAt(store, ptrs, areas, i) && (cur != 0 <==> i < |ptrs|)
      ensures prev == PtrAt(ptrs, i - 1) && (prev != 0 <==> 0 < i)
      ensures prev != 0 ==> prev in store && store[prev].area == areas[i - 1]
    {
      cur, prev, i := mmap, 0, 0;
      Here(0);
      while cur != 0 && store[cur].area.start < start
        invariant i <= |ptrs| && cur == PtrAt(ptrs, i) && NodeAt(store, ptrs, areas, i) && (cur != 0 <==> i < |ptrs|)
        invariant prev == PtrAt(ptrs, i - 1) && (prev != 0 <==> 0 < i)
        invariant prev != 0 ==> prev in store && store[prev].area == areas[i - 1]
        invariant forall j :: 0 <= j < i ==> areas[j].start < start
        decreases |ptrs| - i
      {
        prev := cur;
        cur := store[cur].next;
        i := i + 1;
        Here(i);
      }
    }

    /** unmapped_area. It answers the lowest place, or 0 for none, exactly when there is a place or some
        candidate reaches the end of the window before the addition wraps at 2^32. */
    method UnmappedArea(len: nat) returns (r: int)
      requires Listed() && Sorted(areas) && forall i :: 0 <= i < |areas| ==> areas[i].end <= SEARCH_END
      requires len + PAGE - 1 < TWO32
      ensures len == 0 ==> r == 0
      ensures len != 0 ==> Answer(areas, AlignUp(len, PAGE), r)
    {
      if len == 0 {
        return 0;
      }
      var need := AlignUp(len, PAGE);
      NeedFits(len);
      r := SearchGap(need);
    }

    /** The search of unmapped_area for a rounded length. */
    method SearchGap(need: int) returns (r: int)
      requires Listed() && Sorted(areas) && forall i :: 0 <= i < |areas| ==> areas[i].end <= SEARCH_END
      requires 0 < need <= TWO32 - PAGE
      ensures Answer(areas, need, r)
    {
      var v := mmap;
      var addr := SEARCH_START;
      Here(0);
      if v == 0 {
        SearchEnds(areas, addr, need);
        if Wrap32(addr + need) < SEARCH_END {
          return addr;
        }
        return 0;
      }
      ghost var i := 0;
      while v != 0
        invariant i <= |ptrs| && v == PtrAt(ptrs, i) && NodeAt(store, ptrs, areas, i) && (v != 0 <==> i < |ptrs|)
        invariant Searched(areas, i, addr, need) && addr <= SEARCH_END && addr % PAGE == 0
        decreases |ptrs| - i
      {
        var a := store[v].area;
        assert Aligned(areas[i]);
        if a.start > addr {
          if a.start - addr >= need {
            SearchFound(areas, i, addr, need);
            return addr;
          }
        }
        ghost var before := addr;
        if a.end > addr {
          addr := AlignUp(a.end, PAGE);
        }
        CandidateIs(areas, i, before, need);
        WrapAt(addr, need);
        if Wrap32(addr + need) >= SEARCH_END {
          SearchFails(areas, i, before, need);
          return 0;
        }
        SearchNext(areas, i, before, need);
        v := store[v].next;
        i := i + 1;
        Here(i);
      }
      SearchEnds(areas, addr, need);
      if Wrap32(addr + need) < SEARCH_END {
        return addr;
      }
      r := 0;
    }

    /** split_vma_at; `node` is what kmalloc answers. 0 exactly when addr is not strictly inside the area
        or no node can be had. */
    method SplitVma(p: int, addr: int, node: int, ghost i: nat) returns (up: int)
      requires Listed() && i < |ptrs| && ptrs[i] == p && Answers(node)
      modifies this`mapCount, this`store, this`ptrs, this`areas
      ensures Listed()
      ensures up == if old(areas)[i].start < addr < old(areas)[i].end then node else 0
      ensures up == 0 ==> unchanged(this)
      ensures up != 0 ==> areas == SplitAt(old(areas), i, addr) && ptrs == With(old(ptrs), i + 1, up)
      ensures up != 0 ==> mapCount == old(mapCount) + 1 && store.Keys == old(store).Keys + {up}
    {
      Here(i);
      var a := store[p].area;
      if addr <= a.start || addr >= a.end {
        return 0;
      }
      up := node;
      if up == 0 {
        return;
      }
      SplitSealed(mmap, store, ptrs, areas, i, addr, up);
      store := store[p := store[p].(area := Lower(a, addr))];
      store := store[up := Node(Upper(a, addr), store[p].next)];
      store := store[p := store[p].(next := up)];
      mapCount := mapCount + 1;
      ptrs, areas := With(ptrs, i + 1, up), SplitAt(areas, i, addr);
    }

    /** The unlinking and freeing of one node in munmap_range. Without a predecessor at hand, the
        successor becomes the head, wherever the node was. */
    method RemoveNode(prev: int, v: int, ghost i: nat)
      requires Listed() && i < |ptrs| && ptrs[i] == v
      requires prev != 0 ==> 0 < i && prev == ptrs[i - 1]
      modifies this`mmap, this`mapCount, this`store, this`ptrs, this`areas
      ensures Listed() && mapCount == old(mapCount) - 1 && store.Keys <= old(store).Keys
      ensures prev != 0 ==> ptrs == Lists.Without(old(ptrs), i) && areas == Lists.Without(old(areas), i)
      ensures prev == 0 ==> ptrs == old(ptrs)[i + 1..] && areas == old(areas)[i + 1..]
    {
      Here(i);
      var next := store[v].next;
      if prev != 0 {
        UnlinkSealed(mmap, store, ptrs, areas, i);
        store := store[prev := store[prev].(next := next)];
        ptrs, areas := Lists.Without(ptrs, i), Lists.Without(areas, i);
      } else {
        DropSealed(mmap, store, ptrs, areas, i);
        mmap := next;
        ptrs, areas := ptrs[i + 1..], areas[i + 1..];
      }
      mapCount := mapCount - 1;
      store := store - {v};
    }

    /** The vmm_unmap_page calls for one area; `pages` are the pages they name. */
    method UnmapPages(a: Area) returns (pages: set<int>)
      requires Aligned(a) && a.end <= V.WINDOW && vmm.Valid()
      modifies vmm`mem
      ensures vmm.Valid() && Wiped(old(vmm.mem), vmm.mem, vmm.dir, pages)
      ensures forall page :: page in pages <==> Covers(a, page)
    {
      var first, n: nat := a.start / PAGE, (a.end - a.start) / PAGE;
      AreaPages(a);
      pages := {};
      NothingWiped(vmm.mem, vmm.dir);
      var k := 0;
      while k != n
        invariant k <= n && vmm.Valid() && Wiped(old(vmm.mem), vmm.mem, vmm.dir, pages)
        invariant forall page :: page in pages <==> first <= page < first + k
      {
        ghost var m := vmm.mem;
        PageIn(a, k);
        var _ := vmm.UnmapPage(a.start + k * PAGE);
        var next, more := k + 1, pages + {first + k};
        OneWiped(old(vmm.mem), m, vmm.mem, vmm.dir, pages, first + k);
        k, pages := next, more;
      }
    }

    /** An area wholly in the range: its pages are unmapped and its node removed. */
    method CutWhole(prev: int, v: int, ghost i: nat) returns (next: int, pages: set<int>)
      requires Listed() && i < |ptrs| && ptrs[i] == v && Aligned(areas[i]) && areas[i].end <= V.WINDOW && vmm.Valid()
      requires prev != 0 ==> 0 < i && prev == ptrs[i - 1]
      modifies this`mmap, this`mapCount, this`store, this`ptrs, this`areas, vmm`mem
      ensures Listed() && mapCount == old(mapCount) - 1 && store.Keys <= old(store).Keys
      ensures areas == Gone(old(areas), i, prev != 0)
      ensures next == PtrAt(ptrs, if prev != 0 then i else 0)
      ensures prev != 0 ==> ptrs == Lists.Without(old(ptrs), i)
      ensures vmm.Valid() && Wiped(old(vmm.mem), vmm.mem, vmm.dir, pages)
      ensures forall page :: page in pages <==> Covers(old(areas)[i], page)
    {
      Here(i);
      next := store[v].next;
      pages := UnmapPages(store[v].area);
      if prev != 0 {
        WithoutIs(areas, i);
      }
      RemoveNode(prev, v, i);
    }

    /** An area that reaches past the range: it is split at hi and its lower part removed. */
    method CutLower(prev: int, v: int, hi: int, node: int, ghost i: nat) returns (ok: bool, pages: set<int>)
      requires Listed() && i < |ptrs| && ptrs[i] == v && Aligned(areas[i]) && Answers(node)
      requires hi % PAGE == 0 && areas[i].start < hi < areas[i].end && areas[i].end <= V.WINDOW && vmm.Valid()
      requires prev != 0 ==> 0 < i && prev == ptrs[i - 1]
      modifies this`mmap, this`mapCount, this`store, this`ptrs, this`areas, vmm`mem
      ensures Listed() && mapCount == old(mapCount) && (ok <==> node != 0)
      ensures !ok ==> areas == old(areas) && pages == {}
      ensures ok ==> areas == LowerGone(old(areas), i, hi, prev != 0)
      ensures vmm.Valid() && Wiped(old(vmm.mem), vmm.mem, vmm.dir, pages)
      ensures ok ==> forall page :: page in pages <==> Covers(Lower(old(areas)[i], hi), page)
    {
      ghost var s := areas;
      NothingWiped(vmm.mem, vmm.dir);
      var upper := SplitVma(v, hi, node, i);
      if upper == 0 {
        return false, {};
      }
      UpperPages(s[i], hi, 0);
      SplitAround(s, i, hi);
      var next;
      next, pages := CutWhole(prev, v, i);
      ok := true;
    }

    /** The loop of munmap_range, from node v0 at index i0 on. It runs out of memory exactly when hi lies
        strictly inside an area and no node for the split can be had. */
    method RemoveFrom(prev: int, v0: int, hi: int, node: int, ghost i0: nat) returns (st: Status, pages: set<int>)
      requires Listed() && Sorted(areas) && i0 <= |areas| && v0 == PtrAt(ptrs, i0) && Answers(node)
      requires prev != 0 ==> 0 < i0 && prev == ptrs[i0 - 1]
      requires hi % PAGE == 0 && BelowWindow(areas) && vmm.Valid()
      modifies this`mmap, this`mapCount, this`store, this`ptrs, this`areas, vmm`mem
      ensures Listed()
      ensures st == if node == 0 && InsideFrom(old(areas), i0, hi) then OutOfMemory else Ok
      ensures var stop := StopAt(old(areas), i0, hi, node != 0);
              && areas == Removed(old(areas), i0, stop, prev != 0)
              && mapCount == old(mapCount) - |old(areas)[i0..]| + |Trim(old(areas)[i0..], stop)|
              && forall page :: page in pages <==> page * PAGE < stop && Lookup(old(areas)[i0..], page).Backed?
      ensures vmm.Valid() && Wiped(old(vmm.mem), vmm.mem, vmm.dir, pages)
    {
      ghost var s, m := areas, vmm.mem;
      var v := v0;
      ghost var i, j := i0, 0;
      pages := {};
      NothingWiped(m, vmm.dir);
      RemovingStart(s, i0, prev != 0, hi);
      Here(i);
      while v != 0 && store[v].area.start < hi
        invariant Listed() && i0 + j <= |s| && i == Standing(i0, prev != 0, j) && Answers(node)
        invariant v == PtrAt(ptrs, i) && NodeAt(store, ptrs, areas, i) && (v != 0 <==> i < |ptrs|)
        invariant prev != 0 ==> 0 < i <= |ptrs| && prev == ptrs[i - 1]
        invariant mapCount == old(mapCount) - j
        invariant Removing(s, i0, prev != 0, j, hi, areas, pages)
        invariant vmm.Valid() && Wiped(m, vmm.mem, vmm.dir, pages)
        decreases |s| - j
      {
        RemovingAt(s, i0, prev != 0, j, hi, areas, pages);
        if store[v].area.end > hi {
          st, pages := RemoveLast(prev, v, hi, node, i, s, i0, j, pages, m);
          return;
        }
        ghost var next := j + 1;
        v, pages := RemoveOne(prev, v, hi, i, s, i0, j, next, pages, m);
        j := next;
        i := Standing(i0, prev != 0, j);
        Here(i);
      }
      RemovingDone(s, i0, prev != 0, j, hi, areas, pages, node != 0);
      st := Ok;
    }

    /** One round of that loop, on an area wholly in the range. */
    method RemoveOne(prev: int, v: int, ghost hi: int, ghost i: nat, ghost s: Areas, ghost i0: nat, ghost j: nat,
                     ghost j': nat, pages0: set<int>, ghost m: V.Memory)
        returns (next: int, pages: set<int>)
      requires Listed() && i0 + j < |s| && i == Standing(i0, prev != 0, j) && j' == j + 1
      requires i < |ptrs| && v == ptrs[i] && areas[i] == s[i0 + j]
      requires Aligned(s[i0 + j]) && s[i0 + j].end <= V.WINDOW && s[i0 + j].end <= hi
      requires prev != 0 ==> 0 < i && prev == ptrs[i - 1]
      requires Removing(s, i0, prev != 0, j, hi, areas, pages0)
      requires vmm.Valid() && V.WellFormed(m) && Wiped(m, vmm.mem, vmm.dir, pages0)
      modifies this`mmap, this`mapCount, this`store, this`ptrs, this`areas, vmm`mem
      ensures Listed() && mapCount == old(mapCount) - 1 && store.Keys <= old(store).Keys
      ensures next == PtrAt(ptrs, Standing(i0, prev != 0, j'))
      ensures prev != 0 ==> Standing(i0, prev != 0, j') == i && 0 < i <= |ptrs| && prev == ptrs[i - 1]
      ensures Removing(s, i0, prev != 0, j', hi, areas, pages)
      ensures vmm.Valid() && Wiped(m, vmm.mem, vmm.dir, pages)
    {
      ghost var m0, a0 := vmm.mem, areas;
      var more;
      next, more := CutWhole(prev, v, i);
      pages := pages0 + more;
      RemovingStep(s, i0, prev != 0, j, j', hi, a0, pages0, areas, more);
      WipedTwice(m, m0, vmm.mem, vmm.dir, pages0, more);
    }

    /** The last round of that loop, on an area that reaches past the range. */
    method RemoveLast(prev: int, v: int, hi: int, node: int, ghost i: nat, ghost s: Areas, ghost i0: nat, ghost j: nat,
                      pages0: set<int>, ghost m: V.Memory)
        returns (st: Status, pages: set<int>)
      requires Listed() && Sorted(s) && i0 + j < |s| && i == Standing(i0, prev != 0, j) && Answers(node)
      requires i < |ptrs| && v == ptrs[i] && areas[i] == s[i0 + j]
      requires prev != 0 ==> 0 < i && prev == ptrs[i - 1]
      requires Removing(s, i0, prev != 0, j, hi, areas, pages0)
      requires hi % PAGE == 0 && s[i0 + j].start < hi < s[i0 + j].end <= V.WINDOW
      requires vmm.Valid() && V.WellFormed(m) && Wiped(m, vmm.mem, vmm.dir, pages0)
      modifies this`mmap, this`mapCount, this`store, this`ptrs, this`areas, vmm`mem
      ensures Listed() && mapCount == old(mapCount) && st == (if node == 0 then OutOfMemory else Ok)
      ensures InsideFrom(s, i0, hi)
      ensures var stop := StopAt(s, i0, hi, node != 0);
              && areas == Removed(s, i0, stop, prev != 0) && |Trim(s[i0..], stop)| == |s| - i0 - j
              && forall page :: page in pages <==> page * PAGE < stop && Lookup(s[i0..], page).Backed?
      ensures vmm.Valid() && Wiped(m, vmm.mem, vmm.dir, pages)
    {
      ghost var m0, a0 := vmm.mem, areas;
      var ok, more := CutLower(prev, v, hi, node, i);
      WipedTwice(m, m0, vmm.mem, vmm.dir, pages0, more);
      pages := pages0 + more;
      RemovingLast(s, i0, prev != 0, j, hi, a0, pages0, areas, more, ok);
      st := if ok then Ok else OutOfMemory;
    }

    /** The start of munmap_range: find the first area and split it if it starts before the range. */
    method Enter(lo: int, node: int) returns (ok: bool, prev: int, v: int, ghost i: nat)
      requires Valid() && lo % PAGE == 0 && Answers(node)
      modifies this`mapCount, this`store, this`ptrs, this`areas
      ensures Listed() && Sorted(areas) && mapCount == |areas| && i <= |areas|
      ensures ok <==> !(node == 0 && InsideFrom(old(areas), 0, lo))
      ensures ok <==> !Starved(old(areas), lo, node != 0)
      ensures !ok ==> unchanged(this)
      ensures store.Keys <= old(store).Keys + {node}
      ensures ok ==> v == PtrAt(ptrs, i) && (prev != 0 ==> 0 < i && prev == ptrs[i - 1])
      ensures ok ==> Entered(old(areas), areas, i, lo, prev != 0)
    {
      v := FindVma(lo);
      prev := 0;
      i := VmaList.FindVma(areas, lo);
      InsideFirst(areas, lo);
      Here(i);
      ok := true;
      if v != 0 && store[v].area.start < lo && store[v].area.end > lo {
        SplitKeeps(areas, i, lo);
        var upper := SplitVma(v, lo, node, i);
        if upper == 0 {
          return false, 0, 0, i;
        }
        prev := v;
        v := upper;
        i := i + 1;
      }
    }

    /** munmap_range. `node1` and `node2` are what kmalloc answers for the split at the start and at the
        end of the range; `pages` are the pages it unmaps. */
    method MunmapRange(addr: nat, len: nat, node1: int, node2: int) returns (st: Status, pages: set<int>)
      requires Valid() && addr + len + PAGE - 1 < TWO32 && BelowWindow(areas) && vmm.Valid()
      requires Answers(node1) && Answers(node2) && (node1 == node2 ==> node1 == 0)
      modifies this`mmap, this`mapCount, this`store, this`ptrs, this`areas, vmm`mem
      ensures Listed() && vmm.Valid() && Wiped(old(vmm.mem), vmm.mem, vmm.dir, pages)
      ensures len == 0 ==> st == InvalidParam && unchanged(this) && pages == {}
      ensures var lo, hi := AlignDown(addr, PAGE), AlignUp(addr + len, PAGE);
              len != 0 ==> st == if WantsNode(old(areas), lo, hi, node1, node2) then OutOfMemory else Ok
      ensures var lo := AlignDown(addr, PAGE);
              len != 0 && Starved(old(areas), lo, node1 != 0) ==> unchanged(this) && pages == {}
      ensures var lo, hi := AlignDown(addr, PAGE), AlignUp(addr + len, PAGE);
              var stop := Reached(old(areas), lo, hi, node2 != 0);
              len != 0 && !Starved(old(areas), lo, node1 != 0) ==>
                && areas == AsCoded(old(areas), lo, stop) && mapCount == |Cut(old(areas), lo, stop)|
                && (forall page :: page in pages <==> InRange(page, lo, stop) && Lookup(old(areas), page).Backed?)
                && (Valid() <==> !LosesHead(old(areas), lo, stop))
                && (mapCount == |areas| <==> !LosesHead(old(areas), lo, stop))
                && ((forall page :: Lookup(areas, page) == Remaining(old(areas), lo, stop, page)) <==>
                    !LosesHead(old(areas), lo, stop))
      ensures var lo, hi := AlignDown(addr, PAGE), AlignUp(addr + len, PAGE);
              st == Ok ==> Reached(old(areas), lo, hi, node2 != 0) == hi && !Starved(old(areas), lo, node1 != 0)
    {
      pages := {};
      NothingWiped(vmm.mem, vmm.dir);
      if len == 0 {
        return InvalidParam, {};
      }
      var lo, hi := AlignDown(addr, PAGE), AlignUp(addr + len, PAGE);
      DownAligned(addr);
      UpAligned(addr + len);
      ghost var s := areas;
      st, pages := UnmapSpan(lo, hi, node1, node2);
      SpanResult(s, lo, hi, node1, node2);
    }

    /** munmap_range once the range is page-aligned. */
    method UnmapSpan(lo: int, hi: int, node1: int, node2: int) returns (st: Status, pages: set<int>)
      requires Valid() && lo % PAGE == 0 && hi % PAGE == 0 && lo < hi && BelowWindow(areas) && vmm.Valid()
      requires Answers(node1) && Answers(node2) && (node1 == node2 ==> node1 == 0)
      modifies this`mmap, this`mapCount, this`store, this`ptrs, this`areas, vmm`mem
      ensures Listed() && vmm.Valid() && Wiped(old(vmm.mem), vmm.mem, vmm.dir, pages)
      ensures st == if WantsNode(old(areas), lo, hi, node1, node2) then OutOfMemory else Ok
      ensures Starved(old(areas), lo, node1 != 0) ==> unchanged(this) && pages == {}
      ensures !Starved(old(areas), lo, node1 != 0) ==>
                Span(old(areas), lo, Reached(old(areas), lo, hi, node2 != 0), areas, mapCount, pages)
    {
      ghost var s := areas;
      ghost var i;
      NothingWiped(vmm.mem, vmm.dir);
      var ok, prev, v;
      ok, prev, v, i := Enter(lo, node1);
      if !ok {
        return OutOfMemory, {};
      }
      EnteredBelow(s, areas, i, lo, prev != 0);
      EnteredInside(s, areas, i, lo, hi, prev != 0);
      st, pages := FinishSpan(prev, v, lo, hi, node2, i, s);
    }

    /** The rest of munmap_range, on the list as Enter leaves it. */
    method FinishSpan(prev: int, v: int, ghost lo: int, hi: int, node: int, ghost i: nat, ghost s: Areas)
        returns (st: Status, pages: set<int>)
      requires Listed() && Sorted(areas) && i <= |areas| && v == PtrAt(ptrs, i) && Answers(node) && mapCount == |areas|
      requires prev != 0 ==> 0 < i && prev == ptrs[i - 1]
      requires Sorted(s) && lo % PAGE == 0 && hi % PAGE == 0 && lo < hi && Entered(s, areas, i, lo, prev != 0)
      requires BelowWindow(areas) && vmm.Valid()
      modifies this`mmap, this`mapCount, this`store, this`ptrs, this`areas, vmm`mem
      ensures Listed() && vmm.Valid() && Wiped(old(vmm.mem), vmm.mem, vmm.dir, pages)
      ensures st == if node == 0 && InsideFrom(old(areas), i, hi) then OutOfMemory else Ok
      ensures Span(s, lo, Reached(s, lo, hi, node != 0), areas, mapCount, pages)
    {
      ghost var s1 := areas;
      st, pages := RemoveFrom(prev, v, hi, node, i);
      SpanDone(s, s1, i, lo, hi, prev != 0, node != 0, areas, mapCount, pages);
    }

    /** The search loop of remove_vm_struct: the node before p, if there is one. */
    method FindPrev(p: int, ghost at: nat) returns (prev: int)
      requires Listed() && at < |ptrs| && ptrs[at] == p
      ensures prev == PtrAt(ptrs, at - 1) && (prev != 0 <==> 0 < at)
    {
      var cur := mmap;
      prev := 0;
      ghost var i := 0;
      Here(0);
      while cur != p
        invariant i <= at && cur == PtrAt(ptrs, i) && prev == PtrAt(ptrs, i - 1) && (prev != 0 <==> 0 < i)
        invariant NodeAt(store, ptrs, areas, i)
        decreases at - i
      {
        prev := cur;
        cur := store[cur].next;
        i := i + 1;
        Here(i);
      }
      SamePlace(mmap, store, ptrs, areas, i, at);
    }

    /** remove_vm_struct: the node is unlinked, and its next pointer cleared; `at` is its place. */
    method RemoveVm(p: int, ghost at: nat)
      requires Listed() && at < |ptrs| && ptrs[at] == p
      modifies this`mmap, this`mapCount, this`store, this`ptrs, this`areas
      ensures Listed() && mapCount == old(mapCount) - 1
      ensures ptrs == Lists.Without(old(ptrs), at) && areas == Lists.Without(old(areas), at) && p !in ptrs
      ensures p in store && store[p] == Node(old(areas)[at], 0)
    {
      var prev := FindPrev(p, at);
      Here(at);
      var n := Node(store[p].area, 0);
      if prev == 0 {
        HeadAside(mmap, store, ptrs, areas, n);
        mmap := store[p].next;
      } else {
        NodeAside(mmap, store, ptrs, areas, at, n);
        store := store[prev := store[prev].(next := store[p].next)];
      }
      store := store[p := n];
      mapCount := mapCount - 1;
      ptrs, areas := Lists.Without(ptrs, at), Lists.Without(areas, at);
    }

    /** mmap_anonymous. `node` is what kmalloc answers; `v` is the area it tries to insert, if it gets that
        far, `c` the state in which it then starts to map pages, and `kept` the pages it mapped. The list
        stays valid except where insert_vm_struct has linked an area it then rejects: the area is freed and
        mm->mmap is left pointing at it. */
    method MmapAnonymous(addr: nat, len: nat, flags: nat, node: int)
        returns (st: Status, out: int, ghost v: Area, ghost c: P.Start, ghost kept: nat)
      requires Valid() && addr + len + PAGE - 1 < TWO32 && Answers(node)
      requires addr == 0 ==> forall i :: 0 <= i < |areas| ==> areas[i].end <= SEARCH_END
      requires Immediate(flags) ==> vmm.Valid() && AlignUp(addr + len, PAGE) <= V.WINDOW
      modifies this`mmap, this`mapCount, this`store, this`ptrs, this`areas
      modifies vmm`mem, vmm.pmm`freePages, vmm.pmm`usedPages, vmm.pmm`taken, vmm.pmm.bits
      ensures var first := MmapOutcome(old(areas), addr, len, node, v);
              && (first != Ok ==> st == first && unchanged(vmm) && unchanged(vmm.pmm) && unchanged(vmm.pmm.bits))
              && (first == Ok && !Immediate(flags) ==>
                    st == Ok && unchanged(vmm) && unchanged(vmm.pmm) && unchanged(vmm.pmm.bits))
              && (first == AlreadyMapped && !Overlaps(old(areas), v) ==> mmap != 0 && mmap !in store)
              && (st != Ok && !(first == AlreadyMapped && !Overlaps(old(areas), v)) ==> Valid() && areas == old(areas))
      ensures Verdict(old(areas), addr, len) == Ok ==> Requested(old(areas), addr, len, flags, v)
      ensures st == Ok ==> Valid() && areas == Inserted(old(areas), v) && out == v.start
      ensures MmapOutcome(old(areas), addr, len, node, v) == Ok && Immediate(flags) ==>
                && vmm.Valid() && 0 <= v.start
                && c == P.Start(old(vmm.mem), vmm.dir, old(Pmm.FreeSet(vmm.pmm.taken)), vmm.pmm.total, vmm.paging,
                                v.start / PAGE)
                && P.Fits(c, PagesIn(v)) && P.Outcome(c, PagesIn(v), st, kept, vmm.mem, Pmm.FreeSet(vmm.pmm.taken))
    {
      out, kept := 0, 0;
      var area;
      st, area := PlaceArea(addr, len, flags, node);
      v := area;
      c := P.Start(vmm.mem, vmm.dir, Pmm.FreeSet(vmm.pmm.taken), vmm.pmm.total, vmm.paging, area.start / PAGE);
      if st != Ok {
        return;
      }
      if flags / IMMEDIATE % 2 == 1 {
        EndBelow(old(areas), addr, len, flags, area);
        st, kept := MapArea(node, area, old(areas), old(ptrs), c);
      }
      if st == Ok {
        out := area.start;
      }
    }

    /** mmap_anonymous up to the point where the area is in the list. */
    method PlaceArea(addr: nat, len: nat, flags: nat, node: int) returns (st: Status, v: Area)
      requires Valid() && addr + len + PAGE - 1 < TWO32 && Answers(node)
      requires addr == 0 ==> forall i :: 0 <= i < |areas| ==> areas[i].end <= SEARCH_END
      modifies this`mmap, this`mapCount, this`store, this`ptrs, this`areas
      ensures st == MmapOutcome(old(areas), addr, len, node, v) && 0 <= v.start
      ensures Verdict(old(areas), addr, len) == Ok ==> Requested(old(areas), addr, len, flags, v)
      ensures st == Ok ==> Valid() && areas == Inserted(old(areas), v)
      ensures st == Ok ==> |old(ptrs)| == |old(areas)| && ptrs == With(old(ptrs), InsertPos(old(areas), v.start), node)
      ensures st != Ok && !(st == AlreadyMapped && !Overlaps(old(areas), v)) ==> Valid() && areas == old(areas)
      ensures st == AlreadyMapped && !Overlaps(old(areas), v) ==> mmap != 0 && mmap !in store
    {
      v := Area(0, 0, 0, 0);
      var start, end;
      st, start, end := ChooseRange(addr, len);
      if st != Ok {
        return;
      }
      v := Area(start, end, start / PAGE, 16 + flags % 16);
      st := AddArea(v, node);
    }

    /** The pages of a new area, mapped at once; if that fails the area goes again. */
    method MapArea(p: int, a: Area, ghost s: Areas, ghost ps: seq<int>, ghost c: P.Start)
        returns (st: Status, ghost kept: nat)
      requires Valid() && Sorted(s) && Aligned(a) && a.end <= V.WINDOW && vmm.Valid() && |ps| == |s|
      requires areas == Inserted(s, a) && ptrs == With(ps, InsertPos(s, a.start), p)
      requires c == P.Start(vmm.mem, vmm.dir, Pmm.FreeSet(vmm.pmm.taken), vmm.pmm.total, vmm.paging, a.start / PAGE)
      modifies this`mmap, this`mapCount, this`store, this`ptrs, this`areas
      modifies vmm`mem, vmm.pmm`freePages, vmm.pmm`usedPages, vmm.pmm`taken, vmm.pmm.bits
      ensures Valid() && areas == if st == Ok then Inserted(s, a) else s
      ensures vmm.Valid() && P.Fits(c, PagesIn(a))
      ensures P.Outcome(c, PagesIn(a), st, kept, vmm.mem, Pmm.FreeSet(vmm.pmm.taken))
    {
      st, kept := P.MapImmediate(vmm, a.start, (a.end - a.start) / PAGE, c);
      if st != Ok {
        ghost var at := InsertPos(s, a.start);
        WithIs(s, at, a);
        WithoutWith(s, at, a);
        RemoveVm(p, at);
        OutsideSealed(mmap, store, ptrs, areas, p, store[p]);
        store := store - {p};
      }
    }

    /** The first half of mmap_anonymous: where the area goes, or why it does not. */
    method ChooseRange(addr: nat, len: nat) returns (st: Status, start: int, end: int)
      requires Valid() && addr + len + PAGE - 1 < TWO32
      requires addr == 0 ==> forall i :: 0 <= i < |areas| ==> areas[i].end <= SEARCH_END
      ensures st == Verdict(areas, addr, len)
      ensures st == Ok ==> 0 <= start < end && start % PAGE == 0 && end % PAGE == 0
      ensures st == Ok && addr != 0 ==> start == AlignDown(addr, PAGE) && end == AlignUp(addr + len, PAGE)
      ensures st == Ok && addr == 0 ==>
                LowestPlace(areas, AlignUp(len, PAGE), start) && end == start + AlignUp(len, PAGE)
    {
      start, end := 0, 0;
      if len == 0 {
        return InvalidParam, 0, 0;
      }
      start, end := AlignDown(addr, PAGE), AlignUp(addr + len, PAGE);
      DownAligned(addr);
      UpAligned(addr + len);
      if end <= start && addr != 0 {
        return InvalidParam, start, end;
      }
      if addr == 0 {
        var candidate := UnmappedArea(len);
        AutomaticOutcome(areas, candidate, len);
        if candidate == 0 {
          return OutOfMemory, start, end;
        }
        start := candidate;
        end := Wrap32(candidate + AlignUp(len, PAGE));
      }
      if start == 0 {
        return InvalidParam, start, end;
      }
      if end <= start {
        return InvalidParam, start, end;
      }
      st := Ok;
    }

    /** The second half of mmap_anonymous: a node for the area, inserted or given back. */
    method AddArea(a: Area, node: int) returns (st: Status)
      requires Valid() && Aligned(a) && Answers(node)
      modifies this`mmap, this`mapCount, this`store, this`ptrs, this`areas
      ensures st == if node == 0 then OutOfMemory
                    else if Overlaps(old(areas), a) || BeforeHead(old(areas), a) then AlreadyMapped else Ok
      ensures st == OutOfMemory ==> Valid() && areas == old(areas)
      ensures st == Ok ==> Valid() && areas == Inserted(old(areas), a)
      ensures st == Ok ==> ptrs == With(old(ptrs), InsertPos(old(areas), a.start), node)
      ensures st == AlreadyMapped && Overlaps(old(areas), a) ==> Valid() && areas == old(areas)
      ensures st == AlreadyMapped && !Overlaps(old(areas), a) ==> mmap != 0 && mmap !in store
    {
      var p := node;
      if p == 0 {
        return OutOfMemory;
      }
      OutsideSealed(mmap, store, ptrs, areas, p, Node(a, 0));
      NeighboursSuffice(areas, a);
      store := store[p := Node(a, 0)];
      var rc := InsertVm(p);
      if rc != 0 {
        if Overlaps(old(areas), a) {
          OutsideSealed(mmap, store, ptrs, areas, p, Node(a, 0));
        }
        store := store - {p};
        return AlreadyMapped;
      }
      InsertKeeps(old(areas), a);
      st := Ok;
    }
  }

  /** The loop of munmap_range after j removals that started at index i of s: the list, and the pages
      unmapped so far. */
  ghost predicate Removing(s: Areas, i: nat, prev: bool, j: nat, hi: int, now: Areas, pages: set<int>)
    requires i + j <= |s|
  {
    RemovingSeal(s, i, prev, j, hi, now, pages).Intact?
  }

  ghost function RemovingSeal(s: Areas, i: nat, prev: bool, j: nat, hi: int, now: Areas, pages: set<int>): Seal
    requires i + j <= |s|
  {
    if forall k {:trigger Open(TheRange, k)} :: Open(TheRange, k) ==>
      && now == Now(s, i, prev, j) && EndBy(s, i, j, hi)
      && (forall page :: page in pages <==> CoveredBy(s, i, j, page))
    then Intact else Broken
  }

  lemma RemovingStart(s: Areas, i: nat, prev: bool, hi: int)
    requires i <= |s|
    ensures Removing(s, i, prev, 0, hi, s, {})
  {}

  /** The area looked at next. */
  lemma RemovingAt(s: Areas, i: nat, prev: bool, j: nat, hi: int, now: Areas, pages: set<int>)
    requires Sorted(s) && BelowWindow(s) && i + j <= |s| && Removing(s, i, prev, j, hi, now, pages)
    ensures Standing(i, prev, j) < |now| <==> i + j < |s|
    ensures i + j < |s| ==> now[Standing(i, prev, j)] == s[i + j] && Aligned(s[i + j]) && s[i + j].end <= V.WINDOW
  {
    assert Open(TheRange, 0);
    if i + j < |s| {
      NowAt(s, i, prev, j);
    }
  }

  lemma RemovingStep(s: Areas, i: nat, prev: bool, j: nat, j': nat, hi: int, now: Areas, pages: set<int>, now': Areas,
                     more: set<int>)
    requires i + j < |s| && j' == j + 1 && Removing(s, i, prev, j, hi, now, pages)
    requires s[i + j].end <= hi && Standing(i, prev, j) < |now| && now' == Gone(now, Standing(i, prev, j), prev)
    requires forall page :: page in more <==> Covers(s[i + j], page)
    ensures Removing(s, i, prev, j', hi, now', pages + more)
  {
    assert Open(TheRange, 0);
    PagesGrow(s, i, j, pages, more);
  }

  lemma RemovingLast(s: Areas, i: nat, prev: bool, j: nat, hi: int, now: Areas, pages: set<int>, now': Areas,
                     more: set<int>, ok: bool)
    requires Sorted(s) && i + j < |s| && Removing(s, i, prev, j, hi, now, pages) && Standing(i, prev, j) < |now|
    requires s[i + j].start < hi < s[i + j].end
    requires if ok then now' == LowerGone(now, Standing(i, prev, j), hi, prev) else now' == now
    requires ok ==> forall page :: page in more <==> Covers(Lower(s[i + j], hi), page)
    requires !ok ==> more == {}
    ensures InsideFrom(s, i, hi)
    ensures var stop := StopAt(s, i, hi, ok);
            && now' == Removed(s, i, stop, prev) && |Trim(s[i..], stop)| == |s| - i - j
            && forall page :: page in pages + more <==> page * PAGE < stop && Lookup(s[i..], page).Backed?
  {
    assert Open(TheRange, 0);
    StopIs(s, i, j, hi);
    if ok {
      LastPiece(s, i, j, hi, prev);
      PagesLast(s, i, j, hi, pages, more);
    } else {
      var stop := s[i + j].start;
      EndByNext(s, i, j, i + j);
      LoopDone(s, i, j, stop, prev);
      PagesDone(s, i, j, stop, pages);
      assert pages + more == pages;
    }
  }

  lemma StopIs(s: Areas, i: nat, j: nat, hi: int)
    requires Sorted(s) && i + j < |s| && s[i + j].start < hi < s[i + j].end
    ensures InsideFrom(s, i, hi) && StopAt(s, i, hi, false) == s[i + j].start && StopAt(s, i, hi, true) == hi
  {
    forall k | 0 <= k < i + j ensures s[k].end <= hi {
      assert s[k].end <= s[i + j].start;
    }
    FindIs(s, hi, i + j);
  }

  lemma RemovingDone(s: Areas, i: nat, prev: bool, j: nat, hi: int, now: Areas, pages: set<int>, node: bool)
    requires Sorted(s) && i + j <= |s| && Removing(s, i, prev, j, hi, now, pages)
    requires Standing(i, prev, j) < |now| ==> hi <= now[Standing(i, prev, j)].start
    ensures now == Removed(s, i, hi, prev) && |Trim(s[i..], hi)| == |s| - i - j && !InsideFrom(s, i, hi)
    ensures StopAt(s, i, hi, node) == hi
    ensures forall page :: page in pages <==> page * PAGE < hi && Lookup(s[i..], page).Backed?
  {
    assert Open(TheRange, 0);
    if i + j < |s| {
      NowAt(s, i, prev, j);
    }
    LoopDone(s, i, j, hi, prev);
    PagesDone(s, i, j, hi, pages);
    NoneInside(s, i, j, hi);
  }

  /** No area reaches into the recursive page-table window. */
  ghost predicate BelowWindow(s: Areas) {
    forall i :: 0 <= i < |s| ==> s[i].end <= V.WINDOW
  }

  lemma EnteredBelow(s: Areas, s1: Areas, i: nat, lo: int, prev: bool)
    requires BelowWindow(s) && Entered(s, s1, i, lo, prev)
    ensures BelowWindow(s1)
  {
    if prev {
      var k := i - 1;
      forall j | 0 <= j < |s1| ensures s1[j].end <= V.WINDOW {
        assert s1[j] == if j < k then s[j]
                        else if j == k then Lower(s[k], lo)
                        else if j == k + 1 then Upper(s[k], lo)
                        else s[j - 1];
      }
    }
  }

  lemma AreaPages(a: Area)
    requires Aligned(a)
    ensures 0 <= a.start / PAGE && 0 <= (a.end - a.start) / PAGE
    ensures forall page :: Covers(a, page) <==> a.start / PAGE <= page < a.start / PAGE + (a.end - a.start) / PAGE
  {
    assert a.start == a.start / PAGE * PAGE && a.end == (a.start / PAGE + (a.end - a.start) / PAGE) * PAGE;
  }

  lemma PageIn(a: Area, k: nat)
    requires Aligned(a) && a.end <= V.WINDOW && k < (a.end - a.start) / PAGE
    ensures 0 <= a.start + k * PAGE < V.WINDOW && (a.start + k * PAGE) / PAGE == a.start / PAGE + k < V.WINDOW / PAGE
  {}

  lemma SplitAround(s: Areas, i: nat, addr: int)
    requires i < |s|
    ensures var s1 := SplitAt(s, i, addr);
            s1[i] == Lower(s[i], addr) && s1[..i] == s[..i] && s1[i + 1..] == [Upper(s[i], addr)] + s[i + 1..]
  {}

  lemma NeedFits(len: nat)
    requires 0 < len && len + PAGE - 1 < TWO32
    ensures 0 < AlignUp(len, PAGE) <= TWO32 - PAGE
  {
    PageAligned(len);
  }

  /** munmap_range needs a node it cannot have: to split at the start or at the end of the range. */
  ghost predicate WantsNode(s: Areas, lo: int, hi: int, node1: int, node2: int) {
    (node1 == 0 && InsideFrom(s, 0, lo)) || (node2 == 0 && InsideFrom(s, 0, hi))
  }

  /** What munmap_range does to [lo, stop): the list, the count and the pages it unmaps. */
  ghost predicate Span(s: Areas, lo: int, stop: int, now: Areas, count: int, pages: set<int>) {
    && now == AsCoded(s, lo, stop) && count == |Cut(s, lo, stop)|
    && forall page :: page in pages <==> InRange(page, lo, stop) && Lookup(s, page).Backed?
  }

  lemma SpanDone(s: Areas, s1: Areas, i: nat, lo: int, hi: int, prev: bool, node: bool, now: Areas, count: int,
                 pages: set<int>)
    requires Sorted(s) && lo % PAGE == 0 && hi % PAGE == 0 && lo < hi && Entered(s, s1, i, lo, prev) && i <= |s1|
    requires var stop := StopAt(s1, i, hi, node);
             && now == Removed(s1, i, stop, prev) && count == |s1| - |s1[i..]| + |Trim(s1[i..], stop)|
             && forall page :: page in pages <==> page * PAGE < stop && Lookup(s1[i..], page).Backed?
    ensures Span(s, lo, Reached(s, lo, hi, node), now, count, pages)
  {
    var stop := Reached(s, lo, hi, node);
    EnteredStop(s, s1, i, lo, hi, prev, node);
    ReachedIn(s, lo, hi, node);
    Finished(s, s1, i, lo, stop, prev);
    FinishedPages(s, s1, i, lo, stop, prev);
  }

  /** What the list that munmap_range leaves is worth. */
  lemma SpanResult(s: Areas, lo: int, hi: int, node1: int, node2: int)
    requires Sorted(s) && lo % PAGE == 0 && hi % PAGE == 0 && lo < hi
    ensures var stop := Reached(s, lo, hi, node2 != 0);
            && (|Cut(s, lo, stop)| == |AsCoded(s, lo, stop)| <==> !LosesHead(s, lo, stop))
            && (!LosesHead(s, lo, stop) ==> Sorted(AsCoded(s, lo, stop)))
            && ((forall page :: Lookup(AsCoded(s, lo, stop), page) == Remaining(s, lo, stop, page)) <==>
                !LosesHead(s, lo, stop))
    ensures !WantsNode(s, lo, hi, node1, node2) ==>
              Reached(s, lo, hi, node2 != 0) == hi && !Starved(s, lo, node1 != 0)
  {
    var stop := Reached(s, lo, hi, node2 != 0);
    ReachedIn(s, lo, hi, node2 != 0);
    InsideFirst(s, lo);
    CountExact(s, lo, stop);
    MunmapExact(s, lo, stop);
  }

  /** mmap_anonymous refuses its arguments: no length, an address in page 0, or an automatic request so
      large that the search wraps without noticing that nothing fits. */
  ghost predicate Refused(s: Areas, addr: nat, len: nat) {
    || len == 0
    || (addr != 0 && AlignDown(addr, PAGE) == 0)
    || (addr == 0 && (forall a :: !Place(s, a, AlignUp(len, PAGE))) && !Noticed(s, AlignUp(len, PAGE)))
  }

  /** An automatic request for which nothing fits, and the search notices. */
  ghost predicate NoPlace(s: Areas, addr: nat, len: nat) {
    addr == 0 && (forall a :: !Place(s, a, AlignUp(len, PAGE))) && Noticed(s, AlignUp(len, PAGE))
  }

  /** What mmap_anonymous decides before it asks for a node. */
  ghost function Verdict(s: Areas, addr: nat, len: nat): Status {
    if Refused(s, addr, len) then InvalidParam else if NoPlace(s, addr, len) then OutOfMemory else Ok
  }

  /** The answer of mmap_anonymous, from its arguments, the list, the node it gets and the area it makes. */
  ghost function MmapOutcome(s: Areas, addr: nat, len: nat, node: int, v: Area): Status {
    if Verdict(s, addr, len) != Ok then Verdict(s, addr, len)
    else if node == 0 then OutOfMemory
    else if Overlaps(s, v) || BeforeHead(s, v) then AlreadyMapped
    else Ok
  }

  /** What becomes of a candidate of the search. */
  lemma AutomaticOutcome(s: Areas, r: int, len: nat)
    requires 0 < len && len + PAGE - 1 < TWO32 && Answer(s, AlignUp(len, PAGE), r)
    ensures var need := AlignUp(len, PAGE);
            && (r == 0 <==> NoPlace(s, 0, len))
            && (r != 0 ==> (Wrap32(r + need) <= r <==> Refused(s, 0, len)))
            && (r != 0 && Wrap32(r + need) > r ==>
                  Wrap32(r + need) == r + need && (r + need) % PAGE == 0 && r % PAGE == 0 && LowestPlace(s, need, r))
  {
    NeedFits(len);
    UpAligned(len);
    OutcomeFor(s, r, AlignUp(len, PAGE));
    assert AlignDown(0, PAGE) == 0;
  }

  lemma OutcomeFor(s: Areas, r: int, need: int)
    requires 0 < need < TWO32 && need % PAGE == 0 && Answer(s, need, r)
    ensures r == 0 <==> (forall a :: !Place(s, a, need)) && Noticed(s, need)
    ensures r != 0 ==> (Wrap32(r + need) <= r <==> (forall a :: !Place(s, a, need)) && !Noticed(s, need))
    ensures r != 0 && Wrap32(r + need) > r ==>
              Wrap32(r + need) == r + need && (r + need) % PAGE == 0 && r % PAGE == 0 && LowestPlace(s, need, r)
  {
    if r != 0 {
      AnswerArea(s, r, need);
      CandidateWraps(s, r, need);
    }
  }

  lemma CandidateWraps(s: Areas, r: int, need: int)
    requires 0 < need < TWO32 && r != 0 && Answer(s, need, r)
    ensures Wrap32(r + need) <= r <==> (forall a :: !Place(s, a, need)) && !Noticed(s, need)
  {
    assert 0 <= r <= SEARCH_END;
    WrapPast(r, need);
    if Wrap32(r + need) > r {
      assert LowestPlace(s, need, r);
    }
  }

  /** The area mmap_anonymous makes of its arguments: the pages asked for, or the lowest place. */
  ghost predicate Requested(s: Areas, addr: nat, len: nat, flags: nat, v: Area) {
    && Aligned(v) && v.pgoff == v.start / PAGE && v.flags == 16 + flags % 16
    && (addr != 0 ==> v.start == AlignDown(addr, PAGE) && v.end == AlignUp(addr + len, PAGE))
    && (addr == 0 ==> LowestPlace(s, AlignUp(len, PAGE), v.start) && v.end == v.start + AlignUp(len, PAGE))
  }

  /** Where the area goes, it stays below the page-table window. */
  lemma EndBelow(s: Areas, addr: nat, len: nat, flags: nat, v: Area)
    requires 0 < len && AlignUp(addr + len, PAGE) <= V.WINDOW && Requested(s, addr, len, flags, v)
    ensures v.end <= V.WINDOW
  {}

  lemma NewNode(st: map<int, Node>, ps: seq<int>, s: Areas, p: int)
    requires Linked(st, ps, s) && p !in st
    ensures p !in ps
  {
    forall i | 0 <= i < |ps| ensures ps[i] != p {
      assert NodeAt(st, ps, s, i);
    }
  }

  lemma SplitIsWith(s: Areas, i: nat, addr: int)
    requires i < |s|
    ensures SplitAt(s, i, addr) == With(s[i := Lower(s[i], addr)], i + 1, Upper(s[i], addr))
  {}

  /** A node outside the list does not matter to it. */
  lemma FreshStore(st: map<int, Node>, ps: seq<int>, s: Areas, p: int, n: Node)
    requires Linked(st, ps, s) && p !in ps
    ensures Linked(st[p := n], ps, s)
  {
    var st' := st[p := n];
    forall i | 0 <= i < |ps| ensures NodeAt(st', ps, s, i) {
      assert NodeAt(st, ps, s, i);
    }
  }

  lemma DropNode(st: map<int, Node>, ps: seq<int>, s: Areas, p: int)
    requires Linked(st, ps, s) && p !in ps
    ensures Linked(st - {p}, ps, s)
  {
    var st' := st - {p};
    forall i | 0 <= i < |ps| ensures NodeAt(st', ps, s, i) {
      assert NodeAt(st, ps, s, i);
    }
  }
}
