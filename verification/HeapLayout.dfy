/** The kernel heap as a sequence of blocks in address order, and what src/mm/heap.c does to it. */
module HeapLayout {
  import opened Kernel

  /** sizeof(struct heap_block) on i386. */
  const HDR := 20
  const HEAP_START := 0xD000_0000
  const HEAP_LIMIT := 0xE000_0000

  datatype Block = Block(addr: int, size: int, free: bool) {
    function Payload(): int { addr + HDR }
    function End(): int { addr + HDR + size }
  }

  type Layout = seq<Block>

  function NextAddr(l: Layout, end: int, i: nat): int {
    if i + 1 < |l| then l[i + 1].addr else end
  }

  /** Block i ends where the next one, or the heap, begins or ends. */
  predicate TileAt(l: Layout, end: int, i: nat)
    requires i < |l|
  {
    0 < l[i].size && l[i].End() == NextAddr(l, end, i)
  }

  /** The blocks lie end to end from HEAP_START to `end`. */
  ghost predicate Tiles(l: Layout, end: int) {
    && (if l == [] then end == HEAP_START else l[0].addr == HEAP_START)
    && forall i {:trigger TileAt(l, end, i)} :: 0 <= i < |l| ==> TileAt(l, end, i)
  }

  lemma {:induction false} InOrder(l: Layout, end: int, i: nat, j: nat)
    requires Tiles(l, end) && i < j < |l|
    ensures l[i].End() <= l[j].addr
    decreases j - i
  {
    if i + 1 < j {
      InOrder(l, end, i + 1, j);
      assert TileAt(l, end, i + 1);
    }
    assert TileAt(l, end, i);
  }

  lemma {:induction false} Bounds(l: Layout, end: int, i: nat)
    requires Tiles(l, end) && i < |l|
    ensures HEAP_START <= l[i].addr && l[i].End() <= end
  {
    assert TileAt(l, end, 0) && TileAt(l, end, i);
    if 0 < i {
      InOrder(l, end, 0, i);
    }
    var last := |l| - 1;
    if i < last {
      InOrder(l, end, i, last);
    }
    assert TileAt(l, end, last);
  }

  /** Every block at once, for the proofs that need all of them. */
  ghost predicate Ordered(l: Layout, end: int) {
    && (forall i, j :: 0 <= i < j < |l| ==> l[i].End() <= l[j].addr)
    && (forall i :: 0 <= i < |l| ==> 0 < l[i].size && HEAP_START <= l[i].addr && l[i].End() <= end)
  }

  lemma TilesOrdered(l: Layout, end: int)
    requires Tiles(l, end)
    ensures Ordered(l, end)
  {
    forall i, j | 0 <= i < j < |l| ensures l[i].End() <= l[j].addr {
      InOrder(l, end, i, j);
    }
    forall i | 0 <= i < |l| ensures 0 < l[i].size && HEAP_START <= l[i].addr && l[i].End() <= end {
      assert TileAt(l, end, i);
      Bounds(l, end, i);
    }
  }

  // ---------------------------------------------------------------- live blocks

  /** The allocated blocks. */
  ghost function Live(l: Layout): (r: set<Block>)
    ensures forall b {:trigger b in r} :: b in r <==> b in l && !b.free
  {
    set b | b in l && !b.free
  }

  predicate Disjoint(b: Block, c: Block) {
    b.End() <= c.addr || c.End() <= b.addr
  }

  /** Two live blocks never overlap, headers included, and all lie inside the heap. */
  lemma LiveDisjoint(l: Layout, end: int, b: Block, c: Block)
    requires Tiles(l, end) && b in Live(l) && c in Live(l) && b != c
    ensures Disjoint(b, c)
    ensures HEAP_START <= b.addr && b.End() <= end
  {
    TilesOrdered(l, end);
    var i :| 0 <= i < |l| && l[i] == b;
    var j :| 0 <= j < |l| && l[j] == c;
    assert i < j || j < i;
  }

  // ---------------------------------------------------------------- operations

  predicate Fits(b: Block, size: int) {
    b.free && b.size >= size
  }

  /** The first block that can hold `size` bytes, or |l|. */
  function FirstFit(l: Layout, size: int): (i: nat)
    ensures i <= |l|
    ensures i < |l| ==> Fits(l[i], size)
    ensures forall j :: 0 <= j < i ==> !Fits(l[j], size)
  {
    if l == [] then 0
    else if Fits(l[0], size) then 0
    else
      var k := FirstFit(l[1..], size);
      assert forall j :: 1 <= j < 1 + k ==> l[j] == l[1..][j - 1];
      1 + k
  }

  /** Block i taken for a request, its tail split off when a header and at least a byte remain. */
  function Carve(l: Layout, i: nat, size: int): Layout
    requires i < |l|
  {
    var b := l[i];
    if b.size > size + HDR
    then seq(|l| + 1, j requires 0 <= j < |l| + 1 =>
           if j < i then l[j]
           else if j == i then Block(b.addr, size, false)
           else if j == i + 1 then Block(b.addr + HDR + size, b.size - size - HDR, true)
           else l[j - 1])
    else l[i := b.(free := false)]
  }

  /** Block i absorbs block i + 1, header included. */
  function Merge(l: Layout, i: nat): Layout
    requires i + 1 < |l|
  {
    seq(|l| - 1, j requires 0 <= j < |l| - 1 =>
      if j < i then l[j] else if j == i then l[i].(size := l[i].size + HDR + l[i + 1].size) else l[j + 1])
  }

  /** The coalescing pass from block i on. */
  function CoalesceFrom(l: Layout, i: nat): Layout
    decreases |l| - i
  {
    if i + 1 >= |l| then l
    else if l[i].free && l[i + 1].free then CoalesceFrom(Merge(l, i), i)
    else CoalesceFrom(l, i + 1)
  }

  function Coalesce(l: Layout): Layout {
    CoalesceFrom(l, 0)
  }

  /** kfree of block i: mark it, absorb a free successor, be absorbed by a free predecessor. */
  function Freed(l: Layout, i: nat): Layout
    requires i < |l|
  {
    var l1 := l[i := l[i].(free := true)];
    var l2 := if i + 1 < |l1| && l1[i + 1].free then Merge(l1, i) else l1;
    if 0 < i && l2[i - 1].free then Merge(l2, i - 1) else l2
  }

  /** How much heap_expand adds for a request of `size` bytes by kmalloc. */
  function Growth(size: int): int {
    AlignUp(size + 2 * HDR, PAGE)
  }

  function Grown(l: Layout, end: int, add: int): Layout {
    l + [Block(end, add - HDR, true)]
  }

  // ---------------------------------------------------------------- tiling and liveness are kept

  lemma CarveKeeps(l: Layout, end: int, i: nat, size: int)
    requires Tiles(l, end) && i < |l| && Fits(l[i], size) && 0 < size
    ensures Tiles(Carve(l, i, size), end)
    ensures |Carve(l, i, size)| >= |l| && Carve(l, i, size)[i].addr == l[i].addr && !Carve(l, i, size)[i].free
    ensures size <= Carve(l, i, size)[i].size <= size + HDR
    ensures Live(Carve(l, i, size)) == Live(l) + {Carve(l, i, size)[i]}
    ensures Carve(l, i, size)[i] !in Live(l)
  {
    if l[i].size > size + HDR {
      CarveTiles(l, end, i, size);
    } else {
      var l' := Carve(l, i, size);
      forall j | 0 <= j < |l'| ensures TileAt(l', end, j) {
        assert TileAt(l, end, j);
      }
    }
    CarveLive(l, i, size);
    CarveNew(l, end, i, size);
  }

  lemma CarveNew(l: Layout, end: int, i: nat, size: int)
    requires Tiles(l, end) && i < |l| && l[i].free
    ensures |Carve(l, i, size)| >= |l| && Carve(l, i, size)[i] !in Live(l)
  {
    TilesOrdered(l, end);
    assert Carve(l, i, size)[i].addr == l[i].addr;
    assert forall j :: 0 <= j < |l| && l[j].addr == l[i].addr ==> j == i;
  }

  lemma CarveTiles(l: Layout, end: int, i: nat, size: int)
    requires Tiles(l, end) && i < |l| && l[i].size > size + HDR && 0 < size
    ensures Tiles(Carve(l, i, size), end)
  {
    var l' := Carve(l, i, size);
    forall j | 0 <= j < |l'| ensures TileAt(l', end, j) {
      CarveTile(l, end, i, size, j);
    }
  }

  lemma CarveTile(l: Layout, end: int, i: nat, size: int, j: nat)
    requires Tiles(l, end) && i < |l| && l[i].size > size + HDR && 0 < size && j <= |l|
    ensures var l' := Carve(l, i, size);
            TileAt(l', end, j)
  {
    var l' := Carve(l, i, size);
    if j < i {
      assert TileAt(l, end, j);
    } else if i < j {
      assert TileAt(l, end, j - 1);
    }
  }

  lemma CarveLive(l: Layout, i: nat, size: int)
    requires i < |l| && l[i].free
    ensures Live(Carve(l, i, size)) == Live(l) + {Carve(l, i, size)[i]}
  {
    var l' := Carve(l, i, size);
    forall b | b in l && !b.free ensures b in l' {
      var j :| 0 <= j < |l| && l[j] == b;
      if l[i].size > size + HDR && i < j {
        assert l'[j + 1] == b;
      } else {
        assert l'[j] == b;
      }
    }
  }

  lemma MergeKeeps(l: Layout, end: int, i: nat)
    requires Tiles(l, end) && i + 1 < |l| && l[i].free && l[i + 1].free
    ensures Tiles(Merge(l, i), end)
    ensures Live(Merge(l, i)) == Live(l)
    ensures |Merge(l, i)| == |l| - 1 && Merge(l, i)[i].free && Merge(l, i)[i].addr == l[i].addr
  {
    var l' := Merge(l, i);
    forall j | 0 <= j < |l'| ensures TileAt(l', end, j) {
      MergeTile(l, end, i, j);
    }
    MergeLive(l, i);
  }

  lemma MergeTile(l: Layout, end: int, i: nat, j: nat)
    requires Tiles(l, end) && i + 1 < |l| && j < |l| - 1
    ensures var l' := Merge(l, i);
            && (j < i ==> l'[j] == l[j]) && (i < j ==> l'[j] == l[j + 1])
            && TileAt(l', end, j)
            && l'[i].Payload() == l[i].Payload() && l'[i].End() == l[i + 1].End()
  {
    assert TileAt(l, end, i) && TileAt(l, end, i + 1);
    if j < i {
      assert TileAt(l, end, j);
    } else if i < j {
      assert TileAt(l, end, j + 1);
    }
  }

  lemma MergeLive(l: Layout, i: nat)
    requires i + 1 < |l| && l[i].free && l[i + 1].free
    ensures Live(Merge(l, i)) == Live(l)
  {
    var l' := Merge(l, i);
    forall b | b in l && !b.free ensures b in l' {
      var j :| 0 <= j < |l| && l[j] == b;
      assert if j < i then l'[j] == b else l'[j - 1] == b;
    }
  }

  lemma {:induction false} CoalesceKeeps(l: Layout, end: int, i: nat)
    requires Tiles(l, end)
    ensures Tiles(CoalesceFrom(l, i), end)
    ensures Live(CoalesceFrom(l, i)) == Live(l)
    decreases |l| - i
  {
    if i + 1 < |l| {
      if l[i].free && l[i + 1].free {
        MergeKeeps(l, end, i);
        CoalesceKeeps(Merge(l, i), end, i);
      } else {
        CoalesceKeeps(l, end, i + 1);
      }
    }
  }

  lemma FreedKeeps(l: Layout, end: int, i: nat)
    requires Tiles(l, end) && i < |l|
    ensures Tiles(Freed(l, i), end)
    ensures Live(Freed(l, i)) == Live(l) - {l[i]}
  {
    var l1 := l[i := l[i].(free := true)];
    UnmarkTiles(l, end, i);
    var l2 := if i + 1 < |l1| && l1[i + 1].free then Merge(l1, i) else l1;
    if i + 1 < |l1| && l1[i + 1].free {
      MergeKeeps(l1, end, i);
    }
    if 0 < i && l2[i - 1].free {
      MergeKeeps(l2, end, i - 1);
    }
  }

  /** Blocks a up to e as one free block, header of the first, everything else as it is. */
  function Joined(l: Layout, a: nat, e: nat): Layout
    requires a < e <= |l|
  {
    l[..a] + [Block(l[a].addr, l[e - 1].End() - l[a].Payload(), true)] + l[e..]
  }

  /** kfree makes one free block of the block and of those neighbours that are free. */
  lemma FreedIs(l: Layout, end: int, i: nat)
    requires Tiles(l, end) && i < |l|
    ensures Freed(l, i) == Joined(l, if 0 < i && l[i - 1].free then i - 1 else i,
                                  if i + 1 < |l| && l[i + 1].free then i + 2 else i + 1)
  {
    var l1 := l[i := l[i].(free := true)];
    UnmarkTiles(l, end, i);
    JoinedOne(l, i);
    if i + 1 < |l| && l[i + 1].free {
      MergeIsJoined(l1, end, i);
      JoinedMarked(l, i, i, i + 2);
    }
    if 0 < i && l[i - 1].free {
      var e := if i + 1 < |l| && l[i + 1].free then i + 2 else i + 1;
      JoinBefore(l, end, i, e);
    }
  }

  lemma JoinedOne(l: Layout, i: nat)
    requires i < |l|
    ensures l[i := l[i].(free := true)] == Joined(l, i, i + 1)
  {}

  lemma JoinedMarked(l: Layout, i: nat, a: nat, e: nat)
    requires a <= i < e <= |l| && (a == i || l[a].free)
    ensures Joined(l[i := l[i].(free := true)], a, e) == Joined(l, a, e)
  {}

  lemma MergeIsJoined(l: Layout, end: int, i: nat)
    requires Tiles(l, end) && i + 1 < |l| && l[i].free
    ensures Merge(l, i) == Joined(l, i, i + 2)
  {
    assert TileAt(l, end, i);
  }

  /** A free predecessor absorbs what is joined behind it. */
  lemma JoinBefore(l: Layout, end: int, i: nat, e: nat)
    requires Tiles(l, end) && 0 < i < e <= |l| && l[i - 1].free
    ensures Merge(Joined(l, i, e), i - 1) == Joined(l, i - 1, e)
  {
    assert TileAt(l, end, i - 1);
    var j := Joined(l, i, e);
    assert j[i - 1] == l[i - 1] && forall k :: i < k < |j| ==> j[k] == l[k - i - 1 + e];
  }

  /** Freeing leaves no two free blocks side by side where there were none. */
  lemma FreedMerges(l: Layout, end: int, i: nat)
    requires Tiles(l, end) && i < |l| && NoAdjacentFree(l, |l|)
    ensures NoAdjacentFree(Freed(l, i), |Freed(l, i)|)
  {
    var a := if 0 < i && l[i - 1].free then i - 1 else i;
    var e := if i + 1 < |l| && l[i + 1].free then i + 2 else i + 1;
    FreedIs(l, end, i);
    if 0 < a < i {
      assert !l[a - 1].free;
    }
    if i + 1 < e < |l| {
      assert !l[e].free;
    }
    JoinedApart(l, a, e);
  }

  lemma JoinedApart(l: Layout, a: nat, e: nat)
    requires a < e <= |l| && NoAdjacentFree(l, |l|) && (0 < a ==> !l[a - 1].free) && (e < |l| ==> !l[e].free)
    ensures NoAdjacentFree(Joined(l, a, e), |Joined(l, a, e)|)
  {
    var j := Joined(l, a, e);
    forall k | 0 <= k < |j| && k + 1 < |j| ensures !(j[k].free && j[k + 1].free) {
      if k + 1 < a {
        assert j[k] == l[k] && j[k + 1] == l[k + 1];
      } else if a < k {
        var m := k - a - 1 + e;
        assert j[k] == l[m] && j[k + 1] == l[m + 1];
      } else if k + 1 == a {
        assert j[k] == l[a - 1];
      } else {
        assert j[k + 1] == l[e];
      }
    }
  }

  lemma UnmarkTiles(l: Layout, end: int, i: nat)
    requires Tiles(l, end) && i < |l|
    ensures Tiles(l[i := l[i].(free := true)], end)
    ensures Live(l[i := l[i].(free := true)]) == Live(l) - {l[i]}
  {
    TilesOrdered(l, end);
    var l1 := l[i := l[i].(free := true)];
    forall j | 0 <= j < |l1| ensures TileAt(l1, end, j) {
      assert TileAt(l, end, j);
    }
    UnmarkLive(l, i);
  }

  lemma UnmarkLive(l: Layout, i: nat)
    requires i < |l|
    requires forall j, k :: 0 <= j < k < |l| ==> l[j] != l[k]
    ensures Live(l[i := l[i].(free := true)]) == Live(l) - {l[i]}
  {
    var l1 := l[i := l[i].(free := true)];
    forall b | b in l && !b.free && b != l[i] ensures b in l1 {
      var j :| 0 <= j < |l| && l[j] == b;
      assert l1[j] == b;
    }
    forall b | b in l1 && !b.free ensures b in l && b != l[i] {
      var j :| 0 <= j < |l1| && l1[j] == b;
      assert l[j] == b && j != i;
    }
  }

  lemma GrownKeeps(l: Layout, end: int, add: int)
    requires Tiles(l, end) && HDR < add
    ensures Tiles(Grown(l, end, add), end + add)
    ensures Live(Grown(l, end, add)) == Live(l)
  {
    var l', end' := Grown(l, end, add), end + add;
    forall j | 0 <= j < |l'| ensures TileAt(l', end', j) {
      if j < |l| {
        assert TileAt(l, end, j);
      }
    }
  }

  // ---------------------------------------------------------------- runs of free blocks

  /** Blocks [i, j) are all free. */
  ghost predicate FreeRun(l: Layout, i: int, j: int) {
    0 <= i < j <= |l| && forall k :: i <= k < j ==> l[k].free
  }

  /** The bytes such a run would offer as one block: everything behind its first header. */
  function Capacity(l: Layout, i: int, j: int): int
    requires 0 <= i < j <= |l|
  {
    l[j - 1].End() - l[i].Payload()
  }

  /** Some run of adjacent free blocks, headers in between absorbed, can hold `size` bytes. */
  ghost predicate HasRoom(l: Layout, size: int) {
    exists i, j :: FreeRun(l, i, j) && Capacity(l, i, j) >= size
  }

  ghost predicate NoAdjacentFree(l: Layout, upTo: int) {
    forall k :: 0 <= k < upTo && k + 1 < |l| ==> !(l[k].free && l[k + 1].free)
  }

  /** Such a run starts at address x or before. */
  ghost predicate RoomBy(l: Layout, size: int, x: int) {
    exists i, j :: FreeRun(l, i, j) && Capacity(l, i, j) >= size && l[i].addr <= x
  }

  lemma RoomSomewhere(l: Layout, end: int, size: int)
    requires Tiles(l, end)
    ensures HasRoom(l, size) <==> RoomBy(l, size, end)
  {
    if HasRoom(l, size) {
      var i, j :| FreeRun(l, i, j) && Capacity(l, i, j) >= size;
      TilesOrdered(l, end);
      assert l[i].addr <= end;
    }
  }

  lemma MergeRoom(l: Layout, end: int, i: nat, size: int, x: int)
    requires Tiles(l, end) && i + 1 < |l| && l[i].free && l[i + 1].free
    ensures RoomBy(Merge(l, i), size, x) <==> RoomBy(l, size, x)
  {
    if RoomBy(Merge(l, i), size, x) {
      var a, b :| FreeRun(Merge(l, i), a, b) && Capacity(Merge(l, i), a, b) >= size && Merge(l, i)[a].addr <= x;
      UnmergeRun(l, end, i, a, b);
    }
    if RoomBy(l, size, x) {
      var a, b :| FreeRun(l, a, b) && Capacity(l, a, b) >= size && l[a].addr <= x;
      MergeRun(l, end, i, a, b);
    }
  }

  lemma UnmergeRun(l: Layout, end: int, i: nat, a: int, b: int)
    requires Tiles(l, end) && i + 1 < |l| && l[i].free && l[i + 1].free
    requires FreeRun(Merge(l, i), a, b)
    ensures exists a', b' :: FreeRun(l, a', b') && Capacity(l, a', b') >= Capacity(Merge(l, i), a, b)
                             && l[a'].addr <= Merge(l, i)[a].addr
  {
    var l' := Merge(l, i);
    var a', b' := if a <= i then a else a + 1, if b <= i then b else b + 1;
    forall k | a' <= k < b' ensures l[k].free {
      assert k < i ==> l'[k].free;
      assert i + 1 < k ==> l'[k - 1].free;
    }
    SameSpan(l, end, i, a, b, a', b');
    assert FreeRun(l, a', b');
  }

  lemma SameSpan(l: Layout, end: int, i: nat, a: int, b: int, a': int, b': int)
    requires Tiles(l, end) && i + 1 < |l| && 0 <= a < b <= |l| - 1
    requires a' == (if a <= i then a else a + 1) && b' == if b <= i then b else b + 1
    ensures Capacity(l, a', b') == Capacity(Merge(l, i), a, b) && l[a'].addr == Merge(l, i)[a].addr
  {
    assert TileAt(l, end, i);
    assert Merge(l, i)[a].Payload() == l[a'].Payload();
    assert Merge(l, i)[b - 1].End() == l[b' - 1].End();
  }

  lemma MergeRun(l: Layout, end: int, i: nat, a: int, b: int)
    requires Tiles(l, end) && i + 1 < |l| && l[i].free && l[i + 1].free
    requires FreeRun(l, a, b)
    ensures exists a', b' :: FreeRun(Merge(l, i), a', b') && Capacity(Merge(l, i), a', b') >= Capacity(l, a, b)
                             && Merge(l, i)[a'].addr <= l[a].addr
  {
    var l' := Merge(l, i);
    var a', b' := if a <= i then a else a - 1, if b <= i + 1 then b else b - 1;
    forall k | a' <= k < b' ensures l'[k].free {
      assert k < i ==> l[k].free;
      assert i < k ==> l[k + 1].free;
    }
    WiderSpan(l, end, i, a, b, a', b');
    assert FreeRun(l', a', b');
  }

  lemma WiderSpan(l: Layout, end: int, i: nat, a: int, b: int, a': int, b': int)
    requires Tiles(l, end) && i + 1 < |l| && 0 <= a < b <= |l|
    requires a' == (if a <= i then a else a - 1) && b' == if b <= i + 1 then b else b - 1
    ensures 0 <= a' < b' <= |l| - 1
    ensures Capacity(Merge(l, i), a', b') >= Capacity(l, a, b) && Merge(l, i)[a'].addr <= l[a].addr
  {
    MergeStart(l, end, i, a);
    MergeEnd(l, end, i, b - 1);
  }

  /** Where block a starts after the merge, and where block e ends. */
  lemma MergeStart(l: Layout, end: int, i: nat, a: nat)
    requires Tiles(l, end) && i + 1 < |l| && a < |l|
    ensures Merge(l, i)[if a <= i then a else a - 1].Payload() <= l[a].Payload()
  {
    assert TileAt(l, end, i);
  }

  lemma MergeEnd(l: Layout, end: int, i: nat, e: nat)
    requires Tiles(l, end) && i + 1 < |l| && e < |l|
    ensures Merge(l, i)[if e <= i then e else e - 1].End() >= l[e].End()
  {
    assert TileAt(l, end, i) && TileAt(l, end, i + 1);
  }

  lemma {:induction false} CoalesceRoom(l: Layout, end: int, i: nat, size: int, x: int)
    requires Tiles(l, end)
    requires NoAdjacentFree(l, i)
    ensures RoomBy(CoalesceFrom(l, i), size, x) <==> RoomBy(l, size, x)
    ensures NoAdjacentFree(CoalesceFrom(l, i), |CoalesceFrom(l, i)|)
    decreases |l| - i
  {
    if i + 1 < |l| {
      if l[i].free && l[i + 1].free {
        MergeKeeps(l, end, i);
        MergeRoom(l, end, i, size, x);
        var l' := Merge(l, i);
        assert forall j :: 0 <= j < i ==> l'[j] == l[j];
        CoalesceRoom(l', end, i, size, x);
      } else {
        CoalesceRoom(l, end, i + 1, size, x);
      }
    }
  }

  /** In a coalesced layout a run of free blocks is one block. */
  lemma SingleRun(d: Layout, end: int, size: int, x: int)
    requires Tiles(d, end) && NoAdjacentFree(d, |d|) && RoomBy(d, size, x)
    ensures FirstFit(d, size) < |d| && d[FirstFit(d, size)].addr <= x
  {
    var i, j :| FreeRun(d, i, j) && Capacity(d, i, j) >= size && d[i].addr <= x;
    assert !(i + 1 < |d| && d[i].free && d[i + 1].free);
    assert Capacity(d, i, i + 1) == d[i].size;
    assert Fits(d[i], size);
    var f := FirstFit(d, size);
    if f < i {
      InOrder(d, end, f, i);
      assert TileAt(d, end, f);
    }
  }

  /** After the coalescing pass a block fits exactly when some run of free blocks did before it. */
  lemma CoalescedFit(l: Layout, end: int, size: int)
    requires Tiles(l, end)
    ensures FirstFit(Coalesce(l), size) < |Coalesce(l)| <==> HasRoom(l, size)
  {
    var d := Coalesce(l);
    CoalesceKeeps(l, end, 0);
    CoalesceRoom(l, end, 0, size, end);
    RoomSomewhere(l, end, size);
    if RoomBy(d, size, end) {
      SingleRun(d, end, size, end);
    }
    FitIsRoom(d, size);
    RoomSomewhere(d, end, size);
  }

  /** And the first block that fits then starts where the lowest run with room did. */
  lemma CoalescedPlace(l: Layout, end: int, size: int)
    requires Tiles(l, end) && FirstFit(Coalesce(l), size) < |Coalesce(l)|
    ensures var at := Coalesce(l)[FirstFit(Coalesce(l), size)].addr;
            && (exists i, j :: FreeRun(l, i, j) && Capacity(l, i, j) >= size && l[i].addr == at)
            && (forall i, j :: FreeRun(l, i, j) && Capacity(l, i, j) >= size ==> at <= l[i].addr)
  {
    var d := Coalesce(l);
    var f := FirstFit(d, size);
    CoalesceKeeps(l, end, 0);
    forall i, j | FreeRun(l, i, j) && Capacity(l, i, j) >= size ensures d[f].addr <= l[i].addr {
      CoalesceRoom(l, end, 0, size, l[i].addr);
      SingleRun(d, end, size, l[i].addr);
    }
    assert FreeRun(d, f, f + 1) && Capacity(d, f, f + 1) == d[f].size;
    CoalesceRoom(l, end, 0, size, d[f].addr);
  }

  /** Where there are no two free blocks side by side, the pass has nothing to do. */
  lemma {:induction false} CoalesceIdle(l: Layout, i: nat)
    requires NoAdjacentFree(l, |l|)
    ensures CoalesceFrom(l, i) == l
    decreases |l| - i
  {
    if i + 1 < |l| {
      CoalesceIdle(l, i + 1);
    }
  }

  // ---------------------------------------------------------------- kmalloc and kfree as functions

  datatype Heap = Heap(layout: Layout, end: int)

  /** What kmalloc leaves and answers; ptr is 0 for NULL. */
  datatype Outcome = Outcome(heap: Heap, ptr: int)

  function Taken(h: Heap, i: nat, size: int): Outcome
    requires i < |h.layout|
  {
    Outcome(Heap(Carve(h.layout, i, size), h.end), h.layout[i].Payload())
  }

  /** kmalloc, where `grows` says whether heap_expand would succeed: first fit, else coalesce and
      first fit again, else grow and take the new block. */
  function Malloc(h: Heap, size: nat, grows: bool): Outcome {
    var f := FirstFit(h.layout, size);
    var d := Coalesce(h.layout);
    var g := FirstFit(d, size);
    if size == 0 then Outcome(h, 0)
    else if f < |h.layout| then Taken(h, f, size)
    else if g < |d| then Taken(Heap(d, h.end), g, size)
    else if !grows then Outcome(Heap(d, h.end), 0)
    else Taken(Heap(Grown(d, h.end, Growth(size)), h.end + Growth(size)), |d|, size)
  }

  lemma GrowthHolds(size: nat)
    ensures Growth(size) - HDR >= size + HDR && Growth(size) % PAGE == 0 && Growth(size) < size + 2 * HDR + PAGE
  {}

  /** The block kmalloc hands out is new, large enough, and the only change to the live blocks; it
      answers NULL exactly when no run of free blocks has room and the heap cannot grow. */
  lemma MallocFacts(h: Heap, size: nat, grows: bool) returns (b: Block)
    requires Tiles(h.layout, h.end)
    ensures var o := Malloc(h, size, grows);
            && Tiles(o.heap.layout, o.heap.end)
            && (o.ptr == 0 <==> size == 0 || (!HasRoom(h.layout, size) && !grows))
            && (o.ptr == 0 ==> Live(o.heap.layout) == Live(h.layout))
            && (o.ptr != 0 ==> b !in Live(h.layout) && Live(o.heap.layout) == Live(h.layout) + {b}
                               && b.Payload() == o.ptr && size <= b.size <= size + HDR)
            && o.heap.end == h.end + (if size != 0 && !HasRoom(h.layout, size) && grows then Growth(size) else 0)
  {
    b := Block(0, 0, false);
    if size == 0 {
      return;
    }
    CoalescedFit(h.layout, h.end, size);
    FitIsRoom(h.layout, size);
    CoalesceKeeps(h.layout, h.end, 0);
    var f := FirstFit(h.layout, size);
    var d := Coalesce(h.layout);
    var g := FirstFit(d, size);
    if f < |h.layout| {
      b := TakenFacts(h, f, size);
    } else if g < |d| {
      b := TakenFacts(Heap(d, h.end), g, size);
    } else if grows {
      GrowthHolds(size);
      GrownKeeps(d, h.end, Growth(size));
      b := TakenFacts(Heap(Grown(d, h.end, Growth(size)), h.end + Growth(size)), |d|, size);
    }
  }

  /** The block taken, and what stays: kmalloc takes the lowest block that fits; when none does, the
      lowest run of free blocks with room; when there is none, the memory it grows by. */
  lemma MallocPlace(h: Heap, size: nat, grows: bool)
    requires Tiles(h.layout, h.end) && 0 < size
    ensures var l, o := h.layout, Malloc(h, size, grows);
            && ((exists i :: 0 <= i < |l| && Fits(l[i], size)) ==>
                  && (exists i :: 0 <= i < |l| && Fits(l[i], size) && o.ptr == l[i].Payload())
                  && (forall i :: 0 <= i < |l| && Fits(l[i], size) ==> o.ptr <= l[i].Payload())
                  && (forall i :: 0 <= i < |l| && l[i].Payload() != o.ptr ==> l[i] in o.heap.layout))
            && (HasRoom(l, size) && !(exists i :: 0 <= i < |l| && Fits(l[i], size)) ==>
                  && (exists i, j :: FreeRun(l, i, j) && Capacity(l, i, j) >= size && o.ptr == l[i].Payload())
                  && (forall i, j :: FreeRun(l, i, j) && Capacity(l, i, j) >= size ==> o.ptr <= l[i].Payload()))
            && (!HasRoom(l, size) && grows ==> o.ptr == h.end + HDR)
  {
    var l, d := h.layout, Coalesce(h.layout);
    var f := FirstFit(l, size);
    FitIsRoom(l, size);
    CoalescedFit(l, h.end, size);
    if f < |l| {
      LowestFit(l, h.end, size);
      CarveOthers(l, f, size);
    } else if FirstFit(d, size) < |d| {
      CoalescedPlace(l, h.end, size);
    }
  }

  /** Whether the heap could grow matters only where it has no room. */
  lemma GrowsOrNot(h: Heap, size: nat, grows: bool)
    requires Tiles(h.layout, h.end)
    ensures Malloc(h, size, grows) == Malloc(h, size, size != 0 && !HasRoom(h.layout, size) && grows)
  {
    FitIsRoom(h.layout, size);
    CoalescedFit(h.layout, h.end, size);
  }

  lemma LowestFit(l: Layout, end: int, size: int)
    requires Tiles(l, end) && FirstFit(l, size) < |l|
    ensures forall i :: 0 <= i < |l| && Fits(l[i], size) ==> l[FirstFit(l, size)].Payload() <= l[i].Payload()
  {
    TilesOrdered(l, end);
  }

  lemma CarveOthers(l: Layout, i: nat, size: int)
    requires i < |l|
    ensures forall j :: 0 <= j < |l| && j != i ==> l[j] in Carve(l, i, size)
  {
    var l' := Carve(l, i, size);
    forall j | 0 <= j < |l| && j != i ensures l[j] in l' {
      assert l'[if i < j then j + |l'| - |l| else j] == l[j];
    }
  }

  lemma FitIsRoom(l: Layout, size: int)
    ensures FirstFit(l, size) < |l| ==> HasRoom(l, size)
  {
    var f := FirstFit(l, size);
    if f < |l| {
      assert FreeRun(l, f, f + 1) && Capacity(l, f, f + 1) == l[f].size;
    }
  }

  lemma TakenFacts(h: Heap, i: nat, size: nat) returns (b: Block)
    requires Tiles(h.layout, h.end) && i < |h.layout| && Fits(h.layout[i], size) && 0 < size
    ensures var o := Taken(h, i, size);
            && Tiles(o.heap.layout, o.heap.end) && o.ptr != 0 && b.Payload() == o.ptr
            && b !in Live(h.layout) && Live(o.heap.layout) == Live(h.layout) + {b} && size <= b.size <= size + HDR
  {
    CarveKeeps(h.layout, h.end, i, size);
    Bounds(h.layout, h.end, i);
    b := Carve(h.layout, i, size)[i];
  }

  /** Growing never leaves the request unserved: the new block is the first that fits. */
  lemma GrowthServes(d: Layout, end: int, size: nat)
    requires FirstFit(d, size) == |d|
    ensures FirstFit(Grown(d, end, Growth(size)), size) == |d|
  {
    GrowthHolds(size);
    var g := Grown(d, end, Growth(size));
    assert Fits(g[|d|], size);
    assert forall j :: 0 <= j < |d| ==> g[j] == d[j];
  }

  /** kmalloc on the grown heap, whatever a further growth would do, is kmalloc that grows. */
  lemma MallocAfterGrowth(h: Heap, size: nat, again: bool)
    requires size != 0 && FirstFit(h.layout, size) == |h.layout|
    requires FirstFit(Coalesce(h.layout), size) == |Coalesce(h.layout)|
    ensures var g := Heap(Grown(Coalesce(h.layout), h.end, Growth(size)), h.end + Growth(size));
            Malloc(g, size, again) == Malloc(h, size, true) && FirstFit(g.layout, size) < |g.layout|
  {
    GrowthServes(Coalesce(h.layout), h.end, size);
  }

  /** The block behind a pointer: its index, or |l| when the pointer belongs to no block. */
  function IndexOf(l: Layout, ptr: int): (i: nat)
    ensures i <= |l|
    ensures i < |l| ==> l[i].Payload() == ptr
    ensures i == |l| ==> forall j :: 0 <= j < |l| ==> l[j].Payload() != ptr
  {
    if l == [] then 0
    else if l[0].Payload() == ptr then 0
    else
      var k := IndexOf(l[1..], ptr);
      assert forall j :: 1 <= j < |l| ==> l[j] == l[1..][j - 1];
      1 + k
  }

  /** A pointer to a block of the heap, allocated or already free. */
  predicate IsBlock(l: Layout, ptr: int) {
    IndexOf(l, ptr) < |l|
  }

  predicate IsLive(l: Layout, ptr: int) {
    IsBlock(l, ptr) && !l[IndexOf(l, ptr)].free
  }

  function Free(h: Heap, ptr: int): Heap
    requires IsBlock(h.layout, ptr)
  {
    Heap(Freed(h.layout, IndexOf(h.layout, ptr)), h.end)
  }

  // ---------------------------------------------------------------- whole runs

  datatype Op = DoMalloc(size: nat, grows: bool) | DoFree(ptr: int)

  /** Clients free pointers to blocks only; freeing one twice is allowed. */
  predicate Legal(h: Heap, op: Op) {
    op.DoFree? ==> IsBlock(h.layout, op.ptr)
  }

  function Step(h: Heap, op: Op): Heap
    requires Legal(h, op)
  {
    match op
    case DoMalloc(size, grows) => Malloc(h, size, grows).heap
    case DoFree(ptr) => Free(h, ptr)
  }

  ghost predicate LegalRun(h: Heap, ops: seq<Op>)
    decreases ops
  {
    ops == [] || (Legal(h, ops[0]) && LegalRun(Step(h, ops[0]), ops[1..]))
  }

  ghost function Run(h: Heap, ops: seq<Op>): Heap
    requires LegalRun(h, ops)
    decreases ops
  {
    if ops == [] then h else Run(Step(h, ops[0]), ops[1..])
  }

  lemma StepKeeps(h: Heap, op: Op)
    requires Tiles(h.layout, h.end) && Legal(h, op)
    ensures Tiles(Step(h, op).layout, Step(h, op).end) && h.end <= Step(h, op).end
  {
    match op
    case DoMalloc(size, grows) =>
      var _ := MallocFacts(h, size, grows);
      GrowthHolds(size);
    case DoFree(ptr) =>
      FreedKeeps(h.layout, h.end, IndexOf(h.layout, ptr));
  }

  /** In every run the blocks tile the heap and no two live blocks overlap. */
  lemma {:induction false} EveryRunTiles(h: Heap, ops: seq<Op>)
    requires Tiles(h.layout, h.end) && LegalRun(h, ops)
    ensures Tiles(Run(h, ops).layout, Run(h, ops).end)
    ensures forall b, c :: b in Live(Run(h, ops).layout) && c in Live(Run(h, ops).layout) && b != c ==> Disjoint(b, c)
    decreases ops
  {
    if ops == [] {
      forall b, c | b in Live(h.layout) && c in Live(h.layout) && b != c ensures Disjoint(b, c) {
        LiveDisjoint(h.layout, h.end, b, c);
      }
    } else {
      StepKeeps(h, ops[0]);
      EveryRunTiles(Step(h, ops[0]), ops[1..]);
    }
  }

  /** One call leaves no two free blocks side by side where there were none. */
  lemma StepMerged(h: Heap, op: Op)
    requires Tiles(h.layout, h.end) && Legal(h, op) && NoAdjacentFree(h.layout, |h.layout|)
    ensures NoAdjacentFree(Step(h, op).layout, |Step(h, op).layout|)
  {
    match op
    case DoMalloc(size, grows) =>
      CoalesceIdle(h.layout, 0);
      var f := FirstFit(h.layout, size);
      if size != 0 && f < |h.layout| {
        CarveMerged(h.layout, f, size);
      } else if size != 0 && grows {
        GrowthHolds(size);
        GrownMerged(h.layout, h.end, size);
      }
    case DoFree(ptr) =>
      FreedMerges(h.layout, h.end, IndexOf(h.layout, ptr));
  }

  lemma CarveMerged(l: Layout, i: nat, size: int)
    requires i < |l| && l[i].free && NoAdjacentFree(l, |l|)
    ensures NoAdjacentFree(Carve(l, i, size), |Carve(l, i, size)|)
  {
    var l' := Carve(l, i, size);
    assert i + 1 < |l| ==> !(l[i].free && l[i + 1].free);
    forall k | 0 <= k < |l'| && k + 1 < |l'| ensures !(l'[k].free && l'[k + 1].free) {
      if k + 1 < i {
        assert !(l[k].free && l[k + 1].free);
      } else if i + 1 < k {
        var m := k - (|l'| - |l|);
        assert !(l[m].free && l[m + 1].free);
      }
    }
  }

  lemma GrownMerged(l: Layout, end: int, size: nat)
    requires NoAdjacentFree(l, |l|) && Growth(size) - HDR >= size + HDR
    ensures var g := Grown(l, end, Growth(size));
            NoAdjacentFree(Carve(g, |l|, size), |Carve(g, |l|, size)|)
  {
    var g := Grown(l, end, Growth(size));
    var l' := Carve(g, |l|, size);
    forall k | 0 <= k < |l'| && k + 1 < |l'| ensures !(l'[k].free && l'[k + 1].free) {
      if k + 1 < |l| {
        assert !(l[k].free && l[k + 1].free);
      }
    }
  }

  /** In every run from a heap without adjacent free blocks, such as the one heap_init leaves, there are
      never any: the coalescing pass of kmalloc never finds work. */
  lemma {:induction false} EveryRunMerged(h: Heap, ops: seq<Op>)
    requires Tiles(h.layout, h.end) && LegalRun(h, ops) && NoAdjacentFree(h.layout, |h.layout|)
    ensures NoAdjacentFree(Run(h, ops).layout, |Run(h, ops).layout|)
    ensures Coalesce(Run(h, ops).layout) == Run(h, ops).layout
    decreases ops
  {
    if ops == [] {
      CoalesceIdle(h.layout, 0);
    } else {
      StepKeeps(h, ops[0]);
      StepMerged(h, ops[0]);
      EveryRunMerged(Step(h, ops[0]), ops[1..]);
    }
  }

  /** A pointer that is never freed during a run keeps its block, address and size, to the end. */
  lemma {:induction false} LiveUntilFreed(h: Heap, ops: seq<Op>, b: Block)
    requires Tiles(h.layout, h.end) && LegalRun(h, ops)
    requires b in Live(h.layout) && forall k :: 0 <= k < |ops| ==> ops[k] != DoFree(b.Payload())
    ensures b in Live(Run(h, ops).layout)
    decreases ops
  {
    if ops != [] {
      StepKeeps(h, ops[0]);
      match ops[0] {
        case DoMalloc(size, grows) =>
          var _ := MallocFacts(h, size, grows);
        case DoFree(ptr) =>
          FreedKeeps(h.layout, h.end, IndexOf(h.layout, ptr));
      }
      LiveUntilFreed(Step(h, ops[0]), ops[1..], b);
    }
  }

  // ---------------------------------------------------------------- sizes

  /** What heap_get_total_size has summed up after n blocks. */
  function TotalTo(l: Layout, n: nat): int
    requires n <= |l|
  {
    if n == 0 then 0 else TotalTo(l, n - 1) + l[n - 1].size + HDR
  }

  lemma {:induction false} TotalIsSpan(l: Layout, end: int, n: nat)
    requires Tiles(l, end) && n <= |l|
    ensures TotalTo(l, n) == (if n == |l| then end else l[n].addr) - HEAP_START
  {
    if n != 0 {
      TotalIsSpan(l, end, n - 1);
      assert TileAt(l, end, n - 1);
    }
  }

  /** The same for heap_get_free_size. */
  function FreeTo(l: Layout, n: nat): int
    requires n <= |l|
  {
    if n == 0 then 0 else FreeTo(l, n - 1) + if l[n - 1].free then l[n - 1].size else 0
  }

  function LiveTo(l: Layout, n: nat): int
    requires n <= |l|
  {
    if n == 0 then 0 else LiveTo(l, n - 1) + if l[n - 1].free then 0 else l[n - 1].size
  }

  function FreeSize(l: Layout): int {
    FreeTo(l, |l|)
  }

  function LiveSize(l: Layout): int {
    LiveTo(l, |l|)
  }

  /** Free bytes, live bytes and headers make up the whole heap. */
  lemma {:induction false} SizesAddUp(l: Layout, n: nat)
    requires n <= |l|
    ensures FreeTo(l, n) + LiveTo(l, n) + HDR * n == TotalTo(l, n)
  {
    if n != 0 {
      SizesAddUp(l, n - 1);
    }
  }

  lemma FreeIsRest(l: Layout, end: int)
    requires Tiles(l, end)
    ensures FreeSize(l) == end - HEAP_START - LiveSize(l) - HDR * |l|
  {
    TotalIsSpan(l, end, |l|);
    SizesAddUp(l, |l|);
  }

  /** The live bytes of k blocks depend on these blocks alone. */
  lemma {:induction false} LiveShift(l: Layout, e: nat, l': Layout, a: nat, k: nat)
    requires e + k <= |l| && a + k <= |l'| && l'[a..a + k] == l[e..e + k]
    ensures LiveTo(l', a + k) - LiveTo(l', a) == LiveTo(l, e + k) - LiveTo(l, e)
  {
    if k != 0 {
      assert l'[a..a + k][..k - 1] == l'[a..a + k - 1] && l[e..e + k][..k - 1] == l[e..e + k - 1];
      LiveShift(l, e, l', a, k - 1);
      assert l'[a..a + k][k - 1] == l'[a + k - 1] && l[e..e + k][k - 1] == l[e + k - 1];
    }
  }

  /** Free blocks have no live bytes. */
  lemma {:induction false} LiveBetween(l: Layout, a: nat, e: nat, i: nat)
    requires a <= e <= |l| && a <= i < |l| && forall k :: a <= k < e && k != i ==> l[k].free
    ensures LiveTo(l, e) - LiveTo(l, a) == if l[i].free || e <= i then 0 else l[i].size
    decreases e
  {
    if a < e {
      LiveBetween(l, a, e - 1, i);
    }
  }

  /** What joining blocks around block i gives back: its bytes, if it was live, and all headers but one. */
  lemma JoinedSize(l: Layout, end: int, a: nat, e: nat, i: nat)
    requires Tiles(l, end) && a <= i < e <= |l| && Tiles(Joined(l, a, e), end)
    requires forall k :: a <= k < e && k != i ==> l[k].free
    ensures FreeSize(Joined(l, a, e)) == FreeSize(l) + (if l[i].free then 0 else l[i].size) + HDR * (e - a - 1)
  {
    FreeIsRest(l, end);
    FreeIsRest(Joined(l, a, e), end);
    JoinedLive(l, a, e, i);
  }

  lemma JoinedLive(l: Layout, a: nat, e: nat, i: nat)
    requires a <= i < e <= |l| && forall k :: a <= k < e && k != i ==> l[k].free
    ensures LiveSize(Joined(l, a, e)) == LiveSize(l) - if l[i].free then 0 else l[i].size
    ensures |Joined(l, a, e)| == |l| - (e - a) + 1
  {
    var l' := Joined(l, a, e);
    assert l'[a].free;
    LiveShift(l, 0, l', 0, a);
    LiveShift(l, e, l', a + 1, |l| - e);
    LiveBetween(l, a, e, i);
  }

  /** The laws of kfree on the layout l' it leaves. */
  lemma FreedAgain(l: Layout, end: int, i: nat, l': Layout)
    requires Tiles(l, end) && i < |l| && l' == Freed(l, i)
    ensures l' == Joined(l, if 0 < i && l[i - 1].free then i - 1 else i,
                         if i + 1 < |l| && l[i + 1].free then i + 2 else i + 1)
    ensures FreeSize(l') == FreeSize(l) + (if l[i].free then 0 else l[i].size) + HDR * (|l| - |l'|)
    ensures NoAdjacentFree(l, |l|) ==> NoAdjacentFree(l', |l'|)
  {
    var a := if 0 < i && l[i - 1].free then i - 1 else i;
    var e := if i + 1 < |l| && l[i + 1].free then i + 2 else i + 1;
    FreedIs(l, end, i);
    FreedKeeps(l, end, i);
    JoinedSize(l, end, a, e, i);
    if NoAdjacentFree(l, |l|) {
      FreedMerges(l, end, i);
    }
  }
}
